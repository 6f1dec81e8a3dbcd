/** The scheduled queue (vyuh/src/schedulers.rs): a heap that keeps stale deadlines and repairs them when it is popped.
    The binary heap is a bag with an arbitrary choice among least deadlines; instants are natural numbers. */
module ScheduleQueue {

  type Instant = nat
  type Key = nat

  const KEYS := 0x1_0000_0000

  datatype Work = Work(key: Key, deadline: Instant)

  datatype State = State(counter: Key, heap: multiset<Work>, updates: map<Key, Instant>)

  const EMPTY := State(0, multiset{}, map[])

  /** How one poll of `pop` ends: with a key, or asleep until a deadline or a notification. */
  datatype Polled = Ready(key: Key) | Sleep(wait: nat) | Idle

  datatype Event =
    | Insert(deadline: Instant, key: Key)
    | Remove(target: Key, removed: bool)
    | Clear
    | Update(target: Key, deadline: Instant, updated: bool)
    | Poll(now: Instant, path: seq<State>, polled: Polled)

  ghost predicate Least(heap: multiset<Work>, w: Work) {
    w in heap && forall x :: x in heap ==> w.deadline <= x.deadline
  }

  /** The deadline stored with a work item is older than its last update. */
  predicate Behind(s: State, w: Work) {
    w.key in s.updates && s.updates[w.key] > w.deadline
  }

  function Requeued(s: State, w: Work): State
    requires w.key in s.updates
  {
    s.(heap := s.heap - multiset{w} + multiset{Work(w.key, s.updates[w.key])})
  }

  /** One due item, the least and behind its update, is put back with the updated deadline. */
  ghost predicate Deferral(s: State, now: Instant, s': State) {
    exists w :: Least(s.heap, w) && w.deadline <= now && Behind(s, w) && s' == Requeued(s, w)
  }

  /** The states a poll goes through while it puts items back. */
  ghost predicate Deferrals(path: seq<State>, now: Instant) {
    path != [] && forall i :: 0 <= i < |path| - 1 ==> Deferral(path[i], now, path[i + 1])
  }

  /** How a poll ends once nothing has to be put back. */
  ghost predicate Settled(t: State, now: Instant, polled: Polled, s': State) {
    match polled
    case Idle => t.heap == multiset{} && s' == t
    case Sleep(wait) =>
      s' == t && exists w :: Least(t.heap, w) && now < w.deadline && wait == w.deadline - now
    case Ready(key) =>
      exists w :: Least(t.heap, w) && w.deadline <= now && !Behind(t, w) && key == w.key
                  && s' == t.(heap := t.heap - multiset{w})
  }

  ghost predicate Removed(s: State, key: Key, s': State) {
    && s'.counter == s.counter && s'.updates == s.updates
    && forall w :: s'.heap[w] == if w.key == key then 0 else s.heap[w]
  }

  function Inserted(s: State, deadline: Instant): State {
    State((s.counter + 1) % KEYS, s.heap + multiset{Work(s.counter, deadline)}, s.updates[s.counter := deadline])
  }

  function Updated(s: State, key: Key, deadline: Instant): State {
    if key in s.updates then s.(updates := s.updates[key := Max(deadline, s.updates[key])]) else s
  }

  ghost predicate Polling(s: State, now: Instant, path: seq<State>, polled: Polled, s': State) {
    Deferrals(path, now) && path[0] == s && Settled(path[|path| - 1], now, polled, s')
  }

  /** One call on the queue, or one poll of the future `pop` returns. */
  ghost predicate Step(s: State, e: Event, s': State) {
    match e
    case Insert(deadline, key) => key == s.counter && s' == Inserted(s, deadline)
    case Remove(key, removed) => Removed(s, key, s') && (removed <==> Queued(s, key))
    case Clear => s' == s.(heap := multiset{})
    case Update(key, deadline, updated) => (updated <==> key in s.updates) && s' == Updated(s, key, deadline)
    case Poll(now, path, polled) => Polling(s, now, path, polled, s')
  }

  ghost predicate Queued(s: State, key: Key) {
    exists w :: w in s.heap && w.key == key
  }

  function Max(a: nat, b: nat): nat {
    if a < b then b else a
  }

  function Minus(a: nat, b: nat): nat {
    if a < b then 0 else a - b
  }

  // ---------------------------------------------------------------------------
  // The queue object
  // ---------------------------------------------------------------------------

  lemma {:induction false} LeastExists(heap: multiset<Work>)
    requires heap != multiset{}
    ensures exists w :: Least(heap, w)
    decreases |heap|
  {
    var w :| w in heap;
    var rest := heap - multiset{w};
    if rest == multiset{} {
      assert heap == multiset{w};
      assert Least(heap, w);
    } else {
      LeastExists(rest);
      var v :| Least(rest, v);
      forall x | x in heap && x != w
        ensures v.deadline <= x.deadline
      {
        assert x in rest;
      }
      assert Least(heap, if w.deadline <= v.deadline then w else v);
    }
  }

  /** Drains a heap, keeping every item but those of one key. */
  method Drained(heap: multiset<Work>, key: Key) returns (kept: multiset<Work>, removed: bool)
    ensures forall w :: kept[w] == if w.key == key then 0 else heap[w]
    ensures removed <==> exists w :: w in heap && w.key == key
  {
    kept, removed := multiset{}, false;
    var left := heap;
    while left != multiset{}
      invariant forall w :: left[w] <= heap[w]
      invariant forall w :: kept[w] == if w.key == key then 0 else Minus(heap[w], left[w])
      invariant removed ==> exists w :: w in heap && w.key == key
      invariant !removed ==> forall w :: w in heap && w.key == key ==> w in left
      decreases |left|
    {
      var w :| w in left;
      left := left - multiset{w};
      if w.key == key {
        assert w in heap;
        removed := true;
      } else {
        kept := kept + multiset{w};
      }
    }
  }

  /** The heap's `peek`: some item of least deadline. */
  method Peek(heap: multiset<Work>) returns (work: Work)
    requires heap != multiset{}
    ensures Least(heap, work)
  {
    LeastExists(heap);
    work :| work in heap && forall x :: x in heap ==> work.deadline <= x.deadline;
  }

  class ScheduledQueue {
    var counter: Key
    var heap: multiset<Work>
    var updates: map<Key, Instant>
    var permit: bool

    ghost function View(): State
      reads this
    {
      State(counter, heap, updates)
    }

    /** Every queued item has an update entry no older than itself; items of one key are never queued twice. */
    ghost predicate Valid()
      reads this
    {
      Consistent(View())
    }

    constructor ()
      ensures Valid() && View() == EMPTY
    {
      counter, heap, updates, permit := 0, multiset{}, map[], false;
    }

    /** The key handed out is the counter; the queue stays consistent unless that key is still queued. */
    method Insert(deadline: Instant) returns (key: Key)
      requires Valid()
      modifies this
      ensures Step(old(View()), Event.Insert(deadline, key), View())
      ensures !Queued(old(View()), key) ==> Valid() && Effective(View()) == Effective(old(View()))[key := deadline]
      ensures permit
    {
      key := counter;
      counter := (counter + 1) % KEYS;
      heap := heap + multiset{Work(key, deadline)};
      updates := updates[key := deadline];
      permit := true;
      if !Queued(old(View()), key) {
        InsertRefines(old(View()), deadline);
      }
    }

    method Remove(key: Key) returns (removed: bool)
      requires Valid()
      modifies this
      ensures Step(old(View()), Event.Remove(key, removed), View())
      ensures Valid() && Effective(View()) == Effective(old(View())) - {key}
      ensures removed <==> key in Effective(old(View()))
      ensures permit == (old(permit) || removed)
    {
      var kept;
      kept, removed := Drained(heap, key);
      heap := kept;
      if removed {
        permit := true;
      }
      assert Removed(old(View()), key, View());
      RemoveRefines(old(View()), key, View());
    }

    method Clear()
      requires Valid()
      modifies this
      ensures Step(old(View()), Event.Clear, View())
      ensures Valid() && Effective(View()) == map[] && permit
    {
      heap := multiset{};
      permit := true;
    }

    /** An update can only push a deadline out; it answers true for any key ever inserted, queued or not. */
    method Update(key: Key, deadline: Instant) returns (updated: bool)
      requires Valid()
      modifies this
      ensures Step(old(View()), Event.Update(key, deadline, updated), View())
      ensures Valid()
      ensures var before := Effective(old(View()));
              Effective(View()) == if key in before then before[key := Max(deadline, before[key])] else before
      ensures permit == (old(permit) || updated)
    {
      updated := false;
      if key in updates {
        updates := updates[key := Max(deadline, updates[key])];
        updated := true;
        permit := true;
      }
      UpdateRefines(old(View()), key, deadline);
    }

    /** Runs `pop` until it returns or waits. The clock is read once a turn and never goes back. */
    method PollPop(start: Instant) returns (polled: Polled, now: Instant, ghost path: seq<State>)
      requires Valid()
      modifies this`heap
      ensures start <= now
      ensures Step(old(View()), Poll(now, path, polled), View())
      ensures Valid() && EagerStep(Effective(old(View())), Poll(now, path, polled), Effective(View()))
    {
      polled, now, path := Spin(start);
      PollRefines(old(View()), now, path, polled, View());
    }

    /** The loop of `pop`. */
    method Spin(start: Instant) returns (polled: Polled, now: Instant, ghost path: seq<State>)
      requires Valid()
      modifies this`heap
      ensures start <= now
      ensures Polling(old(View()), now, path, polled, View())
    {
      ghost var t := State(counter, heap, updates);
      now, path := start, [t];
      while true
        invariant start <= now
        invariant t == State(counter, heap, updates) && Consistent(t)
        invariant Deferrals(path, now) && path[0] == old(View()) && path[|path| - 1] == t
        decreases |BehindKeys(t)|
      {
        var elapsed: nat :| 0 <= elapsed;
        DeferralsLater(path, now, now + elapsed);
        now := now + elapsed;
        if heap == multiset{} {
          polled := Idle;
          return;
        }
        var work := Peek(heap);
        if work.deadline <= now {
          heap := heap - multiset{work};
          if work.key in updates && updates[work.key] > work.deadline {
            heap := heap + multiset{Work(work.key, updates[work.key])};
            Defer(path, now, work);
            t := Requeued(t, work);
            path := path + [t];
            continue;
          }
          polled := Ready(work.key);
          ReadySettled(t, now, work);
          return;
        }
        polled := Sleep(work.deadline - now);
        SleepSettled(t, now, work);
        return;
      }
    }
  }

  // ---------------------------------------------------------------------------
  // The eager queue and the refinement
  // ---------------------------------------------------------------------------

  /** A key is queued at most once, with an update entry no older than the stored deadline. */
  ghost predicate Sound(s: State, k: Key) {
    forall w :: w in s.heap && w.key == k ==>
      && s.heap[w] == 1 && k in s.updates && w.deadline <= s.updates[k]
      && forall x :: x in s.heap && x.key == k ==> x == w
  }

  ghost predicate Consistent(s: State) {
    forall k :: Sound(s, k)
  }

  /** What the queue stands for: each queued key with the latest deadline it was given. */
  ghost function Effective(s: State): map<Key, Instant> {
    map k | k in s.updates && Queued(s, k) :: s.updates[k]
  }

  /** A queue that changes deadlines at once: the same calls on a map from queued keys to deadlines. */
  ghost predicate EagerStep(q: map<Key, Instant>, e: Event, q': map<Key, Instant>) {
    match e
    case Insert(deadline, key) => key !in q && q' == q[key := deadline]
    case Remove(key, removed) => (removed <==> key in q) && q' == q - {key}
    case Clear => q' == map[]
    case Update(key, deadline, updated) =>
      (key in q ==> updated) && q' == if key in q then q[key := Max(deadline, q[key])] else q
    case Poll(now, _, Idle) => q == map[] && q' == q
    case Poll(now, _, Sleep(wait)) => q != map[] && 0 < wait && (forall k :: k in q ==> now + wait <= q[k]) && q' == q
    case Poll(now, _, Ready(key)) =>
      key in q && q[key] <= now && (forall k :: k in q ==> q[key] <= q[k]) && q' == q - {key}
  }

  /** The queued keys whose stored deadline is behind. */
  ghost function BehindKeys(s: State): set<Key> {
    set k | k in s.updates && BehindKey(s, k)
  }

  lemma DeferralsLater(path: seq<State>, now: Instant, later: Instant)
    requires Deferrals(path, now) && now <= later
    ensures Deferrals(path, later)
  {
    forall i | 0 <= i < |path| - 1
      ensures Deferral(path[i], later, path[i + 1])
    {
      assert Deferral(path[i], now, path[i + 1]);
    }
  }

  // What an operation does to the queued keys decides what it does to the map the queue stands for.

  lemma SameEffective(s: State, s': State)
    requires s'.updates == s.updates && forall k :: Queued(s', k) <==> Queued(s, k)
    ensures Effective(s') == Effective(s)
  {
  }

  lemma EffectiveWithout(s: State, s': State, key: Key)
    requires s'.updates == s.updates && forall k :: Queued(s', k) <==> Queued(s, k) && k != key
    ensures Effective(s') == Effective(s) - {key}
  {
  }

  lemma EffectiveWith(s: State, s': State, key: Key, deadline: Instant)
    requires s'.updates == s.updates[key := deadline] && forall k :: Queued(s', k) <==> Queued(s, k) || k == key
    ensures Effective(s') == Effective(s)[key := deadline]
  {
  }

  /** Putting an item back keeps the queue consistent and the same keys queued. */
  lemma RequeuedKeys(s: State, w: Work)
    requires Consistent(s) && w in s.heap && Behind(s, w)
    ensures Consistent(Requeued(s, w))
    ensures forall k :: Queued(Requeued(s, w), k) <==> Queued(s, k)
  {
    var s', w' := Requeued(s, w), Work(w.key, s.updates[w.key]);
    assert Sound(s, w.key) && w' !in s.heap;
    assert forall x :: x in s'.heap <==> x == w' || (x in s.heap && x != w);
    forall k
      ensures Sound(s', k) && (Queued(s', k) <==> Queued(s, k))
    {
      assert Sound(s, k);
      if Queued(s, k) {
        var x :| x in s.heap && x.key == k;
        assert (if x == w then w' else x) in s'.heap;
      }
      if Queued(s', k) {
        var x :| x in s'.heap && x.key == k;
        assert (if x == w' then w else x) in s.heap;
      }
    }
  }

  ghost predicate BehindKey(s: State, k: Key) {
    exists w :: w in s.heap && w.key == k && Behind(s, w)
  }

  /** It leaves one key fewer behind its update. */
  lemma RequeuedBehind(s: State, w: Work)
    requires Consistent(s) && w in s.heap && Behind(s, w)
    ensures |BehindKeys(Requeued(s, w))| < |BehindKeys(s)|
  {
    var s', w' := Requeued(s, w), Work(w.key, s.updates[w.key]);
    assert Sound(s, w.key);
    assert forall x :: x in s'.heap ==> x == w' || (x in s.heap && x != w);
    assert BehindKey(s, w.key) && !BehindKey(s', w.key);
    forall k | BehindKey(s', k)
      ensures BehindKey(s, k)
    {
      var x :| x in s'.heap && x.key == k && Behind(s', x);
      assert x in s.heap && Behind(s, x);
    }
    SmallerSet(BehindKeys(s'), BehindKeys(s) - {w.key});
  }

  lemma ReadySettled(t: State, now: Instant, w: Work)
    requires Least(t.heap, w) && w.deadline <= now && !Behind(t, w)
    ensures Settled(t, now, Ready(w.key), State(t.counter, t.heap - multiset{w}, t.updates))
  {
  }

  lemma SleepSettled(t: State, now: Instant, w: Work)
    requires Least(t.heap, w) && now < w.deadline
    ensures Settled(t, now, Sleep(w.deadline - now), t)
  {
  }

  /** One more item put back. */
  lemma Defer(path: seq<State>, now: Instant, w: Work)
    requires Deferrals(path, now) && Consistent(path[|path| - 1])
    requires var t := path[|path| - 1]; Least(t.heap, w) && w.deadline <= now && Behind(t, w)
    ensures var t := path[|path| - 1];
            && Deferrals(path + [Requeued(t, w)], now)
            && Consistent(Requeued(t, w)) && |BehindKeys(Requeued(t, w))| < |BehindKeys(t)|
  {
    var t := path[|path| - 1];
    RequeuedKeys(t, w);
    RequeuedBehind(t, w);
    var longer := path + [Requeued(t, w)];
    assert forall i :: 0 <= i < |path| ==> longer[i] == path[i];
    assert Deferral(t, now, Requeued(t, w));
  }

  lemma RequeuedConsistent(s: State, w: Work)
    requires Consistent(s) && w in s.heap && Behind(s, w)
    ensures Consistent(Requeued(s, w))
    ensures Effective(Requeued(s, w)) == Effective(s)
    ensures |BehindKeys(Requeued(s, w))| < |BehindKeys(s)|
  {
    RequeuedKeys(s, w);
    RequeuedBehind(s, w);
    SameEffective(s, Requeued(s, w));
  }

  lemma {:induction false} SmallerSet(a: set<Key>, b: set<Key>)
    requires a <= b
    ensures |a| <= |b|
    decreases a
  {
    if a != {} {
      var x :| x in a;
      SmallerSet(a - {x}, b - {x});
    }
  }

  /** Putting items back changes nothing the queue stands for, and happens at most once for each key behind. */
  lemma {:induction false} DeferralsConsistent(path: seq<State>, now: Instant)
    requires Deferrals(path, now) && Consistent(path[0])
    ensures var t := path[|path| - 1];
            && Consistent(t) && Effective(t) == Effective(path[0])
            && t.counter == path[0].counter && t.updates == path[0].updates
            && |path| - 1 + |BehindKeys(t)| <= |BehindKeys(path[0])|
  {
    var n := |path| - 1;
    if n > 0 {
      DeferralsConsistent(path[..n], now);
      assert Deferral(path[n - 1], now, path[n]);
      var w :| Least(path[n - 1].heap, w) && w.deadline <= now && Behind(path[n - 1], w)
               && path[n] == Requeued(path[n - 1], w);
      RequeuedConsistent(path[n - 1], w);
    }
  }

  /** No queued key is due before the least stored deadline. */
  lemma LeastIsLower(t: State, w: Work)
    requires Consistent(t) && Least(t.heap, w)
    ensures w.key in Effective(t)
    ensures forall k :: k in Effective(t) ==> w.deadline <= Effective(t)[k]
  {
    assert Sound(t, w.key) && Queued(t, w.key);
    forall k | k in Effective(t)
      ensures w.deadline <= Effective(t)[k]
    {
      assert Sound(t, k);
      var x :| x in t.heap && x.key == k;
    }
  }

  lemma PoppedKeys(t: State, w: Work)
    requires Consistent(t) && w in t.heap
    ensures var s' := t.(heap := t.heap - multiset{w});
            Consistent(s') && forall k :: Queued(s', k) <==> Queued(t, k) && k != w.key
  {
    var s' := t.(heap := t.heap - multiset{w});
    assert Sound(t, w.key);
    assert forall x :: x in s'.heap <==> x in t.heap && x != w;
    forall k
      ensures Sound(s', k) && (Queued(s', k) <==> Queued(t, k) && k != w.key)
    {
      assert Sound(t, k);
      if Queued(t, k) && k != w.key {
        var x :| x in t.heap && x.key == k;
        assert x in s'.heap;
      }
    }
  }

  lemma SettledRefines(t: State, now: Instant, polled: Polled, s': State)
    requires Consistent(t) && Settled(t, now, polled, s')
    ensures Consistent(s') && EagerStep(Effective(t), Poll(now, [], polled), Effective(s'))
  {
    match polled
    case Idle =>
    case Sleep(wait) =>
      var w :| Least(t.heap, w) && now < w.deadline && wait == w.deadline - now;
      LeastIsLower(t, w);
    case Ready(key) =>
      var w :| Least(t.heap, w) && w.deadline <= now && !Behind(t, w) && key == w.key
               && s' == t.(heap := t.heap - multiset{w});
      LeastIsLower(t, w);
      PoppedKeys(t, w);
      EffectiveWithout(t, s', key);
  }

  lemma PollRefines(s: State, now: Instant, path: seq<State>, polled: Polled, s': State)
    requires Consistent(s) && Polling(s, now, path, polled, s')
    ensures Consistent(s') && EagerStep(Effective(s), Poll(now, path, polled), Effective(s'))
    ensures s'.counter == s.counter
  {
    DeferralsConsistent(path, now);
    SettledRefines(path[|path| - 1], now, polled, s');
  }

  lemma InsertedKeys(s: State, deadline: Instant)
    requires Consistent(s) && !Queued(s, s.counter)
    ensures Consistent(Inserted(s, deadline))
    ensures forall k :: Queued(Inserted(s, deadline), k) <==> Queued(s, k) || k == s.counter
  {
    var w, s' := Work(s.counter, deadline), Inserted(s, deadline);
    assert forall x :: x in s'.heap <==> x in s.heap || x == w;
    assert w !in s.heap && w in s'.heap;
    forall k
      ensures Sound(s', k) && (Queued(s, k) ==> Queued(s', k))
    {
      assert Sound(s, k);
      if Queued(s, k) {
        var x :| x in s.heap && x.key == k;
        assert x in s'.heap;
      }
    }
  }

  lemma InsertRefines(s: State, deadline: Instant)
    requires Consistent(s) && !Queued(s, s.counter)
    ensures Consistent(Inserted(s, deadline))
    ensures Effective(Inserted(s, deadline)) == Effective(s)[s.counter := deadline]
  {
    InsertedKeys(s, deadline);
    EffectiveWith(s, Inserted(s, deadline), s.counter, deadline);
  }

  lemma RemovedKeys(s: State, key: Key, s': State)
    requires Consistent(s) && Removed(s, key, s')
    ensures Consistent(s')
    ensures forall k :: Queued(s', k) <==> Queued(s, k) && k != key
  {
    assert forall x :: x in s'.heap <==> x in s.heap && x.key != key;
    forall k
      ensures Sound(s', k) && (Queued(s', k) <==> Queued(s, k) && k != key)
    {
      assert Sound(s, k);
      if Queued(s, k) && k != key {
        var x :| x in s.heap && x.key == k;
        assert x in s'.heap;
      }
    }
  }

  lemma QueuedIsEffective(s: State)
    requires Consistent(s)
    ensures forall k :: Queued(s, k) <==> k in Effective(s)
  {
    forall k | Queued(s, k)
      ensures k in s.updates
    {
      assert Sound(s, k);
    }
  }

  lemma RemoveRefines(s: State, key: Key, s': State)
    requires Consistent(s) && Removed(s, key, s')
    ensures Consistent(s') && Effective(s') == Effective(s) - {key}
    ensures Queued(s, key) <==> key in Effective(s)
  {
    RemovedKeys(s, key, s');
    EffectiveWithout(s, s', key);
    QueuedIsEffective(s);
  }

  lemma UpdatedKeys(s: State, key: Key, deadline: Instant)
    requires Consistent(s)
    ensures Consistent(Updated(s, key, deadline))
    ensures forall k :: Queued(Updated(s, key, deadline), k) <==> Queued(s, k)
  {
    forall k
      ensures Sound(Updated(s, key, deadline), k)
    {
      assert Sound(s, k);
    }
  }

  lemma UpdateRefines(s: State, key: Key, deadline: Instant)
    requires Consistent(s)
    ensures var q, s' := Effective(s), Updated(s, key, deadline);
            Consistent(s') && Effective(s') == if key in q then q[key := Max(deadline, q[key])] else q
  {
    UpdatedKeys(s, key, deadline);
    QueuedIsEffective(s);
    var s' := Updated(s, key, deadline);
    if key in s.updates && Queued(s, key) {
      EffectiveWith(s, s', key, s'.updates[key]);
    }
  }

  /** Every call, and every poll, does on the lazy queue what it does on the eager one. */
  lemma StepRefines(s: State, e: Event, s': State)
    requires Consistent(s) && Step(s, e, s')
    requires e.Insert? ==> !Queued(s, e.key)
    ensures Consistent(s') && EagerStep(Effective(s), e, Effective(s'))
  {
    match e
    case Insert(deadline, key) => InsertRefines(s, deadline);
    case Remove(key, removed) => RemoveRefines(s, key, s');
    case Clear =>
    case Update(key, deadline, updated) => UpdateRefines(s, key, deadline);
    case Poll(now, path, polled) => PollRefines(s, now, path, polled, s');
  }

  // ---------------------------------------------------------------------------
  // Whole runs
  // ---------------------------------------------------------------------------

  /** A run from the empty queue. */
  ghost predicate Run(states: seq<State>, events: seq<Event>) {
    && |states| == |events| + 1
    && states[0] == EMPTY
    && forall i :: 0 <= i < |events| ==> StepAt(states, events, i)
  }

  ghost predicate StepAt(states: seq<State>, events: seq<Event>, i: nat)
    requires |states| == |events| + 1 && i < |events|
  {
    Step(states[i], events[i], states[i + 1])
  }

  /** No insertion hands out a key that is still queued. */
  ghost predicate Fresh(states: seq<State>, events: seq<Event>)
    requires |states| == |events| + 1
  {
    forall i :: 0 <= i < |events| && events[i].Insert? ==> !Queued(states[i], events[i].key)
  }

  lemma EmptyConsistent()
    ensures Consistent(EMPTY)
  {
    assert forall k :: Sound(EMPTY, k);
  }

  /** As long as no queued key is handed out again, the queue is consistent. */
  lemma {:induction false} RunIsConsistent(states: seq<State>, events: seq<Event>, n: nat)
    requires Run(states, events) && Fresh(states, events) && n <= |events|
    ensures Consistent(states[n])
  {
    if n == 0 {
      EmptyConsistent();
    } else {
      RunIsConsistent(states, events, n - 1);
      assert StepAt(states, events, n - 1);
      StepRefines(states[n - 1], events[n - 1], states[n]);
    }
  }

  /** Over any sequence of calls and polls in which no queued key is handed out again, the lazy queue behaves as the
      eager one: a poll returns a due key with the least effective deadline, waits only while none is due, and never
      waits past the earliest one. */
  lemma RunRefines(states: seq<State>, events: seq<Event>, n: nat)
    requires Run(states, events) && Fresh(states, events) && n < |events|
    ensures Consistent(states[n]) && Consistent(states[n + 1])
    ensures EagerStep(Effective(states[n]), events[n], Effective(states[n + 1]))
  {
    RunIsConsistent(states, events, n);
    assert StepAt(states, events, n);
    StepRefines(states[n], events[n], states[n + 1]);
  }

  /** An insertion keeps the queue consistent exactly when the counter's key is not queued. */
  lemma InsertIsSafeIffFresh(s: State, deadline: Instant)
    requires Consistent(s)
    ensures Consistent(Inserted(s, deadline)) <==> !Queued(s, s.counter)
  {
    var t, v := Inserted(s, deadline), Work(s.counter, deadline);
    if Queued(s, s.counter) {
      var w :| w in s.heap && w.key == s.counter;
      assert w in t.heap && v in t.heap;
      assert w == v ==> t.heap[v] >= 2;
      assert !Sound(t, s.counter);
    } else {
      InsertRefines(s, deadline);
    }
  }

  /** A run keeps the queue consistent throughout exactly when it hands out no queued key. */
  lemma ConsistentIffFresh(states: seq<State>, events: seq<Event>)
    requires Run(states, events)
    ensures (forall n: nat :: n <= |events| ==> Consistent(states[n])) <==> Fresh(states, events)
  {
    if Fresh(states, events) {
      forall n: nat | n <= |events|
        ensures Consistent(states[n])
      {
        RunIsConsistent(states, events, n);
      }
    }
    if forall n: nat :: n <= |events| ==> Consistent(states[n]) {
      forall i | 0 <= i < |events| && events[i].Insert?
        ensures !Queued(states[i], events[i].key)
      {
        assert StepAt(states, events, i);
        assert Consistent(states[i + 1]);
        InsertIsSafeIffFresh(states[i], events[i].deadline);
      }
    }
  }

  // ---------------------------------------------------------------------------
  // Keys over a run: which are known, and which may still be queued
  // ---------------------------------------------------------------------------

  ghost predicate FewerQueued(s: State, s': State) {
    forall k: Key :: Queued(s', k) ==> Queued(s, k)
  }

  ghost predicate SameTable(s: State, s': State) {
    s'.counter == s.counter && s'.updates.Keys == s.updates.Keys && FewerQueued(s, s')
  }

  lemma FewerItems(s: State, s': State)
    requires forall w :: w in s'.heap ==> w in s.heap
    ensures FewerQueued(s, s')
  {
  }

  lemma DeferralTable(s: State, now: Instant, s': State)
    requires Deferral(s, now, s')
    ensures SameTable(s, s')
  {
    var w :| Least(s.heap, w) && w.deadline <= now && Behind(s, w) && s' == Requeued(s, w);
    assert forall x :: x in s'.heap ==> x == Work(w.key, s.updates[w.key]) || x in s.heap;
  }

  lemma {:induction false} DeferralsTable(path: seq<State>, now: Instant)
    requires Deferrals(path, now)
    ensures SameTable(path[0], path[|path| - 1])
  {
    var n := |path| - 1;
    if n > 0 {
      DeferralsTable(path[..n], now);
      assert Deferral(path[n - 1], now, path[n]);
      DeferralTable(path[n - 1], now, path[n]);
    }
  }

  lemma SettledTable(t: State, now: Instant, polled: Polled, s': State)
    requires Settled(t, now, polled, s')
    ensures SameTable(t, s')
  {
    FewerItems(t, s');
  }

  /** Only an insertion moves the counter, adds an update entry, or adds a queued key. */
  lemma KeepsTable(s: State, e: Event, s': State)
    requires Step(s, e, s') && !e.Insert?
    ensures SameTable(s, s')
  {
    match e
    case Remove(key, removed) => FewerItems(s, s');
    case Clear => FewerItems(s, s');
    case Update(key, deadline, updated) =>
    case Poll(now, path, polled) =>
      DeferralsTable(path, now);
      SettledTable(path[|path| - 1], now, polled, s');
  }

  lemma InsertTable(s: State, deadline: Instant)
    ensures Inserted(s, deadline).updates.Keys == s.updates.Keys + {s.counter}
    ensures forall k: Key :: Queued(Inserted(s, deadline), k) ==> Queued(s, k) || k == s.counter
  {
    assert forall w :: w in Inserted(s, deadline).heap ==> w in s.heap || w == Work(s.counter, deadline);
  }

  /** The key was handed out by one of the first n calls. */
  predicate Given(events: seq<Event>, n: nat, key: Key)
    requires n <= |events|
  {
    exists j :: 0 <= j < n && events[j].Insert? && events[j].key == key
  }

  /** After n calls the update table has an entry for exactly the keys handed out, and only those can be queued. */
  lemma {:induction false} TableOfRun(states: seq<State>, events: seq<Event>, n: nat)
    requires Run(states, events) && n <= |events|
    ensures forall k: Key :: k in states[n].updates <==> Given(events, n, k)
    ensures forall k: Key :: Queued(states[n], k) ==> Given(events, n, k)
  {
    if n > 0 {
      TableOfRun(states, events, n - 1);
      assert StepAt(states, events, n - 1);
      var s, e := states[n - 1], events[n - 1];
      assert forall k: Key :: Given(events, n, k) <==> Given(events, n - 1, k) || (e.Insert? && e.key == k);
      if e.Insert? {
        InsertTable(s, e.deadline);
      } else {
        KeepsTable(s, e, states[n]);
      }
    }
  }

  /** What `update` answers, in every run: whether the key was ever handed out. */
  lemma UpdateAnswers(states: seq<State>, events: seq<Event>, n: nat)
    requires Run(states, events) && n < |events| && events[n].Update?
    ensures events[n].updated <==> Given(events, n, events[n].target)
  {
    TableOfRun(states, events, n);
    assert StepAt(states, events, n);
  }

  /** Its documentation promises whether the item exists: that is right exactly for the keys never handed out and the
      keys still queued. */
  lemma UpdateIsRightIff(states: seq<State>, events: seq<Event>, n: nat)
    requires Run(states, events) && n < |events| && events[n].Update?
    ensures (events[n].updated <==> Queued(states[n], events[n].target)) <==>
            !Given(events, n, events[n].target) || Queued(states[n], events[n].target)
  {
    UpdateAnswers(states, events, n);
    TableOfRun(states, events, n);
  }

  /** So it is wrong here: a key inserted, popped as soon as it is due, and updated to anything. */
  lemma DeadKeyAnswersTrue(deadline: Instant, later: Instant)
    ensures exists states: seq<State> ::
              && Run(states, [Event.Insert(deadline, 0), Poll(deadline, [Inserted(EMPTY, deadline)], Ready(0)),
                              Event.Update(0, later, true)])
              && !Queued(states[2], 0)
  {
    var s1 := Inserted(EMPTY, deadline);
    var s2 := s1.(heap := multiset{});
    var s3 := Updated(s2, 0, later);
    var insert, update := Event.Insert(deadline, 0), Event.Update(0, later, true);
    var poll := Poll(deadline, [s1], Ready(0));
    PopsOnly(deadline);
    assert Step(EMPTY, insert, s1) && Step(s1, poll, s2) && Step(s2, update, s3);
    var states, events := [EMPTY, s1, s2, s3], [insert, poll, update];
    forall i | 0 <= i < 3
      ensures StepAt(states, events, i)
    {
    }
    assert Run(states, events) && !Queued(states[2], 0);
  }

  lemma PopsOnly(deadline: Instant)
    ensures var s := Inserted(EMPTY, deadline);
            Settled(s, deadline, Ready(0), s.(heap := multiset{}))
  {
    var s, w := Inserted(EMPTY, deadline), Work(0, deadline);
    assert s.heap == multiset{w};
    assert Least(s.heap, w) && !Behind(s, w);
    assert s.heap - multiset{w} == multiset{};
  }

  // ---------------------------------------------------------------------------
  // The counter
  // ---------------------------------------------------------------------------

  function Inserts(events: seq<Event>): nat {
    if events == [] then 0 else Inserts(events[..|events| - 1]) + if events[|events| - 1].Insert? then 1 else 0
  }

  lemma {:induction false} InsertsGrow(events: seq<Event>, n: nat)
    requires n <= |events|
    ensures Inserts(events[..n]) <= Inserts(events)
  {
    if n < |events| {
      InsertsGrow(events[..|events| - 1], n);
      assert events[..|events| - 1][..n] == events[..n];
    } else {
      assert events[..n] == events;
    }
  }

  /** After m insertions the counter is m modulo 2^32, and, until it comes round, only the keys below m are queued. */
  ghost predicate Counted(s: State, m: nat) {
    s.counter == m % KEYS && (m <= KEYS ==> forall k: Key :: Queued(s, k) ==> k < m)
  }

  lemma CountedInsert(s: State, deadline: Instant, m: nat)
    requires Counted(s, m)
    ensures Counted(Inserted(s, deadline), m + 1)
  {
    InsertTable(s, deadline);
    assert m < KEYS ==> m % KEYS == m;
  }

  lemma CountedOther(s: State, e: Event, s': State, m: nat)
    requires Counted(s, m) && Step(s, e, s') && !e.Insert?
    ensures Counted(s', m)
  {
    KeepsTable(s, e, s');
  }

  lemma InsertsSnoc(events: seq<Event>, n: nat)
    requires n < |events|
    ensures Inserts(events[..n + 1]) == Inserts(events[..n]) + if events[n].Insert? then 1 else 0
  {
    assert events[..n + 1][..n] == events[..n];
  }

  lemma {:induction false} RunIsCounted(states: seq<State>, events: seq<Event>, n: nat)
    requires Run(states, events) && n <= |events|
    ensures Counted(states[n], Inserts(events[..n]))
  {
    if n == 0 {
      assert forall k :: !Queued(EMPTY, k);
    } else {
      RunIsCounted(states, events, n - 1);
      InsertsSnoc(events, n - 1);
      assert StepAt(states, events, n - 1);
      var m := Inserts(events[..n - 1]);
      if events[n - 1].Insert? {
        CountedInsert(states[n - 1], events[n - 1].deadline, m);
      } else {
        CountedOther(states[n - 1], events[n - 1], states[n], m);
      }
    }
  }

  /** In every run keys are handed out in order, modulo 2^32. */
  lemma KeysInOrder(states: seq<State>, events: seq<Event>, i: nat)
    requires Run(states, events) && i < |events| && events[i].Insert?
    ensures events[i].key == Inserts(events[..i]) % 0x1_0000_0000
  {
    RunIsCounted(states, events, i);
    assert StepAt(states, events, i);
  }

  /** In particular no key is handed out twice in a run of at most 2^32 insertions. */
  lemma FewInsertsAreFresh(states: seq<State>, events: seq<Event>)
    requires Run(states, events) && Inserts(events) <= 0x1_0000_0000
    ensures Fresh(states, events)
  {
    forall i | 0 <= i < |events| && events[i].Insert?
      ensures !Queued(states[i], events[i].key)
    {
      RunIsCounted(states, events, i);
      InsertsSnoc(events, i);
      InsertsGrow(events, i + 1);
      assert StepAt(states, events, i);
    }
  }
}
