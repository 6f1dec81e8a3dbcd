/** Signal timers and the emitter loop that fires them (vyuh/src/emitters.rs). The binary heap is a sequence in no
    particular order with an arbitrary choice among least deadlines; instants are natural numbers. */
module Timers {
  import opened Wrappers

  type Instant = nat
  type TypeId = nat

  const USIZE := 0x1_0000_0000_0000_0000

  /** What a timer repeats on. Of a cron schedule the loop sees how far its next occurrence is from each wall-clock
      reading; where there is none ahead, the code takes it to be due. */
  datatype Kind = Cron(schedule: string, ahead: imap<Instant, nat>) | Interval(dur: nat)

  function Delay(kind: Kind, wall: Instant): nat
    requires kind.Cron?
  {
    if wall in kind.ahead then kind.ahead[wall] else 0
  }

  datatype Timer = Timer(
    typeId: TypeId,
    last: Option<Instant>,
    kind: Kind,
    producer: nat,
    deadline: Instant,
    iterCount: nat,
    lastTime: Option<Instant>)

  /** What stays the same about a timer however often it fires. */
  datatype Id = Id(typeId: TypeId, kind: Kind, producer: nat)

  function IdOf(t: Timer): Id {
    Id(t.typeId, t.kind, t.producer)
  }

  /** The next deadline, from a reading of the wall clock and one of the clock after it. */
  function MakeDeadline(last: Option<Instant>, kind: Kind, wall: Instant, reading: Instant): Instant {
    if kind.Interval? then if last.Some? then last.value + kind.dur else reading
    else if last.Some? then reading + Delay(kind, wall) else reading
  }

  function NewTimer(id: Id, reading: Instant): Timer {
    Timer(id.typeId, None, id.kind, id.producer, MakeDeadline(None, id.kind, reading, reading), 0, None)
  }

  /** A touch only counts when it is newer than what the timer last ran from. */
  predicate Outdates(at: Instant, t: Timer) {
    !(t.last.Some? && t.last.value >= at)
  }

  function Postponed(t: Timer, at: Instant, wall: Instant, reading: Instant): Timer {
    t.(last := Some(at), deadline := MakeDeadline(Some(at), t.kind, wall, reading))
  }

  function Fired(t: Timer, before: Instant, at: Instant, wall: Instant, reading: Instant): Timer {
    t.(iterCount := (t.iterCount + 1) % USIZE, lastTime := Some(before), last := Some(at),
       deadline := MakeDeadline(Some(at), t.kind, wall, reading))
  }

  datatype Queue = Queue(heap: seq<Timer>, touched: map<TypeId, Instant>)

  ghost predicate LeastAt(heap: seq<Timer>, i: nat) {
    i < |heap| && forall j :: 0 <= j < |heap| ==> heap[i].deadline <= heap[j].deadline
  }

  function Without<T>(s: seq<T>, i: nat): seq<T>
    requires i < |s|
  {
    s[..i] + s[i + 1..]
  }

  /** The due timer at i was touched since it last ran: it is pushed back with a later deadline. */
  predicate MustDefer(q: Queue, t: Timer) {
    t.typeId in q.touched && Outdates(q.touched[t.typeId], t)
  }

  /** The timer was due, and its new deadline was made between lo and hi. */
  ghost predicate IsPostponed(t: Timer, at: Instant, lo: Instant, hi: Instant, t': Timer) {
    exists wall: Instant, reading: Instant ::
      lo <= wall <= reading <= hi && t.deadline <= wall && t' == Postponed(t, at, wall, reading)
  }

  /** The timer ran at `at`, with the clock readings around that between now and end. */
  ghost predicate IsFired(t: Timer, now: Instant, at: Instant, end: Instant, t': Timer) {
    exists before: Instant, wall: Instant, reading: Instant ::
      now <= before <= at <= wall <= reading <= end && t' == Fired(t, before, at, wall, reading)
  }

  ghost predicate Deferral(q: Queue, lo: Instant, hi: Instant, i: nat, t': Timer, q': Queue) {
    && LeastAt(q.heap, i) && MustDefer(q, q.heap[i])
    && IsPostponed(q.heap[i], q.touched[q.heap[i].typeId], lo, hi, t')
    && q' == Queue(Without(q.heap, i) + [t'], q.touched - {q.heap[i].typeId})
  }

  /** The due timer at i runs: it was checked at `now`, ran at `at`, and had its next deadline by `end`. */
  ghost predicate Pop(q: Queue, now: Instant, at: Instant, end: Instant, i: nat, t': Timer, q': Queue) {
    && LeastAt(q.heap, i) && q.heap[i].deadline <= now && !MustDefer(q, q.heap[i])
    && IsFired(q.heap[i], now, at, end, t')
    && q' == Queue(Without(q.heap, i), q.touched - {q.heap[i].typeId})
  }

  // ---------------------------------------------------------------------------
  // The timer queue
  // ---------------------------------------------------------------------------

  /** The heap's `peek`: the position of some timer of least deadline. */
  method Peek(heap: seq<Timer>) returns (i: nat)
    requires heap != []
    ensures LeastAt(heap, i)
  {
    i := 0;
    for k := 1 to |heap|
      invariant i < k && forall j :: 0 <= j < k ==> heap[i].deadline <= heap[j].deadline
    {
      if heap[k].deadline < heap[i].deadline {
        i := k;
      }
    }
  }

  /** How one poll of `pop` ends. */
  datatype Polled = Popped(timer: Timer) | Sleep(wait: nat) | Idle

  class TimerQueue {
    var heap: seq<Timer>
    var touched: map<TypeId, Instant>
    var permit: bool

    ghost function View(): Queue
      reads this
    {
      Queue(heap, touched)
    }

    constructor ()
      ensures View() == Queue([], map[])
    {
      heap, touched, permit := [], map[], false;
    }

    method Push(t: Timer)
      modifies this`heap, this`permit
      ensures View() == old(Queue(heap + [t], touched)) && permit
    {
      heap := heap + [t];
      permit := true;
    }

    method Touch(typeId: TypeId, now: Instant)
      modifies this`touched
      ensures View() == old(Queue(heap, touched[typeId := now]))
    {
      touched := touched[typeId := now];
    }

    /** The turn of a due timer: it is put back if it was touched, and runs otherwise. */
    method PopDue(i: nat, now: Instant) returns (popped: Option<Timer>, at: Instant, end: Instant)
      requires LeastAt(heap, i) && heap[i].deadline <= now
      modifies this`heap, this`touched
      ensures now <= at <= end
      ensures popped.None? ==> DeferralStep(old(View()), now, end, View()) && |touched| < |old(touched)|
      ensures popped.Some? ==> Ended(old(View()), now, at, end, Popped(popped.value), View())
    {
      ghost var q := Queue(heap, touched);
      var t := heap[i];
      heap := Without(heap, i);
      var updated := if t.typeId in touched then Some(touched[t.typeId]) else None;
      touched := touched - {t.typeId};
      if updated.Some? && Outdates(updated.value, t) {
        var wall: Instant :| now <= wall;
        at, end :| now <= at && wall <= end && at <= end;
        heap := heap + [Postponed(t, updated.value, wall, end)];
        DeferTurn(q, now, i, wall, end);
        return None, at, end;
      }
      var before: Instant :| now <= before;
      at :| before <= at;
      var wall: Instant :| at <= wall;
      end :| wall <= end;
      PopTurn(q, now, before, at, i, wall, end);
      return Some(Fired(t, before, at, wall, end)), at, end;
    }

    /** Runs `pop` until it returns or waits; every deferral uses up a touch. The clock never goes back. */
    method PollPop(start: Instant)
      returns (polled: Polled, now: Instant, at: Instant, end: Instant, ghost path: seq<Queue>)
      modifies this`heap, this`touched
      ensures start <= now <= at <= end
      ensures Deferrals(path, start, now) && path[0] == old(View())
      ensures |path| - 1 + |path[|path| - 1].touched| <= |old(touched)|
      ensures Ended(path[|path| - 1], now, at, end, polled, View())
    {
      path := [Queue(heap, touched)];
      now, at, end := start, start, start;
      while true
        invariant start <= end
        invariant Deferrals(path, start, end) && path[0] == old(View())
        invariant path[|path| - 1] == Queue(heap, touched)
        invariant |path| - 1 + |touched| <= |old(touched)|
        decreases |touched|
      {
        now :| end <= now;
        DeferralsLater(path, start, end, now);
        at, end := now, now;
        if heap == [] {
          polled := Idle;
          return;
        }
        var i := Peek(heap);
        if heap[i].deadline > now {
          polled := Sleep(heap[i].deadline - now);
          SleepEnds(Queue(heap, touched), now, i);
          return;
        }
        var popped;
        popped, at, end := PopDue(i, now);
        if popped.Some? {
          polled := Popped(popped.value);
          return;
        }
        DeferralsLater(path, start, now, end);
        ExtendPath(path, start, now, end, Queue(heap, touched));
        path := path + [Queue(heap, touched)];
      }
    }
  }

  /** The queues a poll goes through while it defers timers. */
  ghost predicate Deferrals(path: seq<Queue>, lo: Instant, hi: Instant) {
    path != [] && forall k :: 0 <= k < |path| - 1 ==> DeferralLink(path, lo, hi, k)
  }

  ghost predicate DeferralLink(path: seq<Queue>, lo: Instant, hi: Instant, k: nat)
    requires k < |path| - 1
  {
    DeferralStep(path[k], lo, hi, path[k + 1])
  }

  ghost predicate DeferralStep(q: Queue, lo: Instant, hi: Instant, q': Queue) {
    exists i: nat, t' :: Deferral(q, lo, hi, i, t', q')
  }

  ghost predicate Ended(q: Queue, now: Instant, at: Instant, end: Instant, polled: Polled, q': Queue) {
    match polled
    case Idle => q.heap == [] && q' == q
    case Sleep(wait) => q' == q && exists i: nat :: LeastAt(q.heap, i) && q.heap[i].deadline == now + wait && 0 < wait
    case Popped(t') => exists i: nat :: Pop(q, now, at, end, i, t', q')
  }

  lemma StepLater(q: Queue, lo: Instant, hi: Instant, q': Queue, later: Instant)
    requires DeferralStep(q, lo, hi, q') && hi <= later
    ensures DeferralStep(q, lo, later, q')
  {
    var i: nat, t' :| Deferral(q, lo, hi, i, t', q');
    assert IsPostponed(q.heap[i], q.touched[q.heap[i].typeId], lo, later, t');
    assert Deferral(q, lo, later, i, t', q');
  }

  lemma DeferralsLater(path: seq<Queue>, lo: Instant, hi: Instant, later: Instant)
    requires Deferrals(path, lo, hi) && hi <= later
    ensures Deferrals(path, lo, later)
  {
    forall k | 0 <= k < |path| - 1
      ensures DeferralLink(path, lo, later, k)
    {
      assert DeferralLink(path, lo, hi, k);
      StepLater(path[k], lo, hi, path[k + 1], later);
    }
  }

  lemma DeferTurn(q: Queue, now: Instant, i: nat, wall: Instant, reading: Instant)
    requires LeastAt(q.heap, i) && q.heap[i].deadline <= now <= wall <= reading && MustDefer(q, q.heap[i])
    ensures var t := q.heap[i];
            var q' := Queue(Without(q.heap, i) + [Postponed(t, q.touched[t.typeId], wall, reading)],
                            q.touched - {t.typeId});
            DeferralStep(q, now, reading, q') && |q'.touched| < |q.touched|
  {
    var t := q.heap[i];
    var t' := Postponed(t, q.touched[t.typeId], wall, reading);
    var q' := Queue(Without(q.heap, i) + [t'], q.touched - {t.typeId});
    assert IsPostponed(t, q.touched[t.typeId], now, reading, t');
    assert Deferral(q, now, reading, i, t', q');
    assert q'.touched.Keys == q.touched.Keys - {t.typeId};
  }

  lemma ExtendPath(path: seq<Queue>, lo: Instant, now: Instant, hi: Instant, q': Queue)
    requires Deferrals(path, lo, hi) && lo <= now && DeferralStep(path[|path| - 1], now, hi, q')
    ensures Deferrals(path + [q'], lo, hi)
  {
    var longer, q := path + [q'], path[|path| - 1];
    var i: nat, t' :| Deferral(q, now, hi, i, t', q');
    assert IsPostponed(q.heap[i], q.touched[q.heap[i].typeId], lo, hi, t');
    assert Deferral(q, lo, hi, i, t', q');
    forall k | 0 <= k < |longer| - 1
      ensures DeferralLink(longer, lo, hi, k)
    {
      if k < |path| - 1 {
        assert DeferralLink(path, lo, hi, k);
      }
    }
  }

  lemma PopTurn(q: Queue, now: Instant, before: Instant, at: Instant, i: nat, wall: Instant, end: Instant)
    requires LeastAt(q.heap, i) && q.heap[i].deadline <= now <= before <= at <= wall <= end
    requires !MustDefer(q, q.heap[i])
    ensures Ended(q, now, at, end, Popped(Fired(q.heap[i], before, at, wall, end)),
                  Queue(Without(q.heap, i), q.touched - {q.heap[i].typeId}))
  {
    var t' := Fired(q.heap[i], before, at, wall, end);
    assert IsFired(q.heap[i], now, at, end, t');
    assert Pop(q, now, at, end, i, t', Queue(Without(q.heap, i), q.touched - {q.heap[i].typeId}));
  }

  lemma SleepEnds(q: Queue, now: Instant, i: nat)
    requires LeastAt(q.heap, i) && now < q.heap[i].deadline
    ensures Ended(q, now, now, now, Sleep(q.heap[i].deadline - now), q)
  {
  }
}
