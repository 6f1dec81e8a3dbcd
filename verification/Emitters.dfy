/** The emitter loop (vyuh/src/emitters.rs): which timers it holds, how many handlers it runs, and how soon a timer
    may fire again. */
module Emitters {
  import opened Wrappers
  import opened Timers

  /** The loop between two awaits; `lent` permits are held by task schedules outside the loop. */
  datatype Loop = Loop(queue: Queue, permits: nat, running: nat, lent: nat)

  datatype Event =
    | Touch(typeId: TypeId, at: Instant)
    | Defer
    | Fire(id: Id, now: Instant, at: Instant)
    | Wait
    | Spawn
    | Finish
    | Lend
    | Return

  /** A handler starts if a permit is free, and is skipped otherwise. */
  ghost predicate Spawning(s: Loop, s': Loop) {
    && s'.lent == s.lent
    && if s.permits > 0 then s'.permits == s.permits - 1 && s'.running == s.running + 1
       else s'.permits == s.permits && s'.running == s.running
  }

  /** The timer branch: a popped timer is handed to its handler and pushed back, whether or not the handler ran. */
  ghost predicate Firing(q: Queue, id: Id, now: Instant, at: Instant, end: Instant, q': Queue) {
    exists i: nat, t', q1 ::
      Pop(q, now, at, end, i, t', q1) && IdOf(t') == id && q' == Queue(q1.heap + [t'], q1.touched)
  }

  /** One step of the loop, of a handler, or of a future being polled, between the clock readings lo and hi. A poll
      that waits, or that another branch cancels while it waits, is a Wait. */
  ghost predicate Step(s: Loop, e: Event, lo: Instant, hi: Instant, s': Loop) {
    match e
    case Touch(typeId, at) =>
      lo <= at <= hi && s' == s.(queue := Queue(s.queue.heap, s.queue.touched[typeId := at]))
    case Defer => DeferralStep(s.queue, lo, hi, s'.queue) && s' == s.(queue := s'.queue)
    case Fire(id, now, at) => lo <= now <= at <= hi && Firing(s.queue, id, now, at, hi, s'.queue) && Spawning(s, s')
    case Wait => s' == s
    case Spawn => s'.queue == s.queue && Spawning(s, s')
    case Finish => s.running > 0 && s' == s.(running := s.running - 1, permits := s.permits + 1)
    case Lend => s.permits > 0 && s' == s.(permits := s.permits - 1, lent := s.lent + 1)
    case Return => s.lent > 0 && s' == s.(permits := s.permits + 1, lent := s.lent - 1)
  }

  function Ids(heap: seq<Timer>): (r: seq<Id>)
    ensures |r| == |heap| && forall i :: 0 <= i < |r| ==> r[i] == IdOf(heap[i])
  {
    seq(|heap|, i requires 0 <= i < |heap| => IdOf(heap[i]))
  }

  /** The heap holds exactly the registered timers, each as often as it was registered. */
  ghost predicate Holds(heap: seq<Timer>, registered: seq<Id>) {
    multiset(Ids(heap)) == multiset(registered)
  }

  /** The queue as the setup leaves it: every registered timer is new, and was due when it was made. */
  ghost predicate SetUp(q: Queue, ids: seq<Id>, now: Instant) {
    && q.touched == map[] && |q.heap| == |ids|
    && forall i :: 0 <= i < |ids| ==> q.heap[i] == NewTimer(ids[i], q.heap[i].deadline) && q.heap[i].deadline <= now
  }

  function Least(x: nat, y: nat): nat {
    if x < y then x else y
  }

  /** How many listeners pass a notification on, rather than hold it back. */
  function Emitting(emits: seq<bool>): nat {
    if emits == [] then 0 else Emitting(emits[..|emits| - 1]) + if emits[|emits| - 1] then 1 else 0
  }

  // ---------------------------------------------------------------------------
  // The loop object
  // ---------------------------------------------------------------------------

  class EmitterLoop {
    const registered: seq<Id>
    const limit: nat
    const timers: TimerQueue
    var permits: nat
    var running: nat
    var lent: nat

    ghost function View(): Loop
      reads this, timers
    {
      Loop(timers.View(), permits, running, lent)
    }

    ghost predicate Valid()
      reads this, timers
    {
      Holds(timers.heap, registered) && permits + running + lent == limit
    }

    /** The setup before the loop: every signal timer is pushed once, new and due at the clock reading it took. */
    constructor (ids: seq<Id>, maxInFlight: nat, readings: seq<Instant>, now: Instant)
      requires |readings| == |ids| && forall i :: 0 <= i < |ids| ==> readings[i] <= now
      ensures Valid() && registered == ids && limit == (if maxInFlight == 0 then 1 else maxInFlight)
      ensures running == 0 && lent == 0 && SetUp(View().queue, ids, now) && fresh(timers)
      ensures forall i :: 0 <= i < |ids| ==>
                timers.heap[i] == Timer(ids[i].typeId, None, ids[i].kind, ids[i].producer, readings[i], 0, None)
    {
      registered := ids;
      limit := if maxInFlight == 0 then 1 else maxInFlight;
      permits, running, lent := if maxInFlight == 0 then 1 else maxInFlight, 0, 0;
      timers := new TimerQueue();
      new;
      for k := 0 to |ids|
        invariant permits == limit && running == 0 && lent == 0 && timers.touched == map[]
        invariant |timers.heap| == k && forall i :: 0 <= i < k ==> timers.heap[i] == NewTimer(ids[i], readings[i])
        invariant fresh(timers)
      {
        timers.Push(NewTimer(ids[k], readings[k]));
      }
      assert Ids(timers.heap) == ids;
    }

    method SpawnHandlerCall() returns (started: bool)
      requires Valid()
      modifies this`permits, this`running
      ensures Valid() && Spawning(old(View()), View()) && View().queue == old(View()).queue
      ensures started <==> old(permits) > 0
    {
      started := permits > 0;
      if started {
        permits, running := permits - 1, running + 1;
      }
    }

    /** The timer branch, up to the first wait: deferrals along the path, then a firing or nothing. */
    method TimerBranch(start: Instant)
      returns (polled: Polled, now: Instant, at: Instant, end: Instant, ghost path: seq<Queue>)
      requires Valid()
      modifies this`permits, this`running, timers
      ensures Valid() && start <= now <= at <= end
      ensures Deferrals(path, start, now) && path[0] == old(View()).queue
      ensures var s := old(View()).(queue := path[|path| - 1]);
              if polled.Popped? then Step(s, Fire(IdOf(polled.timer), now, at), now, end, View())
              else Step(s, Wait, now, end, View())
    {
      polled, now, at, end, path := timers.PollPop(start);
      DeferralsHold(path, start, now, registered);
      if polled.Popped? {
        var t := polled.timer;
        ghost var q1 := timers.View();
        PopHolds(path[|path| - 1], now, at, end, t, q1, registered);
        timers.Push(t);
        var started := SpawnHandlerCall();
      }
    }

    /** The notification branch: each listener's type is touched, and its handler called unless debounced. */
    method NotifyBranch(typeIds: seq<TypeId>, emits: seq<bool>, now: Instant)
      requires Valid() && |emits| == |typeIds|
      modifies this`permits, this`running, timers
      ensures Valid() && timers.heap == old(timers.heap)
      ensures running == old(running) + Least(Emitting(emits), old(permits))
      ensures permits == old(permits) - Least(Emitting(emits), old(permits))
      ensures forall ty :: ty in timers.touched <==> ty in old(timers.touched) || ty in typeIds
      ensures forall ty :: ty in timers.touched ==>
                timers.touched[ty] == if ty in typeIds then now else old(timers.touched)[ty]
    {
      for k := 0 to |typeIds|
        invariant Valid() && timers.heap == old(timers.heap)
        invariant running == old(running) + Least(Emitting(emits[..k]), old(permits))
        invariant permits == old(permits) - Least(Emitting(emits[..k]), old(permits))
        invariant forall ty :: ty in timers.touched <==> ty in old(timers.touched) || ty in typeIds[..k]
        invariant forall ty :: ty in timers.touched ==>
                    timers.touched[ty] == if ty in typeIds[..k] then now else old(timers.touched)[ty]
      {
        timers.Touch(typeIds[k], now);
        if emits[k] {
          var started := SpawnHandlerCall();
        }
        assert emits[..k + 1][..k] == emits[..k];
      }
      assert emits[..|emits|] == emits;
    }

    /** A handler ends and gives its permit back before its result is reported. */
    method HandlerDone()
      requires Valid() && running > 0
      modifies this`permits, this`running
      ensures Valid() && Step(old(View()), Finish, 0, 0, View())
    {
      running, permits := running - 1, permits + 1;
    }
  }

  // ---------------------------------------------------------------------------
  // No timer is lost or duplicated, no handler is over the limit
  // ---------------------------------------------------------------------------

  lemma WithoutOne<T>(s: seq<T>, i: nat)
    requires i < |s|
    ensures multiset(Without(s, i)) + multiset{s[i]} == multiset(s)
  {
    assert s == s[..i] + [s[i]] + s[i + 1..];
  }

  lemma IdsWithout(heap: seq<Timer>, i: nat)
    requires i < |heap|
    ensures Ids(Without(heap, i)) == Without(Ids(heap), i)
  {
  }

  /** Taking one timer out and putting it back, changed or not, keeps the heap's timers. */
  lemma ReplacedHolds(heap: seq<Timer>, i: nat, t': Timer, registered: seq<Id>)
    requires i < |heap| && IdOf(t') == IdOf(heap[i])
    requires Holds(heap, registered)
    ensures Holds(Without(heap, i) + [t'], registered)
  {
    var rest := Without(heap, i);
    IdsWithout(heap, i);
    WithoutOne(Ids(heap), i);
    assert Ids(rest + [t']) == Ids(rest) + [IdOf(t')];
  }

  lemma PostponedId(t: Timer, at: Instant, t': Timer)
    requires (exists lo: Instant, hi: Instant :: IsPostponed(t, at, lo, hi, t'))
             || (exists now: Instant, end: Instant :: IsFired(t, now, at, end, t'))
    ensures IdOf(t') == IdOf(t) && t'.last == Some(at)
    ensures t.kind.Interval? ==> t'.deadline == at + t.kind.dur
  {
  }

  lemma {:induction false} DeferralsHold(path: seq<Queue>, lo: Instant, hi: Instant, registered: seq<Id>)
    requires Deferrals(path, lo, hi) && Holds(path[0].heap, registered)
    ensures Holds(path[|path| - 1].heap, registered)
  {
    var n := |path| - 1;
    if n > 0 {
      assert forall k :: 0 <= k < n - 1 ==> DeferralLink(path, lo, hi, k) && DeferralLink(path[..n], lo, hi, k);
      DeferralsHold(path[..n], lo, hi, registered);
      assert DeferralLink(path, lo, hi, n - 1);
      DeferralHolds(path[n - 1], lo, hi, path[n], registered);
    }
  }

  lemma DeferralHolds(q: Queue, lo: Instant, hi: Instant, q': Queue, registered: seq<Id>)
    requires DeferralStep(q, lo, hi, q') && Holds(q.heap, registered)
    ensures Holds(q'.heap, registered)
  {
    var i: nat, t' :| Deferral(q, lo, hi, i, t', q');
    PostponedId(q.heap[i], q.touched[q.heap[i].typeId], t');
    ReplacedHolds(q.heap, i, t', registered);
  }

  lemma PopHolds(q: Queue, now: Instant, at: Instant, end: Instant, t': Timer, q1: Queue, registered: seq<Id>)
    requires Ended(q, now, at, end, Popped(t'), q1) && Holds(q.heap, registered)
    ensures Holds(q1.heap + [t'], registered)
    ensures Firing(q, IdOf(t'), now, at, end, Queue(q1.heap + [t'], q1.touched))
  {
    var i: nat :| Pop(q, now, at, end, i, t', q1);
    PostponedId(q.heap[i], at, t');
    ReplacedHolds(q.heap, i, t', registered);
  }

  ghost predicate LoopInvariant(s: Loop, registered: seq<Id>, limit: nat) {
    Holds(s.queue.heap, registered) && s.permits + s.running + s.lent == limit
  }

  lemma StepKeepsInvariant(s: Loop, e: Event, lo: Instant, hi: Instant, s': Loop, registered: seq<Id>, limit: nat)
    requires LoopInvariant(s, registered, limit) && Step(s, e, lo, hi, s')
    ensures LoopInvariant(s', registered, limit)
  {
    if e.Defer? {
      DeferralHolds(s.queue, lo, hi, s'.queue, registered);
    } else if e.Fire? {
      var i: nat, t', q1 :| Pop(s.queue, e.now, e.at, hi, i, t', q1) && IdOf(t') == e.id
                            && s'.queue == Queue(q1.heap + [t'], q1.touched);
      PopHolds(s.queue, e.now, e.at, hi, t', q1, registered);
    }
  }

  /** A run of the loop on a clock that never goes back. */
  ghost predicate Run(states: seq<Loop>, events: seq<Event>, clock: seq<Instant>) {
    && |states| == |clock| == |events| + 1
    && (forall i :: 0 <= i < |events| ==> clock[i] <= clock[i + 1])
    && (forall i :: 0 <= i < |events| ==> StepAt(states, events, clock, i))
  }

  ghost predicate StepAt(states: seq<Loop>, events: seq<Event>, clock: seq<Instant>, i: nat)
    requires |states| == |clock| == |events| + 1 && i < |events|
  {
    Step(states[i], events[i], clock[i], clock[i + 1], states[i + 1])
  }

  /** At every point of every run the heap holds exactly the registered timers and the running handlers are within
      the limit. */
  lemma {:induction false} RunKeepsTimers(states: seq<Loop>, events: seq<Event>, clock: seq<Instant>, n: nat,
                                          registered: seq<Id>, limit: nat)
    requires Run(states, events, clock) && n <= |events|
    requires LoopInvariant(states[0], registered, limit)
    ensures Holds(states[n].queue.heap, registered)
    ensures states[n].running <= limit
    ensures LoopInvariant(states[n], registered, limit)
  {
    if n > 0 {
      RunKeepsTimers(states, events, clock, n - 1, registered, limit);
      assert StepAt(states, events, clock, n - 1);
      StepKeepsInvariant(states[n - 1], events[n - 1], clock[n - 1], clock[n], states[n], registered, limit);
    }
  }

  // ---------------------------------------------------------------------------
  // A timer never fires too soon
  // ---------------------------------------------------------------------------

  /** A type id that no two timers share. */
  ghost predicate Sole(heap: seq<Timer>, ty: TypeId) {
    forall i, j :: 0 <= i < |heap| && 0 <= j < |heap| && heap[i].typeId == ty && heap[j].typeId == ty ==> i == j
  }

  /** An interval timer that has run, or was touched, is due one interval later. */
  ghost predicate Paced(t: Timer) {
    t.kind.Interval? && t.last.Some? ==> t.deadline == t.last.value + t.kind.dur
  }

  /** The queue remembers, in a touch or in the timer itself, something that happened to the type at time `since`. */
  ghost predicate Remembers(q: Queue, t: Timer, since: Instant) {
    || (t.typeId in q.touched && q.touched[t.typeId] >= since)
    || (t.last.Some? && t.last.value >= since)
  }

  ghost predicate Pacing(q: Queue, ty: TypeId) {
    Sole(q.heap, ty) && forall i :: 0 <= i < |q.heap| && q.heap[i].typeId == ty ==> Paced(q.heap[i])
  }

  ghost predicate Recalls(q: Queue, ty: TypeId, since: Instant) {
    forall i :: 0 <= i < |q.heap| && q.heap[i].typeId == ty ==> Remembers(q, q.heap[i], since)
  }

  /** Replacing a timer of the type by another of the same type. */
  lemma ReplacedPacing(q: Queue, i: nat, t': Timer, q': Queue, ty: TypeId)
    requires Pacing(q, ty) && i < |q.heap| && t'.typeId == q.heap[i].typeId && Paced(t')
    requires q'.heap == Without(q.heap, i) + [t']
    ensures Pacing(q', ty)
  {
    assert forall j :: 0 <= j < |q'.heap| - 1 ==> q'.heap[j] == q.heap[if j < i then j else j + 1];
  }

  lemma ReplacedRecalls(q: Queue, i: nat, t': Timer, q': Queue, ty: TypeId, since: Instant)
    requires Sole(q.heap, ty) && Recalls(q, ty, since) && i < |q.heap| && t'.typeId == q.heap[i].typeId
    requires q' == Queue(Without(q.heap, i) + [t'], q.touched - {t'.typeId})
    requires t'.typeId == ty ==> Remembers(q', t', since)
    ensures Recalls(q', ty, since)
  {
    forall j | 0 <= j < |q'.heap| && q'.heap[j].typeId == ty
      ensures Remembers(q', q'.heap[j], since)
    {
      if j < |q'.heap| - 1 {
        var k := if j < i then j else j + 1;
        assert q'.heap[j] == q.heap[k] && k != i;
        assert Remembers(q, q.heap[k], since);
      }
    }
  }

  lemma DeferralPaces(q: Queue, lo: Instant, hi: Instant, q': Queue, ty: TypeId)
    requires DeferralStep(q, lo, hi, q') && Pacing(q, ty)
    ensures Pacing(q', ty)
    ensures forall since: Instant :: Recalls(q, ty, since) ==> Recalls(q', ty, since)
  {
    var i: nat, t' :| Deferral(q, lo, hi, i, t', q');
    PostponedId(q.heap[i], q.touched[q.heap[i].typeId], t');
    ReplacedPacing(q, i, t', q', ty);
    forall since: Instant | Recalls(q, ty, since)
      ensures Recalls(q', ty, since)
    {
      assert q.heap[i].typeId == ty ==> Remembers(q, q.heap[i], since);
      ReplacedRecalls(q, i, t', q', ty, since);
    }
  }

  lemma FiringPaces(q: Queue, id: Id, now: Instant, at: Instant, end: Instant, q': Queue, ty: TypeId)
    requires Firing(q, id, now, at, end, q') && Pacing(q, ty)
    ensures Pacing(q', ty)
    ensures forall since: Instant :: since <= at && Recalls(q, ty, since) ==> Recalls(q', ty, since)
    ensures id.typeId == ty ==> Recalls(q', ty, at)
    ensures id.typeId == ty && id.kind.Interval? ==>
              forall since: Instant :: Recalls(q, ty, since) ==> since + id.kind.dur <= now
  {
    var i: nat, t', q1 :| Pop(q, now, at, end, i, t', q1) && IdOf(t') == id && q' == Queue(q1.heap + [t'], q1.touched);
    PostponedId(q.heap[i], at, t');
    ReplacedPacing(q, i, t', q', ty);
    forall since: Instant | Recalls(q, ty, since)
      ensures since <= at ==> Recalls(q', ty, since)
      ensures id.typeId == ty && id.kind.Interval? ==> since + id.kind.dur <= now
    {
      assert q.heap[i].typeId == ty ==> Remembers(q, q.heap[i], since) && Paced(q.heap[i]);
      if since <= at {
        ReplacedRecalls(q, i, t', q', ty, since);
      }
    }
    if id.typeId == ty {
      forall j | 0 <= j < |q'.heap| && q'.heap[j].typeId == ty
        ensures Remembers(q', q'.heap[j], at)
      {
        assert q'.heap[|q'.heap| - 1] == t';
        assert Sole(q'.heap, ty);
      }
    }
  }

  /** One step, taken after `since`, forgets nothing; a touch or a firing is remembered from then on. */
  lemma StepPaces(s: Loop, e: Event, lo: Instant, hi: Instant, s': Loop, ty: TypeId)
    requires Step(s, e, lo, hi, s') && Pacing(s.queue, ty)
    ensures Pacing(s'.queue, ty)
    ensures forall since: Instant :: since <= lo && Recalls(s.queue, ty, since) ==> Recalls(s'.queue, ty, since)
    ensures e.Touch? && e.typeId == ty ==> Recalls(s'.queue, ty, e.at)
    ensures e.Fire? && e.id.typeId == ty ==> Recalls(s'.queue, ty, e.at)
  {
    match e
    case Defer => DeferralPaces(s.queue, lo, hi, s'.queue, ty);
    case Fire(id, now, at) => FiringPaces(s.queue, id, now, at, hi, s'.queue, ty);
    case Touch(typeId, at) => TouchPaces(s.queue, typeId, at, ty);
    case _ =>
  }

  lemma TouchPaces(q: Queue, typeId: TypeId, at: Instant, ty: TypeId)
    requires Pacing(q, ty)
    ensures var q' := Queue(q.heap, q.touched[typeId := at]);
            && Pacing(q', ty)
            && (forall since: Instant :: since <= at && Recalls(q, ty, since) ==> Recalls(q', ty, since))
            && (typeId == ty ==> Recalls(q', ty, at))
  {
    var q' := Queue(q.heap, q.touched[typeId := at]);
    forall since: Instant | since <= at && Recalls(q, ty, since)
      ensures Recalls(q', ty, since)
    {
      forall i | 0 <= i < |q'.heap| && q'.heap[i].typeId == ty
        ensures Remembers(q', q'.heap[i], since)
      {
        assert Remembers(q, q.heap[i], since);
      }
    }
  }

  lemma {:induction false} ClockGrows(clock: seq<Instant>, i: nat, j: nat)
    requires i <= j < |clock| && forall k :: 0 <= k < |clock| - 1 ==> clock[k] <= clock[k + 1]
    ensures clock[i] <= clock[j]
  {
    if i < j {
      ClockGrows(clock, i, j - 1);
      assert clock[j - 1] <= clock[j];
    }
  }

  lemma {:induction false} RunPaces(states: seq<Loop>, events: seq<Event>, clock: seq<Instant>, n: nat, ty: TypeId)
    requires Run(states, events, clock) && n <= |events| && Pacing(states[0].queue, ty)
    ensures Pacing(states[n].queue, ty)
  {
    if n > 0 {
      RunPaces(states, events, clock, n - 1, ty);
      assert StepAt(states, events, clock, n - 1);
      StepPaces(states[n - 1], events[n - 1], clock[n - 1], clock[n], states[n], ty);
    }
  }

  /** What happened to a type is still remembered at the next firing, however many steps later. */
  lemma {:induction false} RunRecalls(states: seq<Loop>, events: seq<Event>, clock: seq<Instant>, i: nat, n: nat,
                                      ty: TypeId, since: Instant)
    requires Run(states, events, clock) && i <= n <= |events| && Pacing(states[0].queue, ty)
    requires since <= clock[i] && Recalls(states[i].queue, ty, since)
    ensures Recalls(states[n].queue, ty, since)
  {
    if i < n {
      RunRecalls(states, events, clock, i, n - 1, ty, since);
      RunPaces(states, events, clock, n - 1, ty);
      ClockGrows(clock, i, n - 1);
      assert StepAt(states, events, clock, n - 1);
      StepPaces(states[n - 1], events[n - 1], clock[n - 1], clock[n], states[n], ty);
    }
  }

  /** Over any run, an interval timer that shares its type with no other never fires less than one interval after
      it last fired, nor after any touch of its type. */
  lemma NeverTooSoon(states: seq<Loop>, events: seq<Event>, clock: seq<Instant>, i: nat, j: nat)
    requires Run(states, events, clock) && i < j < |events|
    requires events[j].Fire? && events[j].id.kind.Interval? && Pacing(states[0].queue, events[j].id.typeId)
    requires (events[i].Fire? && events[i].id == events[j].id)
             || (events[i].Touch? && events[i].typeId == events[j].id.typeId)
    ensures events[i].at + events[j].id.kind.dur <= events[j].now
  {
    var ty, since := events[j].id.typeId, events[i].at;
    RunPaces(states, events, clock, i, ty);
    assert StepAt(states, events, clock, i);
    StepPaces(states[i], events[i], clock[i], clock[i + 1], states[i + 1], ty);
    RunRecalls(states, events, clock, i + 1, j, ty, since);
    RunPaces(states, events, clock, j, ty);
    assert StepAt(states, events, clock, j);
    FiringPaces(states[j].queue, events[j].id, events[j].now, events[j].at, clock[j + 1], states[j + 1].queue, ty);
  }

  /** The index i is the only one of its type. */
  predicate TypeOnce(ids: seq<Id>, i: nat)
    requires i < |ids|
  {
    forall j :: 0 <= j < |ids| && j != i ==> ids[j].typeId != ids[i].typeId
  }

  /** At the start nothing has run: registering a type once is enough. */
  lemma StartPaces(ids: seq<Id>, now: Instant, q: Queue, i: nat)
    requires SetUp(q, ids, now) && i < |ids| && TypeOnce(ids, i)
    ensures Pacing(q, ids[i].typeId)
  {
    forall j, k | 0 <= j < |q.heap| && 0 <= k < |q.heap| && q.heap[j].typeId == q.heap[k].typeId == ids[i].typeId
      ensures j == k
    {
      assert q.heap[j] == NewTimer(ids[j], q.heap[j].deadline) && q.heap[k] == NewTimer(ids[k], q.heap[k].deadline);
    }
    forall j | 0 <= j < |q.heap|
      ensures Paced(q.heap[j])
    {
      assert q.heap[j] == NewTimer(ids[j], q.heap[j].deadline);
    }
  }
}
