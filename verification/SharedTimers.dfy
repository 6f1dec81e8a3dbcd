/** When the pacing of interval timers can be relied on (vyuh/src/emitters.rs): a cron and a periodic timer that share a
    type use up each other's touches, and one registration of a type is the exact condition against it. */
module SharedTimers {
  import opened Wrappers
  import opened Timers
  import opened Emitters

  // ---------------------------------------------------------------------------
  // Pacing as a property of registrations
  // ---------------------------------------------------------------------------

  /** The event at j, a firing of the timer, comes one interval after the event at i, if that fired it or touched its
      type. */
  ghost predicate PacedAt(events: seq<Event>, id: Id, i: nat, j: nat)
    requires i < j < |events| && id.kind.Interval?
  {
    events[j].Fire? && events[j].id == id &&
    ((events[i].Fire? && events[i].id == id) || (events[i].Touch? && events[i].typeId == id.typeId)) ==>
      events[i].at + id.kind.dur <= events[j].now
  }

  ghost predicate KeepsPace(events: seq<Event>, id: Id)
    requires id.kind.Interval?
  {
    forall i: nat, j: nat :: i < j < |events| ==> PacedAt(events, id, i, j)
  }

  /** Every run of the loop from a setup of these registrations keeps the pace of the timer. */
  ghost predicate AlwaysPaced(ids: seq<Id>, p: nat)
    requires p < |ids| && ids[p].kind.Interval?
  {
    forall states: seq<Loop>, events: seq<Event>, clock: seq<Instant> ::
      Run(states, events, clock) && SetUp(states[0].queue, ids, clock[0]) ==> KeepsPace(events, ids[p])
  }

  /** The registry keeps one emitter of each kind for a type. */
  predicate KeysDistinct(ids: seq<Id>) {
    forall i, j :: 0 <= i < j < |ids| && ids[i].typeId == ids[j].typeId ==> ids[i].kind.Cron? != ids[j].kind.Cron?
  }

  lemma OncePaces(ids: seq<Id>, p: nat, states: seq<Loop>, events: seq<Event>, clock: seq<Instant>)
    requires p < |ids| && ids[p].kind.Interval? && TypeOnce(ids, p)
    requires Run(states, events, clock) && SetUp(states[0].queue, ids, clock[0])
    ensures KeepsPace(events, ids[p])
  {
    StartPaces(ids, clock[0], states[0].queue, p);
    forall i: nat, j: nat | i < j < |events|
      ensures PacedAt(events, ids[p], i, j)
    {
      if !PacedAt(events, ids[p], i, j) {
        NeverTooSoon(states, events, clock, i, j);
      }
    }
  }

  lemma NoIntervalPaces(id: Id, states: seq<Loop>, events: seq<Event>, clock: seq<Instant>)
    requires id.kind.Interval? && id.kind.dur == 0 && Run(states, events, clock)
    ensures KeepsPace(events, id)
  {
    forall i: nat, j: nat | i < j < |events|
      ensures PacedAt(events, id, i, j)
    {
      assert StepAt(states, events, clock, i) && StepAt(states, events, clock, j);
      ClockGrows(clock, i + 1, j);
    }
  }

  // ---------------------------------------------------------------------------
  // Building a run
  // ---------------------------------------------------------------------------

  datatype Trace = Trace(states: seq<Loop>, events: seq<Event>, clock: seq<Instant>)

  ghost predicate IsRun(t: Trace) {
    Run(t.states, t.events, t.clock)
  }

  function Last(t: Trace): Loop
    requires t.states != []
  {
    t.states[|t.states| - 1]
  }

  function Now(t: Trace): Instant
    requires t.clock != []
  {
    t.clock[|t.clock| - 1]
  }

  function Longer(t: Trace, e: Event, hi: Instant, s: Loop): Trace {
    Trace(t.states + [s], t.events + [e], t.clock + [hi])
  }

  /** The second run goes on from the first. */
  ghost predicate Continues(t: Trace, t': Trace) {
    t.states <= t'.states && t.events <= t'.events && t.clock <= t'.clock
  }

  lemma GoesOn(t: Trace, e: Event, hi: Instant, s: Loop)
    requires IsRun(t) && Now(t) <= hi && Step(Last(t), e, Now(t), hi, s)
    ensures IsRun(Longer(t, e, hi, s)) && Continues(t, Longer(t, e, hi, s))
    ensures Last(Longer(t, e, hi, s)) == s && Now(Longer(t, e, hi, s)) == hi
  {
    var t' := Longer(t, e, hi, s);
    forall i | 0 <= i < |t'.events|
      ensures StepAt(t'.states, t'.events, t'.clock, i) && t'.clock[i] <= t'.clock[i + 1]
    {
      if i < |t.events| {
        assert StepAt(t.states, t.events, t.clock, i);
      }
    }
  }

  /** The queue after the timer at i ran at `at` and was pushed back in the same instant. */
  function AfterFiring(q: Queue, i: nat, at: Instant): Queue
    requires i < |q.heap|
  {
    Queue(Without(q.heap, i) + [FiredAt(q.heap[i], at)], q.touched - {q.heap[i].typeId})
  }

  function FiredAt(t: Timer, at: Instant): (t': Timer)
    ensures t'.deadline >= at && IdOf(t') == IdOf(t)
  {
    Fired(t, at, at, at, at)
  }

  function Spawned(s: Loop, q: Queue): Loop {
    if s.permits > 0 then Loop(q, s.permits - 1, s.running + 1, s.lent) else Loop(q, s.permits, s.running, s.lent)
  }

  lemma MayFire(s: Loop, i: nat, lo: Instant, at: Instant)
    requires LeastAt(s.queue.heap, i) && s.queue.heap[i].deadline <= at && lo <= at
    requires s.queue.heap[i].typeId !in s.queue.touched
    ensures Step(s, Fire(IdOf(s.queue.heap[i]), at, at), lo, at, Spawned(s, AfterFiring(s.queue, i, at)))
  {
    var q, t := s.queue, s.queue.heap[i];
    var t' := FiredAt(t, at);
    var q1 := Queue(Without(q.heap, i), q.touched - {t.typeId});
    assert IsFired(t, at, at, at, t');
    assert Pop(q, at, at, at, i, t', q1);
    assert Firing(q, IdOf(t), at, at, at, AfterFiring(q, i, at));
  }

  /** One more firing, of the timer at i. */
  lemma FireNext(t: Trace, i: nat, at: Instant) returns (t': Trace)
    requires IsRun(t) && Now(t) <= at && Last(t).queue.touched == map[]
    requires LeastAt(Last(t).queue.heap, i) && Last(t).queue.heap[i].deadline <= at
    ensures IsRun(t') && Continues(t, t') && Now(t') == at
    ensures |t'.events| == |t.events| + 1 && t'.events[|t.events|] == Fire(IdOf(Last(t).queue.heap[i]), at, at)
    ensures var heap := Last(t).queue.heap;
            Last(t').queue == Queue(Without(heap, i) + [FiredAt(heap[i], at)], map[])
  {
    var s := Last(t);
    MayFire(s, i, Now(t), at);
    var s' := Spawned(s, AfterFiring(s.queue, i, at));
    GoesOn(t, Fire(IdOf(s.queue.heap[i]), at, at), at, s');
    t' := Longer(t, Fire(IdOf(s.queue.heap[i]), at, at), at, s');
    assert s.queue.touched - {s.queue.heap[i].typeId} == map[];
  }

  // ---------------------------------------------------------------------------
  // Firing what is due first
  // ---------------------------------------------------------------------------

  function DueBefore(heap: seq<Timer>, bound: Instant): nat {
    if heap == [] then 0
    else DueBefore(heap[..|heap| - 1], bound) + if heap[|heap| - 1].deadline < bound then 1 else 0
  }

  lemma {:induction false} DueBeforeConcat(a: seq<Timer>, b: seq<Timer>, bound: Instant)
    ensures DueBefore(a + b, bound) == DueBefore(a, bound) + DueBefore(b, bound)
  {
    if b == [] {
      assert a + b == a;
    } else {
      DueBeforeConcat(a, b[..|b| - 1], bound);
      assert (a + b)[..|a + b| - 1] == a + b[..|b| - 1];
    }
  }

  lemma FewerDue(heap: seq<Timer>, i: nat, t': Timer, bound: Instant)
    requires i < |heap| && heap[i].deadline < bound <= t'.deadline
    ensures DueBefore(Without(heap, i) + [t'], bound) < DueBefore(heap, bound)
  {
    assert heap == heap[..i] + ([heap[i]] + heap[i + 1..]);
    DueBeforeConcat(heap[..i], [heap[i]] + heap[i + 1..], bound);
    DueBeforeConcat([heap[i]], heap[i + 1..], bound);
    DueBeforeConcat(heap[..i], heap[i + 1..], bound);
    DueBeforeConcat(Without(heap, i), [t'], bound);
    assert DueBefore([heap[i]], bound) == 1 && DueBefore([t'], bound) == 0;
  }

  lemma {:induction false} LeastExists(heap: seq<Timer>) returns (i: nat)
    requires heap != []
    ensures LeastAt(heap, i)
  {
    var n := |heap| - 1;
    i := n;
    if n > 0 {
      var k := LeastExists(heap[..n]);
      i := if heap[k].deadline <= heap[n].deadline then k else n;
      assert forall j :: 0 <= j < n ==> heap[..n][j] == heap[j];
    }
  }

  lemma KeptInHeap(heap: seq<Timer>, i: nat, t': Timer, keep: Timer)
    requires i < |heap| && keep in heap && heap[i] != keep
    ensures keep in Without(heap, i) + [t']
  {
    var k :| 0 <= k < |heap| && heap[k] == keep;
    assert Without(heap, i)[if k < i then k else k - 1] == keep;
  }

  ghost predicate NoneDueBefore(heap: seq<Timer>, bound: Instant) {
    forall i :: 0 <= i < |heap| ==> bound <= heap[i].deadline
  }

  /** The timers of a heap that are not due before the bound are in another one too. */
  ghost predicate KeepsLater(heap: seq<Timer>, bound: Instant, heap': seq<Timer>) {
    forall t :: t in heap && bound <= t.deadline ==> t in heap'
  }

  lemma FiringKeepsLater(heap: seq<Timer>, i: nat, t': Timer, bound: Instant)
    requires i < |heap| && heap[i].deadline < bound
    ensures KeepsLater(heap, bound, Without(heap, i) + [t'])
  {
    forall t | t in heap && bound <= t.deadline
      ensures t in Without(heap, i) + [t']
    {
      KeptInHeap(heap, i, t', t);
    }
  }

  /** Without touches the loop can fire everything due before now, each timer once, and leave the others alone. */
  lemma {:induction false} ClearDue(t: Trace) returns (t': Trace)
    requires IsRun(t) && Last(t).queue.touched == map[] && Last(t).queue.heap != []
    ensures IsRun(t') && Continues(t, t') && Now(t') == Now(t) && Last(t').queue.touched == map[]
    ensures NoneDueBefore(Last(t').queue.heap, Now(t))
    ensures KeepsLater(Last(t).queue.heap, Now(t), Last(t').queue.heap)
    decreases DueBefore(Last(t).queue.heap, Now(t))
  {
    var heap, now := Last(t).queue.heap, Now(t);
    var i := LeastExists(heap);
    if now <= heap[i].deadline {
      t' := t;
    } else {
      FewerDue(heap, i, FiredAt(heap[i], now), now);
      FiringKeepsLater(heap, i, FiredAt(heap[i], now), now);
      var next := FireNext(t, i, now);
      t' := ClearDue(next);
    }
  }

  /** Time passes, and everything due before then fires. */
  lemma ClearUntil(t: Trace, bound: Instant) returns (t': Trace)
    requires IsRun(t) && Last(t).queue.touched == map[] && Last(t).queue.heap != [] && Now(t) <= bound
    ensures IsRun(t') && Continues(t, t') && Now(t') == bound && Last(t').queue.touched == map[]
    ensures NoneDueBefore(Last(t').queue.heap, bound)
    ensures KeepsLater(Last(t).queue.heap, bound, Last(t').queue.heap)
  {
    GoesOn(t, Wait, bound, Last(t));
    t' := ClearDue(Longer(t, Wait, bound, Last(t)));
  }

  // ---------------------------------------------------------------------------
  // The stolen touch
  // ---------------------------------------------------------------------------

  function NewHeap(ids: seq<Id>, now: Instant): (heap: seq<Timer>)
    ensures |heap| == |ids| && forall i :: 0 <= i < |ids| ==> heap[i] == NewTimer(ids[i], now)
  {
    seq(|ids|, i requires 0 <= i < |ids| => NewTimer(ids[i], now))
  }

  lemma StillInHeap(heap: seq<Timer>, i: nat, t': Timer, bound: Instant, k: nat)
    requires i < |heap| && k < |heap| && k != i && NoneDueBefore(heap, bound) && bound <= t'.deadline
    ensures var heap' := Without(heap, i) + [t'];
            && NoneDueBefore(heap', bound) && heap'[|heap| - 1] == t'
            && heap'[if k < i then k else k - 1] == heap[k]
  {
    var heap' := Without(heap, i) + [t'];
    forall j | 0 <= j < |heap'|
      ensures bound <= heap'[j].deadline
    {
      assert heap'[j] == if j == |heap| - 1 then t' else heap[if j < i then j else j + 1];
    }
  }

  /** The cron timer runs at the start, the periodic one when the cron timer is due again, and then everything else that
      is due. */
  lemma BothRun(ids: seq<Id>, c: nat, p: nat, now: Instant, permits: nat) returns (t: Trace)
    requires c < |ids| && p < |ids| && c != p && ids[c].kind.Cron? && ids[p].kind.Interval?
    ensures IsRun(t) && t.clock[0] == now && Last(t).queue.touched == map[]
    ensures t.states[0] == Loop(Queue(NewHeap(ids, now), map[]), permits, 0, 0)
    ensures var cron := FiredAt(NewTimer(ids[c], now), now);
            var next := cron.deadline;
            && Now(t) == next >= now && NoneDueBefore(Last(t).queue.heap, next)
            && cron in Last(t).queue.heap && FiredAt(NewTimer(ids[p], now), next) in Last(t).queue.heap
  {
    var heap, last := NewHeap(ids, now), |ids| - 1;
    var start := Trace([Loop(Queue(heap, map[]), permits, 0, 0)], [], [now]);
    var cron := FiredAt(heap[c], now);
    StillInHeap(heap, c, cron, now, p);
    var one := FireNext(start, c, now);
    var heap1, p1, next := Last(one).queue.heap, if p < c then p else p - 1, cron.deadline;
    StillInHeap(heap1, p1, FiredAt(heap1[p1], next), now, last);
    var both := FireNext(one, p1, next);
    var heap2 := Last(both).queue.heap;
    assert cron == heap2[last - 1] && FiredAt(heap[p], next) == heap2[last];
    t := ClearUntil(both, next);
  }

  /** The touch is made, and the cron timer takes it: it is the first that is due. */
  lemma TouchStolen(t: Trace, i: nat, at: Instant) returns (t': Trace)
    requires IsRun(t) && Now(t) <= at && Last(t).queue.touched == map[]
    requires var heap := Last(t).queue.heap;
             && i < |heap| && heap[i].kind.Cron? && heap[i].last.Some? && heap[i].last.value < at
             && NoneDueBefore(heap, Now(t)) && heap[i].deadline == Now(t)
    ensures IsRun(t') && Continues(t, t') && Now(t') == at && Last(t').queue.touched == map[]
    ensures |t'.events| == |t.events| + 2 && t'.events[|t.events|] == Touch(Last(t).queue.heap[i].typeId, at)
    ensures Last(t').queue.heap == Without(Last(t).queue.heap, i) + [Postponed(Last(t).queue.heap[i], at, at, at)]
  {
    var s := Last(t);
    var heap, cron := s.queue.heap, s.queue.heap[i];
    var s1 := s.(queue := Queue(heap, map[cron.typeId := at]));
    assert s.queue.touched[cron.typeId := at] == map[cron.typeId := at];
    GoesOn(t, Touch(cron.typeId, at), at, s1);
    var touched := Longer(t, Touch(cron.typeId, at), at, s1);
    var cron' := Postponed(cron, at, at, at);
    var q2 := Queue(Without(heap, i) + [cron'], s1.queue.touched - {cron.typeId});
    assert IsPostponed(cron, at, at, at, cron');
    assert Deferral(s1.queue, at, at, i, cron', q2);
    GoesOn(touched, Defer, at, s1.(queue := q2));
    t' := Longer(touched, Defer, at, s1.(queue := q2));
    assert s1.queue.touched - {cron.typeId} == map[];
  }

  /** A timer due now fires once everything due before has. */
  lemma FiresAtLast(t: Trace, timer: Timer) returns (t': Trace)
    requires IsRun(t) && Last(t).queue.touched == map[] && Now(t) == timer.deadline && timer in Last(t).queue.heap
    ensures IsRun(t') && Continues(t, t') && |t'.events| > |t.events|
    ensures t'.events[|t'.events| - 1] == Fire(IdOf(timer), timer.deadline, timer.deadline)
  {
    var cleared := ClearDue(t);
    var k: nat :| k < |Last(cleared).queue.heap| && Last(cleared).queue.heap[k] == timer;
    t' := FireNext(cleared, k, timer.deadline);
  }

  lemma BreaksPace(events: seq<Event>, id: Id, n: nat, at: Instant)
    requires id.kind.Interval? && id.kind.dur > 0 && n < |events| - 1
    requires events[n] == Touch(id.typeId, at) && events[|events| - 1] == Fire(id, at, at)
    ensures !KeepsPace(events, id)
  {
    assert !PacedAt(events, id, n, |events| - 1);
  }

  lemma TouchThenFires(both: Trace, cron: Timer, periodic: Timer) returns (t: Trace)
    requires IsRun(both) && Last(both).queue.touched == map[] && NoneDueBefore(Last(both).queue.heap, Now(both))
    requires cron in Last(both).queue.heap && periodic in Last(both).queue.heap
    requires cron.kind.Cron? && cron.typeId == periodic.typeId && cron.last.Some? && cron.deadline == Now(both)
    requires periodic.kind.Interval? && cron.last.value < periodic.deadline && Now(both) <= periodic.deadline
    ensures IsRun(t) && Continues(both, t) && |both.events| < |t.events| - 1
    ensures t.events[|both.events|] == Touch(periodic.typeId, periodic.deadline)
    ensures t.events[|t.events| - 1] == Fire(IdOf(periodic), periodic.deadline, periodic.deadline)
  {
    var heap, at := Last(both).queue.heap, periodic.deadline;
    var i: nat :| i < |heap| && heap[i] == cron;
    var stolen := TouchStolen(both, i, at);
    KeptInHeap(heap, i, Postponed(cron, at, at, at), periodic);
    t := FiresAtLast(stolen, periodic);
    assert t.events[|both.events|] == stolen.events[|both.events|];
  }

  /** For every registration with a cron and a periodic timer of one type, whatever the schedule says at each reading of
      the clock, whoever the producers are and whatever else is registered: a run in which the cron timer takes the
      touch, and the periodic timer fires at the instant of the touch. */
  lemma SharedTypeStealsTouch(ids: seq<Id>, c: nat, p: nat, now: Instant, permits: nat) returns (t: Trace)
    requires c < |ids| && p < |ids| && ids[c].typeId == ids[p].typeId
    requires ids[c].kind.Cron? && ids[p].kind.Interval? && ids[p].kind.dur > 0
    ensures IsRun(t) && SetUp(t.states[0].queue, ids, t.clock[0])
    ensures t.clock[0] == now && t.states[0] == Loop(t.states[0].queue, permits, 0, 0)
    ensures !KeepsPace(t.events, ids[p])
  {
    var both := BothRun(ids, c, p, now, permits);
    var cron := FiredAt(NewTimer(ids[c], now), now);
    var periodic := FiredAt(NewTimer(ids[p], now), cron.deadline);
    t := TouchThenFires(both, cron, periodic);
    BreaksPace(t.events, ids[p], |both.events|, periodic.deadline);
    assert t.states[0] == both.states[0] && t.clock[0] == both.clock[0];
  }

  /** An interval timer is paced in every run from the setup exactly when it has no interval to keep, or its type is
      registered once. */
  lemma PacedIffOnce(ids: seq<Id>, p: nat)
    requires KeysDistinct(ids) && p < |ids| && ids[p].kind.Interval?
    ensures AlwaysPaced(ids, p) <==> ids[p].kind.dur == 0 || TypeOnce(ids, p)
  {
    if ids[p].kind.dur == 0 || TypeOnce(ids, p) {
      forall states: seq<Loop>, events: seq<Event>, clock: seq<Instant>
        | Run(states, events, clock) && SetUp(states[0].queue, ids, clock[0])
        ensures KeepsPace(events, ids[p])
      {
        if TypeOnce(ids, p) {
          OncePaces(ids, p, states, events, clock);
        } else {
          NoIntervalPaces(ids[p], states, events, clock);
        }
      }
    } else {
      var c: nat :| c < |ids| && c != p && ids[c].typeId == ids[p].typeId;
      var t := SharedTypeStealsTouch(ids, c, p, 0, 1);
      assert Run(t.states, t.events, t.clock);
    }
  }
}
