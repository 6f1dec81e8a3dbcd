/** When a cron timer is due again, and what a timer's handler is told about its earlier runs
    (vyuh/src/emitters.rs). */
module CronTimers {
  import opened Wrappers
  import opened Timers
  import opened Emitters

  // ---------------------------------------------------------------------------
  // One timer through one step
  // ---------------------------------------------------------------------------

  /** The event runs the timer of the type. */
  predicate Runs(e: Event, ty: TypeId) {
    e.Fire? && e.id.typeId == ty
  }

  /** The event pushes the timer of the type back, which uses up the touch that asked for it. */
  predicate Skips(q: Queue, e: Event, q': Queue, ty: TypeId) {
    e.Defer? && ty in q.touched && ty !in q'.touched
  }

  /** A timer that shares its type with no other, found after a step, was there before it: it ran, or was pushed back,
      or is the same. */
  lemma TimerFollows(s: Loop, e: Event, lo: Instant, hi: Instant, s': Loop, ty: TypeId, j: nat) returns (i: nat)
    requires Step(s, e, lo, hi, s') && Sole(s.queue.heap, ty)
    requires j < |s'.queue.heap| && s'.queue.heap[j].typeId == ty
    ensures i < |s.queue.heap| && s.queue.heap[i].typeId == ty && IdOf(s'.queue.heap[j]) == IdOf(s.queue.heap[i])
    ensures var t, t' := s.queue.heap[i], s'.queue.heap[j];
            if Runs(e, ty) then
              IdOf(t) == e.id && t.deadline <= e.now && lo <= e.now && IsFired(t, e.now, e.at, hi, t')
            else if Skips(s.queue, e, s'.queue, ty) then IsPostponed(t, s.queue.touched[ty], lo, hi, t')
            else t' == t
  {
    i := j;
    if e.Fire? {
      i := FiredFrom(s.queue, e.id, lo, e.now, e.at, hi, s'.queue, ty, j);
    } else if e.Defer? {
      i := DeferredFrom(s.queue, lo, hi, s'.queue, ty, j);
    }
  }

  lemma FiredFrom(q: Queue, id: Id, lo: Instant, now: Instant, at: Instant, hi: Instant, q': Queue, ty: TypeId, j: nat)
    returns (i: nat)
    requires Firing(q, id, now, at, hi, q') && Sole(q.heap, ty) && j < |q'.heap| && q'.heap[j].typeId == ty
    ensures i < |q.heap| && q.heap[i].typeId == ty && IdOf(q'.heap[j]) == IdOf(q.heap[i])
    ensures if id.typeId == ty then
              IdOf(q.heap[i]) == id && q.heap[i].deadline <= now && IsFired(q.heap[i], now, at, hi, q'.heap[j])
            else q'.heap[j] == q.heap[i]
  {
    var k: nat, t', q1 :| Pop(q, now, at, hi, k, t', q1) && IdOf(t') == id && q' == Queue(q1.heap + [t'], q1.touched);
    PostponedId(q.heap[k], at, t');
    i := if j == |q'.heap| - 1 then k else if j < k then j else j + 1;
  }

  lemma DeferredFrom(q: Queue, lo: Instant, hi: Instant, q': Queue, ty: TypeId, j: nat) returns (i: nat)
    requires DeferralStep(q, lo, hi, q') && Sole(q.heap, ty) && j < |q'.heap| && q'.heap[j].typeId == ty
    ensures i < |q.heap| && q.heap[i].typeId == ty && IdOf(q'.heap[j]) == IdOf(q.heap[i])
    ensures if ty in q.touched && ty !in q'.touched then IsPostponed(q.heap[i], q.touched[ty], lo, hi, q'.heap[j])
            else q'.heap[j] == q.heap[i]
  {
    var k: nat, t' :| Deferral(q, lo, hi, k, t', q');
    PostponedId(q.heap[k], q.touched[q.heap[k].typeId], t');
    i := if j == |q'.heap| - 1 then k else if j < k then j else j + 1;
  }

  /** A touch pushes a timer back exactly when it is newer than what the timer last ran from; either way it is used up
      by the timer's turn. */
  lemma TouchDecides(s: Loop, e: Event, lo: Instant, hi: Instant, s': Loop, ty: TypeId, i: nat)
    requires Step(s, e, lo, hi, s') && Sole(s.queue.heap, ty)
    requires i < |s.queue.heap| && s.queue.heap[i].typeId == ty
    ensures Runs(e, ty) ==>
              && ty !in s'.queue.touched
              && (ty in s.queue.touched ==>
                    s.queue.heap[i].last.Some? && s.queue.touched[ty] <= s.queue.heap[i].last.value)
    ensures Skips(s.queue, e, s'.queue, ty) ==>
              s.queue.heap[i].last.Some? ==> s.queue.heap[i].last.value < s.queue.touched[ty]
  {
    if Runs(e, ty) {
      var k: nat, t', q1 :| Pop(s.queue, e.now, e.at, hi, k, t', q1) && IdOf(t') == e.id
                            && s'.queue == Queue(q1.heap + [t'], q1.touched);
      PostponedId(s.queue.heap[k], e.at, t');
    } else if Skips(s.queue, e, s'.queue, ty) {
      var k: nat, t' :| Deferral(s.queue, lo, hi, k, t', s'.queue);
    }
  }

  lemma SoleStays(s: Loop, e: Event, lo: Instant, hi: Instant, s': Loop, ty: TypeId)
    requires Step(s, e, lo, hi, s') && Sole(s.queue.heap, ty)
    ensures Sole(s'.queue.heap, ty)
  {
    if e.Fire? {
      var k: nat, t', q1 :| Pop(s.queue, e.now, e.at, hi, k, t', q1)
                            && s'.queue == Queue(q1.heap + [t'], q1.touched);
      PostponedId(s.queue.heap[k], e.at, t');
      SoleReplaced(s.queue.heap, k, t', ty);
    } else if e.Defer? {
      var k: nat, t' :| Deferral(s.queue, lo, hi, k, t', s'.queue);
      PostponedId(s.queue.heap[k], s.queue.touched[s.queue.heap[k].typeId], t');
      SoleReplaced(s.queue.heap, k, t', ty);
    }
  }

  lemma SoleReplaced(heap: seq<Timer>, k: nat, t': Timer, ty: TypeId)
    requires Sole(heap, ty) && k < |heap| && t'.typeId == heap[k].typeId
    ensures Sole(Without(heap, k) + [t'], ty)
  {
    var heap' := Without(heap, k) + [t'];
    assert forall j :: 0 <= j < |heap'| - 1 ==> heap'[j] == heap[if j < k then j else j + 1];
  }

  lemma {:induction false} RunSole(states: seq<Loop>, events: seq<Event>, clock: seq<Instant>, n: nat, ty: TypeId)
    requires Run(states, events, clock) && n <= |events| && Sole(states[0].queue.heap, ty)
    ensures Sole(states[n].queue.heap, ty)
  {
    if n > 0 {
      RunSole(states, events, clock, n - 1, ty);
      assert StepAt(states, events, clock, n - 1);
      SoleStays(states[n - 1], events[n - 1], clock[n - 1], clock[n], states[n], ty);
    }
  }

  // ---------------------------------------------------------------------------
  // Cron timers
  // ---------------------------------------------------------------------------

  /** The next occurrence of a schedule after a reading of the wall clock, counted from a reading of the clock; that
      reading itself where there is none ahead. */
  function Occurrence(id: Id, wall: Instant, reading: Instant): Instant
    requires id.kind.Cron?
  {
    if wall in id.kind.ahead then reading + id.kind.ahead[wall] else reading
  }

  /** The deadline is that of the next occurrence after a reading of the wall clock, both clocks read in between. */
  ghost predicate NextOccurrence(id: Id, lo: Instant, hi: Instant, deadline: Instant)
    requires id.kind.Cron?
  {
    exists wall: Instant, reading: Instant ::
      lo <= wall <= reading <= hi && deadline == Occurrence(id, wall, reading)
  }

  lemma FiredOccurs(t: Timer, now: Instant, at: Instant, hi: Instant, t': Timer)
    requires IsFired(t, now, at, hi, t') && t.kind.Cron?
    ensures IdOf(t') == IdOf(t) && NextOccurrence(IdOf(t), at, hi, t'.deadline) && now <= at <= t'.deadline
  {
    var before: Instant, wall: Instant, reading: Instant :|
      now <= before <= at <= wall <= reading <= hi && t' == Fired(t, before, at, wall, reading);
    assert t'.deadline == Occurrence(IdOf(t), wall, reading);
  }

  lemma PostponedOccurs(t: Timer, at: Instant, lo: Instant, hi: Instant, t': Timer)
    requires IsPostponed(t, at, lo, hi, t') && t.kind.Cron?
    ensures IdOf(t') == IdOf(t) && NextOccurrence(IdOf(t), lo, hi, t'.deadline) && t.deadline <= t'.deadline
  {
    var wall: Instant, reading: Instant :|
      lo <= wall <= reading <= hi && t.deadline <= wall && t' == Postponed(t, at, wall, reading);
    assert t'.deadline == Occurrence(IdOf(t), wall, reading);
  }

  /** The timer of a type, at a point of a run. */
  ghost predicate DueAt(q: Queue, ty: TypeId, deadline: Instant) {
    forall j :: 0 <= j < |q.heap| && q.heap[j].typeId == ty ==> q.heap[j].deadline == deadline
  }

  /** After a firing, and after an occurrence was skipped for a touch, a cron timer is due at the next occurrence after
      a reading of the wall clock made in that step, counted from the reading of the clock that followed it. */
  lemma CronRearms(s: Loop, e: Event, lo: Instant, hi: Instant, s': Loop, id: Id)
    requires Step(s, e, lo, hi, s') && Sole(s.queue.heap, id.typeId) && id.kind.Cron?
    requires forall j :: 0 <= j < |s.queue.heap| && s.queue.heap[j].typeId == id.typeId ==> IdOf(s.queue.heap[j]) == id
    requires Runs(e, id.typeId) || Skips(s.queue, e, s'.queue, id.typeId)
    ensures exists wall: Instant, reading: Instant ::
              && (if e.Fire? then e.at else lo) <= wall <= reading <= hi
              && DueAt(s'.queue, id.typeId, Occurrence(id, wall, reading))
  {
    var heap', from := s'.queue.heap, if e.Fire? then e.at else lo;
    if j: nat :| j < |heap'| && heap'[j].typeId == id.typeId {
      var i := TimerFollows(s, e, lo, hi, s', id.typeId, j);
      if e.Fire? {
        FiredOccurs(s.queue.heap[i], e.now, e.at, hi, heap'[j]);
      } else {
        PostponedOccurs(s.queue.heap[i], s.queue.touched[id.typeId], lo, hi, heap'[j]);
      }
      var wall: Instant, reading: Instant :|
        from <= wall <= reading <= hi && heap'[j].deadline == Occurrence(id, wall, reading);
      SoleStays(s, e, lo, hi, s', id.typeId);
      assert DueAt(s'.queue, id.typeId, Occurrence(id, wall, reading));
    } else {
      assert DueAt(s'.queue, id.typeId, Occurrence(id, hi, hi));
    }
  }

  ghost predicate NotDueBefore(q: Queue, id: Id, bound: Instant) {
    forall j :: 0 <= j < |q.heap| && q.heap[j].typeId == id.typeId ==> bound <= q.heap[j].deadline
  }

  ghost predicate TimerIs(q: Queue, id: Id) {
    Sole(q.heap, id.typeId) && forall j :: 0 <= j < |q.heap| && q.heap[j].typeId == id.typeId ==> IdOf(q.heap[j]) == id
  }

  /** The deadline of a cron timer only ever grows. */
  lemma DeadlineGrows(s: Loop, e: Event, lo: Instant, hi: Instant, s': Loop, id: Id, bound: Instant)
    requires Step(s, e, lo, hi, s') && TimerIs(s.queue, id) && id.kind.Cron? && NotDueBefore(s.queue, id, bound)
    ensures NotDueBefore(s'.queue, id, bound)
  {
    forall j: nat | j < |s'.queue.heap| && s'.queue.heap[j].typeId == id.typeId
      ensures bound <= s'.queue.heap[j].deadline
    {
      var i := TimerFollows(s, e, lo, hi, s', id.typeId, j);
      if Runs(e, id.typeId) {
        FiredOccurs(s.queue.heap[i], e.now, e.at, hi, s'.queue.heap[j]);
      } else if Skips(s.queue, e, s'.queue, id.typeId) {
        PostponedOccurs(s.queue.heap[i], s.queue.touched[id.typeId], lo, hi, s'.queue.heap[j]);
      }
    }
  }

  lemma TimerStays(s: Loop, e: Event, lo: Instant, hi: Instant, s': Loop, id: Id)
    requires Step(s, e, lo, hi, s') && TimerIs(s.queue, id)
    ensures TimerIs(s'.queue, id)
  {
    SoleStays(s, e, lo, hi, s', id.typeId);
    forall j: nat | j < |s'.queue.heap| && s'.queue.heap[j].typeId == id.typeId
      ensures IdOf(s'.queue.heap[j]) == id
    {
      var i := TimerFollows(s, e, lo, hi, s', id.typeId, j);
    }
  }

  lemma {:induction false} RunKeepsTimer(states: seq<Loop>, events: seq<Event>, clock: seq<Instant>, n: nat, id: Id)
    requires Run(states, events, clock) && n <= |events| && TimerIs(states[0].queue, id)
    ensures TimerIs(states[n].queue, id)
  {
    if n > 0 {
      RunKeepsTimer(states, events, clock, n - 1, id);
      assert StepAt(states, events, clock, n - 1);
      TimerStays(states[n - 1], events[n - 1], clock[n - 1], clock[n], states[n], id);
    }
  }

  lemma {:induction false} RunDelays(states: seq<Loop>, events: seq<Event>, clock: seq<Instant>, i: nat, n: nat, id: Id,
                                     bound: Instant)
    requires Run(states, events, clock) && i <= n <= |events| && TimerIs(states[0].queue, id) && id.kind.Cron?
    requires NotDueBefore(states[i].queue, id, bound)
    ensures NotDueBefore(states[n].queue, id, bound)
  {
    if i < n {
      RunDelays(states, events, clock, i, n - 1, id, bound);
      RunKeepsTimer(states, events, clock, n - 1, id);
      assert StepAt(states, events, clock, n - 1);
      DeadlineGrows(states[n - 1], events[n - 1], clock[n - 1], clock[n], states[n], id, bound);
    }
  }

  /** Registering the type once is enough. */
  lemma StartIs(ids: seq<Id>, now: Instant, q: Queue, i: nat)
    requires SetUp(q, ids, now) && i < |ids| && TypeOnce(ids, i)
    ensures TimerIs(q, ids[i])
  {
    StartPaces(ids, now, q, i);
    forall j: nat | j < |q.heap| && q.heap[j].typeId == ids[i].typeId
      ensures IdOf(q.heap[j]) == ids[i]
    {
      assert q.heap[j] == NewTimer(ids[j], q.heap[j].deadline);
    }
  }

  lemma FiresWhenDue(s: Loop, e: Event, lo: Instant, hi: Instant, s': Loop, id: Id, bound: Instant)
    requires Step(s, e, lo, hi, s') && TimerIs(s.queue, id) && NotDueBefore(s.queue, id, bound)
    requires e.Fire? && e.id == id
    ensures bound <= e.now
  {
    var k: nat, t', q1 :| Pop(s.queue, e.now, e.at, hi, k, t', q1) && IdOf(t') == id
                          && s'.queue == Queue(q1.heap + [t'], q1.touched);
    PostponedId(s.queue.heap[k], e.at, t');
  }

  /** Over any run a cron timer that shares its type with no other, once it ran at step i or had an occurrence skipped
      there, fires no sooner than the next occurrence after a reading of the wall clock made in that step. */
  lemma CronNeverTooSoon(states: seq<Loop>, events: seq<Event>, clock: seq<Instant>, i: nat, j: nat)
    requires Run(states, events, clock) && i < j < |events|
    requires events[j].Fire? && events[j].id.kind.Cron? && TimerIs(states[0].queue, events[j].id)
    requires var ty := events[j].id.typeId;
             Runs(events[i], ty) || Skips(states[i].queue, events[i], states[i + 1].queue, ty)
    ensures exists wall: Instant, reading: Instant ::
              && (if events[i].Fire? then events[i].at else clock[i]) <= wall <= reading <= clock[i + 1]
              && Occurrence(events[j].id, wall, reading) <= events[j].now
  {
    var id := events[j].id;
    RunKeepsTimer(states, events, clock, i, id);
    assert StepAt(states, events, clock, i);
    CronRearms(states[i], events[i], clock[i], clock[i + 1], states[i + 1], id);
    var wall: Instant, reading: Instant :|
      && (if events[i].Fire? then events[i].at else clock[i]) <= wall <= reading <= clock[i + 1]
      && DueAt(states[i + 1].queue, id.typeId, Occurrence(id, wall, reading));
    RunDelays(states, events, clock, i + 1, j, id, Occurrence(id, wall, reading));
    RunKeepsTimer(states, events, clock, j, id);
    assert StepAt(states, events, clock, j);
    FiresWhenDue(states[j], events[j], clock[j], clock[j + 1], states[j + 1], id, Occurrence(id, wall, reading));
  }

  // ---------------------------------------------------------------------------
  // What a handler is told
  // ---------------------------------------------------------------------------

  function Firings(events: seq<Event>, ty: TypeId): nat {
    if events == [] then 0
    else Firings(events[..|events| - 1], ty) + if Runs(events[|events| - 1], ty) then 1 else 0
  }

  ghost predicate Counted(q: Queue, ty: TypeId, n: nat) {
    forall j :: 0 <= j < |q.heap| && q.heap[j].typeId == ty ==> q.heap[j].iterCount == n % 0x1_0000_0000_0000_0000
  }

  lemma StepCounts(s: Loop, e: Event, lo: Instant, hi: Instant, s': Loop, ty: TypeId, n: nat)
    requires Step(s, e, lo, hi, s') && Sole(s.queue.heap, ty) && Counted(s.queue, ty, n)
    ensures Counted(s'.queue, ty, if Runs(e, ty) then n + 1 else n)
  {
    forall j: nat | j < |s'.queue.heap| && s'.queue.heap[j].typeId == ty
      ensures s'.queue.heap[j].iterCount == (if Runs(e, ty) then n + 1 else n) % 0x1_0000_0000_0000_0000
    {
      var i := TimerFollows(s, e, lo, hi, s', ty, j);
      assert s.queue.heap[i].iterCount == n % 0x1_0000_0000_0000_0000;
    }
  }

  /** The count a timer hands to its handler is the number of its firings so far, as a 64-bit word holds it. */
  lemma {:induction false} FiringsAreCounted(states: seq<Loop>, events: seq<Event>, clock: seq<Instant>, n: nat,
                                             ids: seq<Id>, i: nat)
    requires Run(states, events, clock) && n <= |events| && SetUp(states[0].queue, ids, clock[0])
    requires i < |ids| && TypeOnce(ids, i)
    ensures Sole(states[n].queue.heap, ids[i].typeId)
    ensures Counted(states[n].queue, ids[i].typeId, Firings(events[..n], ids[i].typeId))
  {
    if n == 0 {
      StartPaces(ids, clock[0], states[0].queue, i);
      forall j | 0 <= j < |states[0].queue.heap|
        ensures states[0].queue.heap[j].iterCount == 0
      {
        assert states[0].queue.heap[j] == NewTimer(ids[j], states[0].queue.heap[j].deadline);
      }
    } else {
      var ty := ids[i].typeId;
      FiringsAreCounted(states, events, clock, n - 1, ids, i);
      assert events[..n][..n - 1] == events[..n - 1];
      assert StepAt(states, events, clock, n - 1);
      StepCounts(states[n - 1], events[n - 1], clock[n - 1], clock[n], states[n], ty, Firings(events[..n - 1], ty));
      SoleStays(states[n - 1], events[n - 1], clock[n - 1], clock[n], states[n], ty);
    }
  }

  /** The last run a timer reports is its last firing: the time it has was read between the check and the run. */
  ghost predicate RanLast(q: Queue, ty: TypeId, now: Instant, at: Instant) {
    forall j :: 0 <= j < |q.heap| && q.heap[j].typeId == ty ==>
      q.heap[j].lastTime.Some? && now <= q.heap[j].lastTime.value <= at
  }

  lemma {:induction false} LastRunIsReported(states: seq<Loop>, events: seq<Event>, clock: seq<Instant>, i: nat, n: nat)
    requires Run(states, events, clock) && i < n <= |events| && events[i].Fire?
    requires Sole(states[0].queue.heap, events[i].id.typeId)
    requires forall k :: i < k < n ==> !Runs(events[k], events[i].id.typeId)
    ensures RanLast(states[n].queue, events[i].id.typeId, events[i].now, events[i].at)
  {
    var ty, s, e, s' := events[i].id.typeId, states[n - 1], events[n - 1], states[n];
    RunSole(states, events, clock, n - 1, ty);
    assert StepAt(states, events, clock, n - 1);
    if i < n - 1 {
      LastRunIsReported(states, events, clock, i, n - 1);
    }
    forall j: nat | j < |s'.queue.heap| && s'.queue.heap[j].typeId == ty
      ensures s'.queue.heap[j].lastTime.Some? && events[i].now <= s'.queue.heap[j].lastTime.value <= events[i].at
    {
      var k := TimerFollows(s, e, clock[n - 1], clock[n], s', ty, j);
      assert i < n - 1 ==> s.queue.heap[k].lastTime.Some?;
    }
  }
}
