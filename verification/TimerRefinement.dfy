/** The timer queue and the emitter loop as eager ones: a touch counts at once. Said of types with one timer each. */
module TimerRefinement {
  import opened Wrappers
  import opened Timers
  import E = Emitters

  // ---------------------------------------------------------------------------
  // What the queue stands for
  // ---------------------------------------------------------------------------

  /** A timer of the eager queue. A touched cron timer is only marked: how far its next occurrence is can be told when
      the pending one is due, and that one is then skipped. */
  datatype Entry = Entry(timer: Timer, skip: Option<Instant>)

  /** A touch applied at once. */
  function Touched(e: Entry, at: Instant): Entry {
    if !Outdates(at, e.timer) then e
    else if e.timer.kind.Interval? then Entry(e.timer.(last := Some(at), deadline := at + e.timer.kind.dur), None)
    else Entry(e.timer, Some(at))
  }

  /** A timer of the heap with the touch that waits for it. */
  function Eager(q: Queue, t: Timer): Entry {
    if t.typeId in q.touched then Touched(Entry(t, None), q.touched[t.typeId]) else Entry(t, None)
  }

  predicate Present(heap: seq<Timer>, ty: TypeId) {
    exists i :: 0 <= i < |heap| && heap[i].typeId == ty
  }

  ghost function TimerOf(heap: seq<Timer>, ty: TypeId): Timer
    requires Present(heap, ty)
  {
    var i :| 0 <= i < |heap| && heap[i].typeId == ty;
    heap[i]
  }

  ghost function EntryOf(q: Queue, ty: TypeId): Option<Entry> {
    if Present(q.heap, ty) then Some(Eager(q, TimerOf(q.heap, ty))) else None
  }

  /** The eager queue: the one timer of each type, with every touch applied. */
  ghost function Effective(q: Queue, types: set<TypeId>): map<TypeId, Entry> {
    map ty | ty in types && EntryOf(q, ty).Some? :: EntryOf(q, ty).value
  }

  /** A timer that last ran in the past. An interval timer is due one interval after that; as long as it has not run it
      is due since it was made, and was not touched before. */
  ghost predicate Timely(q: Queue, t: Timer, clock: Instant) {
    && (t.last.Some? ==> t.last.value <= clock)
    && (t.kind.Interval? && t.last.Some? ==> t.deadline == t.last.value + t.kind.dur)
    && (t.kind.Interval? && t.last.None? ==>
          t.deadline <= clock && (t.typeId in q.touched ==> t.deadline <= q.touched[t.typeId]))
  }

  ghost predicate Sound(q: Queue, ty: TypeId, clock: Instant) {
    && E.Sole(q.heap, ty)
    && (ty in q.touched ==> q.touched[ty] <= clock)
    && forall i :: 0 <= i < |q.heap| && q.heap[i].typeId == ty ==> Timely(q, q.heap[i], clock)
  }

  ghost predicate Consistent(q: Queue, types: set<TypeId>, clock: Instant) {
    forall ty :: ty in types ==> Sound(q, ty, clock)
  }

  lemma EntryAt(q: Queue, i: nat)
    requires i < |q.heap| && E.Sole(q.heap, q.heap[i].typeId)
    ensures EntryOf(q, q.heap[i].typeId) == Some(Eager(q, q.heap[i]))
  {
  }

  lemma ConsistentLater(q: Queue, types: set<TypeId>, clock: Instant, later: Instant)
    requires Consistent(q, types, clock) && clock <= later
    ensures Consistent(q, types, later)
  {
    forall ty | ty in types
      ensures Sound(q, ty, later)
    {
      assert Sound(q, ty, clock);
    }
  }

  /** A pending touch only pushes a timer out. */
  lemma EagerIsLater(q: Queue, t: Timer, clock: Instant)
    requires Timely(q, t, clock)
    ensures t.deadline <= Eager(q, t).timer.deadline
  {
  }

  // ---------------------------------------------------------------------------
  // One type at a time
  // ---------------------------------------------------------------------------

  lemma PushedEntry(q: Queue, t: Timer, ty: TypeId, clock: Instant)
    requires Sound(q, ty, clock)
    requires t.typeId == ty ==> !Present(q.heap, ty) && ty !in q.touched && Timely(q, t, clock)
    ensures var q' := Queue(q.heap + [t], q.touched);
            Sound(q', ty, clock) && EntryOf(q', ty) == if t.typeId == ty then Some(Entry(t, None)) else EntryOf(q, ty)
  {
    var q' := Queue(q.heap + [t], q.touched);
    assert forall i :: 0 <= i < |q.heap| ==> q'.heap[i] == q.heap[i];
    assert q'.heap[|q.heap|] == t;
    if t.typeId == ty {
      EntryAt(q', |q.heap|);
    } else if Present(q.heap, ty) {
      var i :| 0 <= i < |q.heap| && q.heap[i].typeId == ty;
      EntryAt(q, i);
      EntryAt(q', i);
    } else {
      assert !Present(q'.heap, ty);
    }
  }

  lemma TouchedEntry(q: Queue, typeId: TypeId, at: Instant, ty: TypeId, clock: Instant)
    requires Sound(q, ty, clock) && clock <= at
    ensures var q' := Queue(q.heap, q.touched[typeId := at]);
            && Sound(q', ty, at)
            && EntryOf(q', ty) == if typeId == ty && EntryOf(q, ty).Some? then Some(Touched(EntryOf(q, ty).value, at))
                                else EntryOf(q, ty)
  {
    var q' := Queue(q.heap, q.touched[typeId := at]);
    if Present(q.heap, ty) {
      var i :| 0 <= i < |q.heap| && q.heap[i].typeId == ty;
      EntryAt(q, i);
      EntryAt(q', i);
      assert Timely(q, q.heap[i], clock);
    }
  }

  /** Where the timers of a heap are after one of them was taken out and another put at its end. */
  lemma Moved(heap: seq<Timer>, i: nat, k: nat)
    requires i < |heap| && k < |heap| && k != i
    ensures var j := if k < i then k else k - 1;
            j < |Without(heap, i)| && Without(heap, i)[j] == heap[k]
  {
  }

  lemma StillSole(heap: seq<Timer>, i: nat, t': Timer, ty: TypeId)
    requires i < |heap| && E.Sole(heap, ty) && t'.typeId == heap[i].typeId
    ensures E.Sole(Without(heap, i), ty) && E.Sole(Without(heap, i) + [t'], ty)
    ensures heap[i].typeId == ty ==> !Present(Without(heap, i), ty)
  {
    assert forall j :: 0 <= j < |heap| - 1 ==> Without(heap, i)[j] == heap[if j < i then j else j + 1];
  }

  /** Another type's timer leaves the heap, with its touch. */
  lemma OtherTaken(q: Queue, i: nat, ty: TypeId, clock: Instant)
    requires i < |q.heap| && q.heap[i].typeId != ty && Sound(q, ty, clock)
    ensures var q' := Queue(Without(q.heap, i), q.touched - {q.heap[i].typeId});
            Sound(q', ty, clock) && EntryOf(q', ty) == EntryOf(q, ty)
  {
    var q' := Queue(Without(q.heap, i), q.touched - {q.heap[i].typeId});
    StillSole(q.heap, i, q.heap[i], ty);
    assert forall j :: 0 <= j < |q'.heap| ==> q'.heap[j] == q.heap[if j < i then j else j + 1];
    forall j | 0 <= j < |q'.heap| && q'.heap[j].typeId == ty
      ensures Timely(q', q'.heap[j], clock)
    {
      assert Timely(q, q.heap[if j < i then j else j + 1], clock);
    }
    if Present(q.heap, ty) {
      var k :| 0 <= k < |q.heap| && q.heap[k].typeId == ty;
      Moved(q.heap, i, k);
      EntryAt(q, k);
      EntryAt(q', if k < i then k else k - 1);
    }
  }

  /** The type's own timer leaves the heap. */
  lemma OwnTaken(q: Queue, i: nat, clock: Instant)
    requires i < |q.heap| && Sound(q, q.heap[i].typeId, clock)
    ensures var q' := Queue(Without(q.heap, i), q.touched - {q.heap[i].typeId});
            Sound(q', q.heap[i].typeId, clock) && EntryOf(q', q.heap[i].typeId) == None
  {
    StillSole(q.heap, i, q.heap[i], q.heap[i].typeId);
  }

  // ---------------------------------------------------------------------------
  // All types together
  // ---------------------------------------------------------------------------

  lemma SameEffective(q: Queue, q': Queue, types: set<TypeId>)
    requires forall ty :: ty in types ==> EntryOf(q', ty) == EntryOf(q, ty)
    ensures Effective(q', types) == Effective(q, types)
  {
  }

  lemma EffectiveWith(q: Queue, q': Queue, types: set<TypeId>, key: TypeId, e: Entry)
    requires key in types
    requires forall ty :: ty in types ==> EntryOf(q', ty) == if ty == key then Some(e) else EntryOf(q, ty)
    ensures Effective(q', types) == Effective(q, types)[key := e]
  {
  }

  lemma EffectiveWithout(q: Queue, q': Queue, types: set<TypeId>, key: TypeId)
    requires forall ty :: ty in types ==> EntryOf(q', ty) == if ty == key then None else EntryOf(q, ty)
    ensures Effective(q', types) == Effective(q, types) - {key}
  {
  }

  /** A timer that is pushed is one no type here has yet, as at the setup or right after it was popped. */
  ghost predicate Fits(q: Queue, t: Timer, types: set<TypeId>, clock: Instant) {
    t.typeId in types ==> !Present(q.heap, t.typeId) && t.typeId !in q.touched && Timely(q, t, clock)
  }

  lemma PushRefines(q: Queue, t: Timer, types: set<TypeId>, clock: Instant)
    requires Consistent(q, types, clock) && Fits(q, t, types, clock)
    ensures var e, q' := Effective(q, types), Queue(q.heap + [t], q.touched);
            && Consistent(q', types, clock)
            && (t.typeId in types ==> t.typeId !in e)
            && Effective(q', types) == if t.typeId in types then e[t.typeId := Entry(t, None)] else e
  {
    var q' := Queue(q.heap + [t], q.touched);
    forall ty | ty in types
      ensures Sound(q', ty, clock) && EntryOf(q', ty) == if t.typeId == ty then Some(Entry(t, None)) else EntryOf(q, ty)
    {
      assert Sound(q, ty, clock);
      PushedEntry(q, t, ty, clock);
    }
    if t.typeId in types {
      EffectiveWith(q, q', types, t.typeId, Entry(t, None));
    } else {
      SameEffective(q, q', types);
    }
  }

  lemma TouchRefines(q: Queue, typeId: TypeId, at: Instant, types: set<TypeId>, clock: Instant)
    requires Consistent(q, types, clock) && clock <= at
    ensures var e, q' := Effective(q, types), Queue(q.heap, q.touched[typeId := at]);
            && Consistent(q', types, at)
            && Effective(q', types) == if typeId in e then e[typeId := Touched(e[typeId], at)] else e
  {
    var e, q' := Effective(q, types), Queue(q.heap, q.touched[typeId := at]);
    forall ty | ty in types
      ensures Sound(q', ty, at)
      ensures EntryOf(q', ty) == if typeId == ty && EntryOf(q, ty).Some? then Some(Touched(EntryOf(q, ty).value, at))
                               else EntryOf(q, ty)
    {
      assert Sound(q, ty, clock);
      TouchedEntry(q, typeId, at, ty, clock);
    }
    if typeId in e {
      EffectiveWith(q, q', types, typeId, Touched(e[typeId], at));
    } else {
      SameEffective(q, q', types);
    }
  }

  /** A deferred interval timer is what the touch had already made of it; a deferred cron timer was marked. */
  lemma DeferredIsEager(q: Queue, t: Timer, lo: Instant, hi: Instant, t': Timer, q': Queue, clock: Instant)
    requires Timely(q, t, clock) && MustDefer(q, t) && IsPostponed(t, q.touched[t.typeId], lo, hi, t')
    requires q.touched[t.typeId] <= clock
    ensures Timely(q', t', clock)
    ensures Eager(q, t) == if t.kind.Interval? then Entry(t', None) else Entry(t, Some(q.touched[t.typeId]))
  {
  }

  lemma TakenAll(q: Queue, i: nat, types: set<TypeId>, clock: Instant)
    requires Consistent(q, types, clock) && i < |q.heap|
    ensures var q1 := Queue(Without(q.heap, i), q.touched - {q.heap[i].typeId});
            && Consistent(q1, types, clock)
            && (q.heap[i].typeId in types ==> !Present(q1.heap, q.heap[i].typeId))
            && forall ty :: ty in types ==> EntryOf(q1, ty) == if ty == q.heap[i].typeId then None else EntryOf(q, ty)
  {
    var q1 := Queue(Without(q.heap, i), q.touched - {q.heap[i].typeId});
    forall ty | ty in types
      ensures Sound(q1, ty, clock) && EntryOf(q1, ty) == if ty == q.heap[i].typeId then None else EntryOf(q, ty)
    {
      assert Sound(q, ty, clock);
      if ty == q.heap[i].typeId {
        OwnTaken(q, i, clock);
      } else {
        OtherTaken(q, i, ty, clock);
      }
    }
  }

  lemma PutBack(e: map<TypeId, Entry>, key: TypeId, x: Entry)
    ensures (e - {key})[key := x] == e[key := x]
    ensures key in e && e[key] == x ==> (e - {key})[key := x] == e
  {
  }

  // ---------------------------------------------------------------------------
  // The eager queue and the refinement
  // ---------------------------------------------------------------------------

  /** No timer of the eager queue is due before the instant. */
  ghost predicate NoneBefore(e: map<TypeId, Entry>, at: Instant) {
    forall ty :: ty in e ==> at <= e[ty].timer.deadline
  }

  lemma LeastIsLower(q: Queue, i: nat, types: set<TypeId>, clock: Instant)
    requires Consistent(q, types, clock) && LeastAt(q.heap, i)
    ensures NoneBefore(Effective(q, types), q.heap[i].deadline)
  {
    var e := Effective(q, types);
    forall ty | ty in e
      ensures q.heap[i].deadline <= e[ty].timer.deadline
    {
      assert Sound(q, ty, clock);
      var k :| 0 <= k < |q.heap| && q.heap[k].typeId == ty;
      EntryAt(q, k);
      EagerIsLater(q, q.heap[k], clock);
    }
  }

  /** The eager queue stays as it is, or skips the occurrence of a marked cron timer that is due before any other. */
  ghost predicate Skips(e: map<TypeId, Entry>, lo: Instant, hi: Instant, e': map<TypeId, Entry>) {
    e' == e || exists ty: TypeId, t': Timer :: SkipOf(e, ty, lo, hi, t') && e' == e[ty := Entry(t', None)]
  }

  ghost predicate SkipOf(e: map<TypeId, Entry>, ty: TypeId, lo: Instant, hi: Instant, t': Timer) {
    && ty in e && e[ty].skip.Some? && e[ty].timer.kind.Cron?
    && NoneBefore(e, e[ty].timer.deadline)
    && IsPostponed(e[ty].timer, e[ty].skip.value, lo, hi, t')
  }

  lemma DeferredRefines(q: Queue, i: nat, t': Timer, q': Queue, types: set<TypeId>, clock: Instant)
    requires Consistent(q, types, clock) && i < |q.heap| && t'.typeId == q.heap[i].typeId
    requires q' == Queue(Without(q.heap, i) + [t'], q.touched - {q.heap[i].typeId})
    requires t'.typeId in types ==> Timely(q', t', clock)
    ensures Consistent(q', types, clock)
    ensures var e := Effective(q, types);
            Effective(q', types) == if t'.typeId in types then e[t'.typeId := Entry(t', None)] else e
  {
    var q1 := Queue(Without(q.heap, i), q.touched - {q.heap[i].typeId});
    TakenAll(q, i, types, clock);
    EffectiveWithout(q, q1, types, t'.typeId);
    PushRefines(q1, t', types, clock);
    PutBack(Effective(q, types), t'.typeId, Entry(t', None));
  }

  lemma DeferralRefines(q: Queue, lo: Instant, hi: Instant, q': Queue, types: set<TypeId>, clock: Instant)
    requires Consistent(q, types, clock) && DeferralStep(q, lo, hi, q')
    ensures Consistent(q', types, clock) && Skips(Effective(q, types), lo, hi, Effective(q', types))
  {
    var i: nat, t' :| Deferral(q, lo, hi, i, t', q');
    var e, t := Effective(q, types), q.heap[i];
    if t.typeId in types {
      assert Sound(q, t.typeId, clock);
      EntryAt(q, i);
      DeferredIsEager(q, t, lo, hi, t', q', clock);
      LeastIsLower(q, i, types, clock);
    }
    DeferredRefines(q, i, t', q', types, clock);
    if t.typeId in types && t.kind.Cron? {
      assert SkipOf(e, t.typeId, lo, hi, t');
    }
  }

  /** The eager queues a poll goes through while it skips occurrences. */
  ghost predicate SkipPath(es: seq<map<TypeId, Entry>>, lo: Instant, hi: Instant) {
    es != [] && forall k :: 0 <= k < |es| - 1 ==> SkipLink(es, lo, hi, k)
  }

  ghost predicate SkipLink(es: seq<map<TypeId, Entry>>, lo: Instant, hi: Instant, k: nat)
    requires k < |es| - 1
  {
    Skips(es[k], lo, hi, es[k + 1])
  }

  ghost predicate SkipsTo(e: map<TypeId, Entry>, lo: Instant, hi: Instant, e': map<TypeId, Entry>) {
    exists es: seq<map<TypeId, Entry>> :: SkipPath(es, lo, hi) && es[0] == e && es[|es| - 1] == e'
  }

  lemma SkipsNone(e: map<TypeId, Entry>, lo: Instant, hi: Instant)
    ensures SkipsTo(e, lo, hi, e)
  {
    assert SkipPath([e], lo, hi);
  }

  lemma SkipsOneMore(e: map<TypeId, Entry>, lo: Instant, hi: Instant, e1: map<TypeId, Entry>, e': map<TypeId, Entry>)
    requires SkipsTo(e, lo, hi, e1) && Skips(e1, lo, hi, e')
    ensures SkipsTo(e, lo, hi, e')
  {
    var es: seq<map<TypeId, Entry>> :| SkipPath(es, lo, hi) && es[0] == e && es[|es| - 1] == e1;
    var longer := es + [e'];
    forall k | 0 <= k < |longer| - 1
      ensures SkipLink(longer, lo, hi, k)
    {
      if k < |es| - 1 {
        assert SkipLink(es, lo, hi, k);
      }
    }
    assert SkipPath(longer, lo, hi) && longer[0] == e && longer[|longer| - 1] == e';
  }

  lemma {:induction false} DeferralsRefine(path: seq<Queue>, lo: Instant, hi: Instant, types: set<TypeId>,
                                           clock: Instant)
    requires Deferrals(path, lo, hi) && Consistent(path[0], types, clock)
    ensures Consistent(path[|path| - 1], types, clock)
    ensures SkipsTo(Effective(path[0], types), lo, hi, Effective(path[|path| - 1], types))
  {
    var n := |path| - 1;
    if n > 0 {
      assert forall k :: 0 <= k < n - 1 ==> DeferralLink(path, lo, hi, k) && DeferralLink(path[..n], lo, hi, k);
      DeferralsRefine(path[..n], lo, hi, types, clock);
      assert DeferralLink(path, lo, hi, n - 1);
      DeferralRefines(path[n - 1], lo, hi, path[n], types, clock);
      SkipsOneMore(Effective(path[0], types), lo, hi, Effective(path[n - 1], types), Effective(path[n], types));
    } else {
      SkipsNone(Effective(path[0], types), lo, hi);
    }
  }

  /** The timer t runs at `at`: it is due, no timer of the eager queue is due before it, and it leaves that queue as it
      stood there, its touches applied and not marked. */
  ghost predicate Runs(e: map<TypeId, Entry>, types: set<TypeId>, now: Instant, at: Instant, end: Instant, t: Timer,
                       t': Timer) {
    && t.deadline <= now && NoneBefore(e, t.deadline) && IsFired(t, now, at, end, t')
    && (t'.typeId in types ==> t'.typeId in e && e[t'.typeId] == Entry(t, None))
  }

  ghost predicate EagerPop(e: map<TypeId, Entry>, types: set<TypeId>, now: Instant, at: Instant, end: Instant,
                           t': Timer, e': map<TypeId, Entry>) {
    (exists t: Timer :: Runs(e, types, now, at, end, t, t')) && e' == if t'.typeId in types then e - {t'.typeId} else e
  }

  lemma PopRefines(q: Queue, now: Instant, at: Instant, end: Instant, i: nat, t': Timer, q': Queue, types: set<TypeId>,
                   clock: Instant)
    requires Consistent(q, types, clock) && Pop(q, now, at, end, i, t', q')
    ensures Consistent(q', types, clock)
    ensures EagerPop(Effective(q, types), types, now, at, end, t', Effective(q', types))
    ensures clock <= at ==> Fits(q', t', types, at)
  {
    var e, t := Effective(q, types), q.heap[i];
    TakenAll(q, i, types, clock);
    LeastIsLower(q, i, types, clock);
    if t.typeId in types {
      assert Sound(q, t.typeId, clock);
      EntryAt(q, i);
      assert Eager(q, t) == Entry(t, None);
      EffectiveWithout(q, q', types, t.typeId);
    } else {
      SameEffective(q, q', types);
    }
    assert Runs(e, types, now, at, end, t, t');
  }

  datatype Event =
    | Push(timer: Timer)
    | Touch(typeId: TypeId, at: Instant)
    | Poll(start: Instant, now: Instant, at: Instant, end: Instant, path: seq<Queue>, polled: Polled)

  /** One call on the timer queue, or one poll of the future `pop` returns, between the clock readings lo and hi. */
  ghost predicate Step(q: Queue, e: Event, lo: Instant, hi: Instant, q': Queue, types: set<TypeId>) {
    match e
    case Push(t) => lo <= hi && Fits(q, t, types, hi) && q' == Queue(q.heap + [t], q.touched)
    case Touch(typeId, at) => lo <= at <= hi && q' == Queue(q.heap, q.touched[typeId := at])
    case Poll(start, now, at, end, path, polled) =>
      && lo <= start <= now <= at <= end <= hi
      && Deferrals(path, start, now) && path[0] == q && Ended(path[|path| - 1], now, at, end, polled, q')
  }

  /** How a poll of the eager queue ends once nothing is to be skipped. */
  ghost predicate EagerEnd(e: map<TypeId, Entry>, types: set<TypeId>, now: Instant, at: Instant, end: Instant,
                           polled: Polled, e': map<TypeId, Entry>) {
    match polled
    case Idle => e == map[] && e' == e
    case Sleep(wait) => 0 < wait && NoneBefore(e, now + wait) && e' == e
    case Popped(t') => EagerPop(e, types, now, at, end, t', e')
  }

  /** The same on a queue in which touches count at once. */
  ghost predicate EagerStep(e: map<TypeId, Entry>, ev: Event, e': map<TypeId, Entry>, types: set<TypeId>) {
    match ev
    case Push(t) => if t.typeId in types then t.typeId !in e && e' == e[t.typeId := Entry(t, None)] else e' == e
    case Touch(typeId, at) => e' == if typeId in e then e[typeId := Touched(e[typeId], at)] else e
    case Poll(start, now, at, end, _, polled) =>
      exists e1: map<TypeId, Entry> :: SkipsTo(e, start, now, e1) && EagerEnd(e1, types, now, at, end, polled, e')
  }

  lemma EndRefines(q: Queue, now: Instant, at: Instant, end: Instant, polled: Polled, q': Queue, types: set<TypeId>,
                   clock: Instant)
    requires Consistent(q, types, clock) && Ended(q, now, at, end, polled, q')
    ensures Consistent(q', types, clock)
    ensures EagerEnd(Effective(q, types), types, now, at, end, polled, Effective(q', types))
  {
    match polled
    case Idle =>
    case Sleep(wait) =>
      var i: nat :| LeastAt(q.heap, i) && q.heap[i].deadline == now + wait && 0 < wait;
      LeastIsLower(q, i, types, clock);
    case Popped(t') =>
      var i: nat :| Pop(q, now, at, end, i, t', q');
      PopRefines(q, now, at, end, i, t', q', types, clock);
  }

  /** Every call, and every poll, does on the lazy queue what it does on the eager one. */
  lemma StepRefines(q: Queue, e: Event, lo: Instant, hi: Instant, q': Queue, types: set<TypeId>)
    requires Consistent(q, types, lo) && Step(q, e, lo, hi, q', types)
    ensures Consistent(q', types, hi)
    ensures EagerStep(Effective(q, types), e, Effective(q', types), types)
  {
    match e
    case Push(t) =>
      ConsistentLater(q, types, lo, hi);
      PushRefines(q, t, types, hi);
    case Touch(typeId, at) =>
      TouchRefines(q, typeId, at, types, lo);
      ConsistentLater(q', types, at, hi);
    case Poll(start, now, at, end, path, polled) =>
      DeferralsRefine(path, start, now, types, lo);
      EndRefines(path[|path| - 1], now, at, end, polled, q', types, lo);
      ConsistentLater(q', types, lo, hi);
  }

  // ---------------------------------------------------------------------------
  // Whole runs
  // ---------------------------------------------------------------------------

  /** A run from the empty queue on a clock that never goes back. */
  ghost predicate Run(queues: seq<Queue>, events: seq<Event>, clock: seq<Instant>, types: set<TypeId>) {
    && |queues| == |clock| == |events| + 1
    && queues[0] == Queue([], map[])
    && forall i :: 0 <= i < |events| ==> StepAt(queues, events, clock, types, i)
  }

  ghost predicate StepAt(queues: seq<Queue>, events: seq<Event>, clock: seq<Instant>, types: set<TypeId>, i: nat)
    requires |queues| == |clock| == |events| + 1 && i < |events|
  {
    Step(queues[i], events[i], clock[i], clock[i + 1], queues[i + 1], types)
  }

  lemma {:induction false} RunIsConsistent(queues: seq<Queue>, events: seq<Event>, clock: seq<Instant>,
                                           types: set<TypeId>, n: nat)
    requires Run(queues, events, clock, types) && n <= |events|
    ensures Consistent(queues[n], types, clock[n])
  {
    if n > 0 {
      RunIsConsistent(queues, events, clock, types, n - 1);
      assert StepAt(queues, events, clock, types, n - 1);
      StepRefines(queues[n - 1], events[n - 1], clock[n - 1], clock[n], queues[n], types);
    }
  }

  /** Over any sequence of pushes, touches and polls the lazy timer queue behaves as the eager one on the types with one
      timer: a touch acts at once, a popped timer is due and the least, and no wait passes the earliest deadline. */
  lemma RunRefines(queues: seq<Queue>, events: seq<Event>, clock: seq<Instant>, types: set<TypeId>, n: nat)
    requires Run(queues, events, clock, types) && n < |events|
    ensures EagerStep(Effective(queues[n], types), events[n], Effective(queues[n + 1], types), types)
  {
    RunIsConsistent(queues, events, clock, types, n);
    assert StepAt(queues, events, clock, types, n);
    StepRefines(queues[n], events[n], clock[n], clock[n + 1], queues[n + 1], types);
  }

  // ---------------------------------------------------------------------------
  // The emitter loop
  // ---------------------------------------------------------------------------

  /** A step of the loop between two clock readings, on the eager queue: only touches, skipped occurrences and firings
      are seen. */
  ghost predicate EagerLoopStep(e: map<TypeId, Entry>, ev: E.Event, lo: Instant, hi: Instant, e': map<TypeId, Entry>,
                                types: set<TypeId>) {
    match ev
    case Touch(typeId, at) => e' == if typeId in e then e[typeId := Touched(e[typeId], at)] else e
    case Defer => Skips(e, lo, hi, e')
    case Fire(id, now, at) =>
      exists t: Timer, t': Timer ::
        && Runs(e, types, now, at, hi, t, t') && IdOf(t') == id
        && e' == if id.typeId in types then e[id.typeId := Entry(t', None)] else e
    case _ => e' == e
  }

  lemma FiredRefines(q1: Queue, t: Timer, t': Timer, e: map<TypeId, Entry>, id: Id, now: Instant, at: Instant,
                     lo: Instant, hi: Instant, types: set<TypeId>)
    requires Consistent(q1, types, at) && Fits(q1, t', types, at) && IdOf(t') == id
    requires Runs(e, types, now, at, hi, t, t')
    requires Effective(q1, types) == if t'.typeId in types then e - {t'.typeId} else e
    ensures var q' := Queue(q1.heap + [t'], q1.touched);
            && Consistent(q', types, at)
            && EagerLoopStep(e, E.Fire(id, now, at), lo, hi, Effective(q', types), types)
  {
    PushRefines(q1, t', types, at);
    PutBack(e, t'.typeId, Entry(t', None));
  }

  lemma FiringRefines(q: Queue, id: Id, now: Instant, at: Instant, lo: Instant, hi: Instant, q': Queue,
                      types: set<TypeId>)
    requires Consistent(q, types, lo) && E.Firing(q, id, now, at, hi, q') && lo <= at
    ensures Consistent(q', types, at)
    ensures EagerLoopStep(Effective(q, types), E.Fire(id, now, at), lo, hi, Effective(q', types), types)
  {
    var i: nat, t', q1 :| Pop(q, now, at, hi, i, t', q1) && IdOf(t') == id && q' == Queue(q1.heap + [t'], q1.touched);
    var e := Effective(q, types);
    PopRefines(q, now, at, hi, i, t', q1, types, lo);
    ConsistentLater(q1, types, lo, at);
    var t: Timer :| Runs(e, types, now, at, hi, t, t');
    FiredRefines(q1, t, t', e, id, now, at, lo, hi, types);
  }

  lemma LoopStepRefines(s: E.Loop, ev: E.Event, lo: Instant, hi: Instant, s': E.Loop, types: set<TypeId>)
    requires Consistent(s.queue, types, lo) && lo <= hi && E.Step(s, ev, lo, hi, s')
    ensures Consistent(s'.queue, types, hi)
    ensures EagerLoopStep(Effective(s.queue, types), ev, lo, hi, Effective(s'.queue, types), types)
  {
    match ev
    case Touch(typeId, at) =>
      TouchRefines(s.queue, typeId, at, types, lo);
      ConsistentLater(s'.queue, types, at, hi);
    case Fire(id, now, at) =>
      FiringRefines(s.queue, id, now, at, lo, hi, s'.queue, types);
      ConsistentLater(s'.queue, types, at, hi);
    case Defer =>
      DeferralRefines(s.queue, lo, hi, s'.queue, types, lo);
      ConsistentLater(s'.queue, types, lo, hi);
    case _ =>
      ConsistentLater(s.queue, types, lo, hi);
  }

  /** Types with one registration. */
  ghost predicate TypesOnce(ids: seq<Id>, types: set<TypeId>) {
    forall i :: 0 <= i < |ids| && ids[i].typeId in types ==> E.TypeOnce(ids, i)
  }

  lemma SetUpConsistent(q: Queue, ids: seq<Id>, now: Instant, types: set<TypeId>)
    requires E.SetUp(q, ids, now) && TypesOnce(ids, types)
    ensures Consistent(q, types, now)
  {
    forall ty | ty in types
      ensures Sound(q, ty, now)
    {
      forall i | 0 <= i < |q.heap| && q.heap[i].typeId == ty
        ensures Timely(q, q.heap[i], now)
        ensures forall j :: 0 <= j < |q.heap| && q.heap[j].typeId == ty ==> i == j
      {
        assert q.heap[i] == NewTimer(ids[i], q.heap[i].deadline);
        assert forall j :: 0 <= j < |q.heap| ==> q.heap[j] == NewTimer(ids[j], q.heap[j].deadline);
      }
    }
  }

  lemma {:induction false} LoopIsConsistent(states: seq<E.Loop>, events: seq<E.Event>, clock: seq<Instant>,
                                            ids: seq<Id>, types: set<TypeId>, n: nat)
    requires E.Run(states, events, clock) && n <= |events|
    requires E.SetUp(states[0].queue, ids, clock[0]) && TypesOnce(ids, types)
    ensures Consistent(states[n].queue, types, clock[n])
  {
    if n == 0 {
      SetUpConsistent(states[0].queue, ids, clock[0], types);
    } else {
      LoopIsConsistent(states, events, clock, ids, types, n - 1);
      assert E.StepAt(states, events, clock, n - 1);
      LoopStepRefines(states[n - 1], events[n - 1], clock[n - 1], clock[n], states[n], types);
    }
  }

  /** From the setup on, every run of the emitter loop is a run of the eager loop on the types registered once: a
      notification moves the deadline of an interval timer at once and has the pending occurrence of a cron timer
      skipped, and a firing is of the timer that is due first. */
  lemma LoopRunRefines(states: seq<E.Loop>, events: seq<E.Event>, clock: seq<Instant>, ids: seq<Id>,
                       types: set<TypeId>, n: nat)
    requires E.Run(states, events, clock) && n < |events|
    requires E.SetUp(states[0].queue, ids, clock[0]) && TypesOnce(ids, types)
    ensures EagerLoopStep(Effective(states[n].queue, types), events[n], clock[n], clock[n + 1],
                          Effective(states[n + 1].queue, types), types)
  {
    LoopIsConsistent(states, events, clock, ids, types, n);
    assert E.StepAt(states, events, clock, n);
    LoopStepRefines(states[n], events[n], clock[n], clock[n + 1], states[n + 1], types);
  }
}
