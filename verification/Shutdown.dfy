/** The shutdown protocol (vyuh/src/watch.rs, and the serving and draining loops of vyuh/src/site.rs) as a step
    system. Times are in milliseconds. A `select!` takes any ready branch; a ready branch is taken before the clock
    moves on. */
module Shutdown {
  import opened Wrappers

  const DRAIN_POLL := 10

  datatype Source = Programmatic | CtrlC | Terminate | TouchReload

  /** The background future that turns the end of the grace period into a forced shutdown. */
  datatype Monitor = NotSpawned | Armed(since: nat) | Off

  /** Where `serve_listener` is. */
  datatype Phase =
    | Serving
    | DrainCheck
    | DrainWait(wake: nat)
    | Completing
    | Aborting
    | Stopped
    | Failed

  datatype State = State(
    now: nat,
    graceful: bool,
    forced: bool,
    done: bool,
    monitor: Monitor,
    phase: Phase,
    connections: nat,
    tasks: nat,
    started: Option<nat>,
    seenEmpty: bool,
    interrupted: bool)

  datatype Event =
    | Request
    | Open
    | Close
    | SpawnTask
    | EndTask
    | ServerError
    | FirstSource(source: Source)
    | SecondInterrupt
    | MonitorDone
    | MonitorTimeout
    | ServerDone
    | SeeForced
    | CheckTasks
    | DrainForced
    | DrainWake
    | Complete
    | Abort
    | Tick(elapsed: nat)

  function Init(tasks: nat): State {
    State(0, false, false, false, NotSpawned, Serving, 0, tasks, None, false, false)
  }

  predicate Finished(s: State) {
    s.phase == Stopped || s.phase == Failed
  }

  /** Some branch is ready, so the clock cannot move. */
  predicate Ready(s: State, grace: nat) {
    || (s.started.None? && s.graceful)
    || (s.monitor.Armed? && (s.done || s.now >= s.monitor.since + grace))
    || (s.phase == Serving && (s.forced || (s.started.Some? && s.connections == 0)))
    || s.phase == DrainCheck || s.phase == Completing || s.phase == Aborting
    || (s.phase.DrainWait? && (s.forced || s.now >= s.phase.wake))
  }

  predicate Enabled(s: State, e: Event, grace: nat) {
    match e
    case Request => true
    case Open => s.phase == Serving && s.started.None?
    case Close => s.connections > 0
    case SpawnTask => !s.seenEmpty && !Finished(s)
    case EndTask => s.tasks > 0
    case ServerError => s.phase == Serving
    case FirstSource(source) => s.started.None? && (source == Programmatic ==> s.graceful)
    case SecondInterrupt => s.monitor.Armed?
    case MonitorDone => s.monitor.Armed? && s.done
    case MonitorTimeout => s.monitor.Armed? && s.now >= s.monitor.since + grace
    case ServerDone => s.phase == Serving && s.started.Some? && s.connections == 0
    case SeeForced => s.phase == Serving && s.forced
    case CheckTasks => s.phase == DrainCheck
    case DrainForced => s.phase.DrainWait? && s.forced
    case DrainWake => s.phase.DrainWait? && s.now >= s.phase.wake
    case Complete => s.phase == Completing
    case Abort => s.phase == Aborting
    case Tick(elapsed) =>
      && !Ready(s, grace) && elapsed > 0
      && (s.monitor.Armed? ==> s.now + elapsed <= s.monitor.since + grace)
      && (s.phase.DrainWait? ==> s.now + elapsed <= s.phase.wake)
  }

  function Next(s: State, e: Event): State
    requires e == Close ==> s.connections > 0
    requires e == EndTask ==> s.tasks > 0
  {
    match e
    case Request => s.(graceful := true)
    case Open => s.(connections := s.connections + 1)
    case Close => s.(connections := s.connections - 1)
    case SpawnTask => s.(tasks := s.tasks + 1)
    case EndTask => s.(tasks := s.tasks - 1)
    case ServerError => s.(phase := Failed)
    case FirstSource(_) => s.(graceful := true, monitor := Armed(s.now), started := Some(s.now))
    case SecondInterrupt => s.(forced := true, monitor := Off, interrupted := true)
    case MonitorDone => s.(monitor := Off)
    case MonitorTimeout => s.(forced := true, monitor := Off)
    case ServerDone => s.(phase := DrainCheck)
    case SeeForced => s.(phase := Aborting)
    case CheckTasks =>
      if s.tasks == 0 then s.(phase := Completing, seenEmpty := true) else s.(phase := DrainWait(s.now + DRAIN_POLL))
    case DrainForced => s.(phase := Completing)
    case DrainWake => s.(phase := DrainCheck)
    case Complete => s.(done := true, phase := Aborting)
    case Abort => s.(phase := Stopped, tasks := 0)
    case Tick(elapsed) => s.(now := s.now + elapsed)
  }

  predicate Step(s: State, e: Event, s': State, grace: nat) {
    Enabled(s, e, grace) && s' == Next(s, e)
  }

  // ---------------------------------------------------------------------------
  // What every reachable state satisfies
  // ---------------------------------------------------------------------------

  /** A shutdown is forced only after it was requested, and, without a second interrupt, not before the grace period
      is over. */
  predicate ForcedIsJustified(s: State, grace: nat) {
    s.forced ==> s.graceful && s.started.Some? && (!s.interrupted ==> s.now >= s.started.value + grace)
  }

  /** The runtime is only aborted when its background work was seen to be finished and none is left, or the shutdown
      was forced. */
  predicate AbortIsJustified(s: State) {
    s.phase in {Completing, Aborting, Stopped} ==> (s.seenEmpty && s.tasks == 0) || s.forced
  }

  /** From the first source on, the site is stopped no later than the grace deadline. */
  predicate StopsInTime(s: State, grace: nat) {
    s.started.Some? && !Finished(s) ==> s.now <= s.started.value + grace
  }

  /** Draining begins when the server has no connection left, looks at the background work at least every ten
      milliseconds, and a shutdown that was not forced went through all of it; no work outlives the site. */
  predicate DrainsInOrder(s: State) {
    && (s.phase in {DrainCheck, Completing} || s.phase.DrainWait? || s.done ==> s.connections == 0)
    && (s.phase.DrainWait? ==> s.phase.wake <= s.now + 10)
    && (s.phase in {Aborting, Stopped} && !s.forced ==> s.done && s.connections == 0)
    && (s.phase == Stopped ==> s.tasks == 0)
  }

  predicate Inductive(s: State, grace: nat) {
    && ForcedIsJustified(s, grace) && AbortIsJustified(s) && StopsInTime(s, grace) && DrainsInOrder(s)
    && (s.started.None? <==> s.monitor.NotSpawned?)
    && (s.started.Some? ==> s.graceful && s.started.value <= s.now)
    && (s.started.None? ==> s.phase == Serving || s.phase == Failed)
    && (s.monitor.Armed? ==> s.started == Some(s.monitor.since))
    && (s.monitor.Off? ==> s.forced || s.done)
    && (s.done ==> s.phase == Aborting || s.phase == Stopped)
    && (s.interrupted ==> s.forced)
    && (s.seenEmpty ==> s.tasks == 0)
  }

  lemma EnvironmentKeepsInductive(s: State, e: Event, s': State, grace: nat)
    requires Inductive(s, grace) && Step(s, e, s', grace)
    requires e in {Request, Open, Close, SpawnTask, EndTask, ServerError}
    ensures Inductive(s', grace)
  {
  }

  lemma MonitorKeepsInductive(s: State, e: Event, s': State, grace: nat)
    requires Inductive(s, grace) && Step(s, e, s', grace)
    requires e.FirstSource? || e in {SecondInterrupt, MonitorDone, MonitorTimeout}
    ensures Inductive(s', grace)
  {
  }

  lemma ServerKeepsInductive(s: State, e: Event, s': State, grace: nat)
    requires Inductive(s, grace) && Step(s, e, s', grace)
    requires e in {ServerDone, SeeForced, CheckTasks, DrainForced, DrainWake, Complete, Abort}
    ensures Inductive(s', grace)
  {
  }

  lemma TickKeepsInductive(s: State, elapsed: nat, s': State, grace: nat)
    requires Inductive(s, grace) && Step(s, Tick(elapsed), s', grace)
    ensures Inductive(s', grace)
  {
  }

  lemma StepKeepsInductive(s: State, e: Event, s': State, grace: nat)
    requires Inductive(s, grace) && Step(s, e, s', grace)
    ensures Inductive(s', grace)
  {
    if e.Tick? {
      TickKeepsInductive(s, e.elapsed, s', grace);
    } else if e.FirstSource? || e in {SecondInterrupt, MonitorDone, MonitorTimeout} {
      MonitorKeepsInductive(s, e, s', grace);
    } else if e in {Request, Open, Close, SpawnTask, EndTask, ServerError} {
      EnvironmentKeepsInductive(s, e, s', grace);
    } else {
      ServerKeepsInductive(s, e, s', grace);
    }
  }

  ghost predicate Run(states: seq<State>, events: seq<Event>, tasks: nat, grace: nat) {
    && |states| == |events| + 1 && states[0] == Init(tasks)
    && forall i :: 0 <= i < |events| ==> StepAt(states, events, grace, i)
  }

  ghost predicate StepAt(states: seq<State>, events: seq<Event>, grace: nat, i: nat)
    requires |states| == |events| + 1 && i < |events|
  {
    Step(states[i], events[i], states[i + 1], grace)
  }

  lemma {:induction false} RunIsInductive(states: seq<State>, events: seq<Event>, tasks: nat, grace: nat, n: nat)
    requires Run(states, events, tasks, grace) && n <= |events|
    ensures Inductive(states[n], grace)
  {
    if n > 0 {
      RunIsInductive(states, events, tasks, grace, n - 1);
      assert StepAt(states, events, grace, n - 1);
      StepKeepsInductive(states[n - 1], events[n - 1], states[n], grace);
    }
  }

  /** The safety of the protocol in every state of every run. */
  lemma ShutdownIsSafe(states: seq<State>, events: seq<Event>, tasks: nat, grace: nat, n: nat)
    requires Run(states, events, tasks, grace) && n <= |events|
    ensures ForcedIsJustified(states[n], grace)
    ensures AbortIsJustified(states[n])
    ensures StopsInTime(states[n], grace)
    ensures DrainsInOrder(states[n])
  {
    RunIsInductive(states, events, tasks, grace, n);
  }

  // ---------------------------------------------------------------------------
  // Every fair run stops
  // ---------------------------------------------------------------------------

  /** The steps the environment takes on its own; a run in which nothing else happens is not fair. */
  predicate Environment(e: Event) {
    e in {Request, Open, Close, SpawnTask, EndTask}
  }

  function PhaseRank(s: State): nat {
    match s.phase
    case Serving => 6
    case DrainCheck => 4
    case DrainWait(wake) => if s.now < wake then 3 else 5
    case Completing => 2
    case Aborting => 1
    case Stopped => 0
    case Failed => 0
  }

  /** How much of the shutdown is still to come once it has started. */
  function Rank(s: State, grace: nat): nat
    requires s.started.Some?
  {
    if Finished(s) then 0
    else
      (if s.now <= s.started.value + grace then 8 * (s.started.value + grace - s.now) else 0)
      + PhaseRank(s) + if s.monitor.Armed? then 1 else 0
  }

  lemma EnvironmentRanks(s: State, e: Event, s': State, grace: nat)
    requires Inductive(s, grace) && Step(s, e, s', grace) && s.started.Some? && !Finished(s) && Environment(e)
    ensures s'.started == s.started && Rank(s', grace) <= Rank(s, grace)
  {
  }

  lemma TickRanks(s: State, elapsed: nat, s': State, grace: nat)
    requires Inductive(s, grace) && Step(s, Tick(elapsed), s', grace) && s.started.Some? && !Finished(s)
    ensures s'.started == s.started && Rank(s', grace) < Rank(s, grace)
  {
  }

  lemma ProtocolRanks(s: State, e: Event, s': State, grace: nat)
    requires Inductive(s, grace) && Step(s, e, s', grace) && s.started.Some? && !Finished(s)
    requires !Environment(e) && !e.Tick?
    ensures s'.started == s.started && Rank(s', grace) < Rank(s, grace)
  {
  }

  /** Every step of the protocol or of the clock brings the end nearer, and no step of the environment puts it off. */
  lemma StepRanks(s: State, e: Event, s': State, grace: nat)
    requires Inductive(s, grace) && Step(s, e, s', grace) && s.started.Some? && !Finished(s)
    ensures s'.started == s.started
    ensures Environment(e) ==> Rank(s', grace) <= Rank(s, grace)
    ensures !Environment(e) ==> Rank(s', grace) < Rank(s, grace)
  {
    if Environment(e) {
      EnvironmentRanks(s, e, s', grace);
    } else if e.Tick? {
      TickRanks(s, e.elapsed, s', grace);
    } else {
      ProtocolRanks(s, e, s', grace);
    }
  }

  lemma FinishedStays(s: State, e: Event, s': State, grace: nat)
    requires Step(s, e, s', grace) && Finished(s)
    ensures Finished(s')
  {
  }

  function OwnSteps(events: seq<Event>): nat {
    if events == [] then 0
    else OwnSteps(events[..|events| - 1]) + if Environment(events[|events| - 1]) then 0 else 1
  }

  /** In state t, own steps after s, the shutdown is over or that much nearer its end. */
  predicate Nearer(s: State, own: nat, t: State, grace: nat)
    requires s.started.Some?
  {
    Finished(t) || (t.started == s.started && Rank(t, grace) + own <= Rank(s, grace))
  }

  lemma StepIsNearer(s: State, own: nat, t: State, e: Event, t': State, grace: nat)
    requires Inductive(t, grace) && s.started.Some? && Nearer(s, own, t, grace) && Step(t, e, t', grace)
    ensures Nearer(s, own + if Environment(e) then 0 else 1, t', grace)
  {
    if Finished(t) {
      FinishedStays(t, e, t', grace);
    } else {
      StepRanks(t, e, t', grace);
    }
  }

  lemma {:induction false} RunIsNearer(states: seq<State>, events: seq<Event>, tasks: nat, grace: nat, k: nat, n: nat)
    requires Run(states, events, tasks, grace) && k <= n <= |events| && states[k].started.Some?
    ensures Nearer(states[k], OwnSteps(events[k..n]), states[n], grace)
  {
    if k < n {
      RunIsNearer(states, events, tasks, grace, k, n - 1);
      RunIsInductive(states, events, tasks, grace, n - 1);
      assert events[k..n][..n - 1 - k] == events[k..n - 1];
      assert StepAt(states, events, grace, n - 1);
      StepIsNearer(states[k], OwnSteps(events[k..n - 1]), states[n - 1], events[n - 1], states[n], grace);
    } else {
      assert events[k..n] == [];
    }
  }

  /** A run that goes on after the first source stops within a number of its own steps fixed by the grace period. */
  lemma FairRunStops(states: seq<State>, events: seq<Event>, tasks: nat, grace: nat, k: nat, n: nat)
    requires Run(states, events, tasks, grace) && k <= n <= |events| && states[k].started.Some?
    requires OwnSteps(events[k..n]) > 8 * grace + 7
    ensures Finished(states[n])
  {
    RunIsInductive(states, events, tasks, grace, k);
    RunIsNearer(states, events, tasks, grace, k, n);
  }

  /** Such a run can always go on: until the site has stopped, the protocol or the clock has a step to take. */
  lemma NeverStuck(s: State, grace: nat)
    requires Inductive(s, grace) && s.started.Some? && !Finished(s)
    ensures exists e, s' :: !Environment(e) && e != SecondInterrupt && e != ServerError && Step(s, e, s', grace)
  {
    var e :=
      if s.monitor.Armed? && s.done then MonitorDone
      else if s.monitor.Armed? && s.now >= s.monitor.since + grace then MonitorTimeout
      else match s.phase
        case Serving => if s.forced then SeeForced else if s.connections == 0 then ServerDone else Tick(1)
        case DrainCheck => CheckTasks
        case DrainWait(wake) => if s.forced then DrainForced else if s.now >= wake then DrainWake else Tick(1)
        case Completing => Complete
        case _ => Abort;
    assert Step(s, e, Next(s, e), grace);
  }
}
