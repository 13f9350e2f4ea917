/**
  Resuming an activation alone (runtime/configuration_activation.py): whatever
  crashes came before, one controller that is not disturbed carries it to the end.
 */
module ActivationResume {
  import opened Wrappers
  import opened Revisions
  import opened SoloRuns
  import opened Activation
  import opened ActivationSaga

  /** What the controller needs: its bindings, matching readiness, and no failing stage. */
  predicate Capable(route: Route, r: Record) {
    (route.worker ==> route.workerBinding) && (route.schedules ==> route.scheduleBinding) && r.plan.scope == r.scope
  }

  predicate Matches(readiness: Readiness, plan: Plan) {
    && readiness.revision == plan.targetRevision && readiness.artifact == plan.targetArtifact
    && readiness.deploymentRegistration == plan.workerRegistration && readiness.definitions == plan.definitions
  }

  /** A step that succeeds: the lease outlives it, readiness is at hand, and no stage fails. */
  predicate Favourable(input: Input, owner: string, plan: Plan) {
    && input.owner == owner && input.expires > input.now && input.fault.None?
    && input.readiness.Some? && Matches(input.readiness.value, plan)
  }

  function RunSolo(route: Route, s: Store, pc: Pc, events: seq<SoloEvent<Input>>): (Store, Pc)
    decreases |events|
  {
    if events == [] then (s, pc)
    else
      var (s', pc') := if events[0].Tick? then Advance(route, s, pc, events[0].input) else (s, Idle);
      RunSolo(route, s', pc', events[1..])
  }

  predicate FavourableRun(events: seq<SoloEvent<Input>>, owner: string, plan: Plan) {
    forall i :: 0 <= i < |events| && events[i].Tick? ==>
      events[i].now == events[i].input.now && Favourable(events[i].input, owner, plan)
  }

  /** There is room in the history for the transitions that are left. */
  predicate HasRoom(r: Record) {
    |r.transitions| + (if r.state.Running? then 1 else 2) <= MAX_ACTIVATION_HISTORY
  }

  predicate Leasable(r: Record, owner: string, clock: int) {
    r.leaseOwner.None? || r.leaseOwner.value == owner || (r.leaseExpires.Some? && r.leaseExpires.value <= clock)
  }

  /** The pointer is still the one that the plan was made for, or already the one that it leads to. */
  predicate PointerReady(route: Route, s: Store) {
    s.pointer == route.expected || s.pointer == Some(Pointer(route.target, NextVersion(route)))
  }

  /** What crashed attempts of the controller can leave behind. */
  predicate Resumable(route: Route, s: Store, owner: string, clock: int) {
    && Sound(s.record) && Capable(route, s.record) && s.record.createdAt <= clock
    && PointerReady(route, s) && Leasable(s.record, owner, clock)
    && (s.record.state.Applied? || (!Terminal(s.record) && HasRoom(s.record)))
  }

  /** The controller holds the stored record, and what its position says of it is true. */
  predicate SoloInvariant(route: Route, s: Store, pc: Pc, owner: string, clock: int) {
    && Resumable(route, s, owner, clock)
    && match pc
       case Idle => true
       case Found(held) => held == s.record && !s.record.state.Applied?
       case Leased(held) => held == s.record && !s.record.state.Applied?
       case At(_, held) => held == s.record && s.record.state.Running?
       case Swapping(held) =>
         && held == s.record && s.record.state.Running? && s.pointer == route.expected
         && ActivePointer !in Kinds(held.checkpoints)
       case Confirming(kind, held, _, _) =>
         held == s.record && s.record.state.Running? && kind !in Kinds(held.checkpoints)
       case Finishing(held) => held == s.record && s.record.state.Running?
       case _ => false
  }

  function StepsLeft(route: Route, s: Store, pc: Pc): nat {
    match pc
    case Idle => if s.record.state.Applied? then 0 else 24
    case Found(_) => 23
    case Leased(held) => if held.readiness.None? then 22 else 21
    case At(kind, held) =>
      (match kind
       case Definitions => 20
       case WorkerRollout => 18
       case WorkerReadiness => if held.readiness.None? then 16 else 15
       case Schedules => 13
       case CatalogRouting => 11
       case WorkerRouting => 9
       case ActivePointer => 7
       case RuntimeIndex => 4)
    case Swapping(_) => 6
    case Confirming(kind, _, _, _) =>
      (match kind
       case Definitions => 19
       case WorkerRollout => 17
       case WorkerReadiness => 14
       case Schedules => 12
       case CatalogRouting => 10
       case WorkerRouting => 8
       case ActivePointer => 5
       case RuntimeIndex => 3)
    case Finishing(_) => 2
    case _ => 1
  }

  predicate StepAdvances(route: Route, s: Store, pc: Pc, owner: string, input: Input) {
    var (s', pc') := Advance(route, s, pc, input);
    && SoloInvariant(route, s', pc', owner, input.now) && s'.record.plan == s.record.plan
    && StepsLeft(route, s', pc') <= (if StepsLeft(route, s, pc) == 0 then 0 else StepsLeft(route, s, pc) - 1)
  }

  /** An operation whose guards pass is stored, since the controller holds the stored record. */
  lemma GuardedUpdateSucceeds(s: Store, op: Operation, now: int)
    requires Sound(s.record) && now >= s.record.createdAt && Refusal(s.record, op, now).None? && !IsRepeat(s.record, op)
    ensures
      var updated := Updated(s.record, op, now);
      Update(s, s.record, op, now) == Some((s.(record := updated), updated)) && Sound(updated)
  {
    ValidatorRejectsOnlyClockErrors(s.record, op, now);
    ApplyKeepsSound(s.record, op, now);
  }

  lemma FoundAdvances(route: Route, s: Store, pc: Pc, owner: string, clock: int, input: Input)
    requires SoloInvariant(route, s, pc, owner, clock) && Favourable(input, owner, s.record.plan) && input.now >= clock
    requires pc.Found?
    ensures StepAdvances(route, s, pc, owner, input)
  {
    GuardedUpdateSucceeds(s, AcquireLease(owner, input.expires), input.now);
  }

  lemma LeasedAdvances(route: Route, s: Store, pc: Pc, owner: string, clock: int, input: Input)
    requires SoloInvariant(route, s, pc, owner, clock) && Favourable(input, owner, s.record.plan) && input.now >= clock
    requires pc.Leased?
    ensures StepAdvances(route, s, pc, owner, input)
  {
    if s.record.state.WaitingForReadiness? && s.record.readiness.None? {
      GuardedUpdateSucceeds(s, RegisterReadiness(input.readiness.value), input.now);
    } else if !s.record.state.Running? {
      StartAdvances(route, s, pc, owner, clock, input);
    }
  }

  lemma StartAdvances(route: Route, s: Store, pc: Pc, owner: string, clock: int, input: Input)
    requires SoloInvariant(route, s, pc, owner, clock) && Favourable(input, owner, s.record.plan) && input.now >= clock
    requires pc.Leased? && !s.record.state.Running?
    requires !(s.record.state.WaitingForReadiness? && s.record.readiness.None?)
    ensures StepAdvances(route, s, pc, owner, input)
  {
    GuardedUpdateSucceeds(s, Transit(Running, None, false), input.now);
  }

  lemma RegistrationAdvances(route: Route, s: Store, pc: Pc, owner: string, clock: int, input: Input)
    requires SoloInvariant(route, s, pc, owner, clock) && Favourable(input, owner, s.record.plan) && input.now >= clock
    requires pc == At(WorkerReadiness, s.record) && route.worker && s.record.readiness.None?
    ensures StepAdvances(route, s, pc, owner, input)
  {
    GuardedUpdateSucceeds(s, RegisterReadiness(input.readiness.value), input.now);
  }

  /** A stage that writes no record keeps what crashed attempts can leave behind. */
  lemma PointerStepIsResumable(route: Route, s: Store, s': Store, owner: string, clock: int, now: int)
    requires Resumable(route, s, owner, clock) && now >= clock && s'.record == s.record && PointerReady(route, s')
    ensures Resumable(route, s', owner, now)
  {
  }

  lemma StageAdvances(route: Route, s: Store, pc: Pc, owner: string, clock: int, input: Input)
    requires SoloInvariant(route, s, pc, owner, clock) && Favourable(input, owner, s.record.plan) && input.now >= clock
    requires pc.At? || pc.Swapping?
    ensures StepAdvances(route, s, pc, owner, input)
  {
    if pc.At? && pc.kind.WorkerReadiness? && route.worker && s.record.readiness.None? {
      RegistrationAdvances(route, s, pc, owner, clock, input);
    } else {
      var s' := Advance(route, s, pc, input).0;
      if pc.At? {
        ActingStage(route, s, pc.kind, owner, clock, input);
        NextStageIsNearer(route, s, s', pc.kind, s.record);
      } else {
        assert PointerReady(route, s');
      }
      PointerStepIsResumable(route, s, s', owner, clock, input.now);
    }
  }

  lemma ActingStage(route: Route, s: Store, kind: CheckpointKind, owner: string, clock: int, input: Input)
    requires Resumable(route, s, owner, clock)
    requires !(kind.WorkerReadiness? && route.worker && s.record.readiness.None?)
    ensures
      var (s', pc') := Stage(route, s, kind, s.record, input);
      && s' == s.(confirmed := s'.confirmed)
      && (|| pc' == NextStage(kind, s.record)
          || (pc' == Confirming(kind, s.record, input.outcome, input.digest) && kind !in Kinds(s.record.checkpoints))
          || (kind.ActivePointer? && pc' == Swapping(s.record) && s.pointer == route.expected
              && kind !in Kinds(s.record.checkpoints)))
  {
  }

  lemma CheckpointAdvances(route: Route, s: Store, pc: Pc, owner: string, clock: int, input: Input)
    requires SoloInvariant(route, s, pc, owner, clock) && Favourable(input, owner, s.record.plan) && input.now >= clock
    requires pc.Confirming?
    ensures StepAdvances(route, s, pc, owner, input)
  {
    var op := RecordCheckpoint(pc.kind, pc.outcome, pc.digest);
    GuardedUpdateSucceeds(s, op, input.now);
    var s' := s.(record := Updated(s.record, op, input.now));
    CheckpointedIsResumable(route, s, s', owner, clock, input.now);
    NextStageIsNearer(route, s, s', pc.kind, s'.record);
  }

  lemma CheckpointedIsResumable(route: Route, s: Store, s': Store, owner: string, clock: int, now: int)
    requires Resumable(route, s, owner, clock) && s.record.state.Running? && now >= clock && Sound(s'.record)
    requires s' == s.(record := s.record.(
      checkpoints := s'.record.checkpoints, version := s'.record.version, updatedAt := s'.record.updatedAt))
    ensures Resumable(route, s', owner, now) && s'.record.state.Running? && s'.record.readiness == s.record.readiness
  {
  }

  /** The stage after `kind` has fewer steps left, whether `kind` was skipped or confirmed. */
  lemma NextStageIsNearer(route: Route, s: Store, s': Store, kind: CheckpointKind, held: Record)
    requires held == s'.record && held.readiness == s.record.readiness
    ensures
      var pc := NextStage(kind, held);
      && (pc.At? || pc.Finishing?) && pc.held == held
      && StepsLeft(route, s', pc) < StepsLeft(route, s, At(kind, s.record))
      && forall outcome, digest ::
           StepsLeft(route, s', pc) < StepsLeft(route, s, Confirming(kind, s.record, outcome, digest))
                                    < StepsLeft(route, s, At(kind, s.record))
  {
  }

  lemma FinishingApplies(route: Route, s: Store, pc: Pc, owner: string, clock: int, input: Input)
    requires SoloInvariant(route, s, pc, owner, clock) && Favourable(input, owner, s.record.plan) && input.now >= clock
    requires pc.Finishing?
    ensures StepAdvances(route, s, pc, owner, input)
  {
    GuardedUpdateSucceeds(s, Transit(Applied, None, true), input.now);
  }

  lemma StepIsProgress(route: Route, s: Store, pc: Pc, owner: string, clock: int, input: Input)
    requires SoloInvariant(route, s, pc, owner, clock) && Favourable(input, owner, s.record.plan) && input.now >= clock
    ensures StepAdvances(route, s, pc, owner, input)
  {
    match pc {
      case Found(_) => FoundAdvances(route, s, pc, owner, clock, input);
      case Leased(_) => LeasedAdvances(route, s, pc, owner, clock, input);
      case At(_, _) => StageAdvances(route, s, pc, owner, clock, input);
      case Swapping(_) => StageAdvances(route, s, pc, owner, clock, input);
      case Confirming(_, _, _, _) => CheckpointAdvances(route, s, pc, owner, clock, input);
      case Finishing(_) => FinishingApplies(route, s, pc, owner, clock, input);
      case _ =>
    }
  }

  lemma {:induction false} RunIsProgress(
    route: Route, s: Store, pc: Pc, owner: string, clock: int, plan: Plan, events: seq<SoloEvent<Input>>)
    requires SoloInvariant(route, s, pc, owner, clock) && s.record.plan == plan
    requires Monotone(events, clock) && FavourableRun(events, owner, plan)
    ensures
      var (s', pc') := RunSolo(route, s, pc, events);
      SoloInvariant(route, s', pc', owner, FinalClock(events, clock)) && s'.record.plan == plan
    ensures (forall i :: 0 <= i < |events| ==> events[i].Tick?) && |events| >= StepsLeft(route, s, pc) ==>
      var (s', pc') := RunSolo(route, s, pc, events);
      StepsLeft(route, s', pc') == 0
    decreases |events|
  {
    if events != [] {
      assert FavourableRun(events[1..], owner, plan) by {
        assert forall i :: 0 <= i < |events| - 1 ==> events[1..][i] == events[i + 1];
      }
      if events[0].Tick? {
        StepIsProgress(route, s, pc, owner, clock, events[0].input);
        var (s', pc') := Advance(route, s, pc, events[0].input);
        RunIsProgress(route, s', pc', owner, events[0].now, plan, events[1..]);
      } else {
        RunIsProgress(route, s, Idle, owner, clock, plan, events[1..]);
      }
    }
  }

  /**
    However often the controller crashed, at whatever step, resuming applies the
    activation within twenty-four undisturbed steps.
   */
  lemma ResumeAfterAnyCrashApplies(
    route: Route, s: Store, owner: string, clock: int, crashed: seq<SoloEvent<Input>>, final: seq<SoloEvent<Input>>)
    requires Resumable(route, s, owner, clock)
    requires Monotone(crashed, clock) && FavourableRun(crashed, owner, s.record.plan)
    requires Monotone(final, FinalClock(crashed, clock)) && FavourableRun(final, owner, s.record.plan)
    requires |final| >= 24 && forall i :: 0 <= i < |final| ==> final[i].Tick?
    ensures
      var s1 := RunSolo(route, s, Idle, crashed).0;
      RunSolo(route, s1, Idle, final).0.record.state.Applied?
  {
    RunIsProgress(route, s, Idle, owner, clock, s.record.plan, crashed);
    FinalRunApplies(route, RunSolo(route, s, Idle, crashed).0, owner, FinalClock(crashed, clock), final);
  }

  lemma FinalRunApplies(route: Route, s: Store, owner: string, clock: int, final: seq<SoloEvent<Input>>)
    requires Resumable(route, s, owner, clock) && Monotone(final, clock) && FavourableRun(final, owner, s.record.plan)
    requires |final| >= 24 && forall i :: 0 <= i < |final| ==> final[i].Tick?
    ensures RunSolo(route, s, Idle, final).0.record.state.Applied?
  {
    RunIsProgress(route, s, Idle, owner, clock, s.record.plan, final);
  }

  /** A fresh activation is resumable, as long as the pointer it was planned for is in place. */
  lemma FreshIsResumable(route: Route, scope: string, plan: Plan, owner: string, now: int)
    requires plan.scope == scope && Capable(route, Fresh(scope, plan, now))
    ensures Resumable(route, Begin(scope, plan, now, route.expected).store, owner, now)
  {
    FreshIsSound(scope, plan, now);
  }
}
