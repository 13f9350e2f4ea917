/**
  Carrying out an activation (resume in runtime/configuration_activation.py): a
  saga over the catalog, the workers, the schedules, the active pointer and the
  runtime index, which records a checkpoint after every stage.

  Any number of controllers may be inside it, one request at a time; each can
  crash, fail or lose its lease at any point and start again.  What an external
  system answers, and whether a stage fails, is part of a step's input.
 */
module ActivationSaga {
  import opened Wrappers
  import opened Revisions
  import opened Activation

  /** The actions of the plan, the pointer it was made against, and which bindings the controller has. */
  datatype Route = Route(
    worker: bool, schedules: bool, definitions: bool, routing: bool,
    target: RevisionId, expected: Option<Pointer>,
    workerBinding: bool, scheduleBinding: bool)

  function NextVersion(route: Route): int {
    if route.expected.Some? then route.expected.value.version + 1 else 1
  }

  /** The position of a stage in the saga. */
  function Rank(kind: CheckpointKind): nat {
    match kind
    case Definitions => 0
    case WorkerRollout => 1
    case WorkerReadiness => 2
    case Schedules => 3
    case CatalogRouting => 4
    case WorkerRouting => 5
    case ActivePointer => 6
    case RuntimeIndex => 7
  }

  const STAGES := 8

  /** The stages whose checkpoint the plan calls for; a rollout is skipped where the workers are known to be ready. */
  predicate Needed(route: Route, kind: CheckpointKind) {
    match kind
    case WorkerRollout => false
    case Schedules => route.schedules
    case CatalogRouting => route.definitions
    case WorkerRouting => route.routing
    case _ => true
  }

  /** `confirmed` logs every external operation that was performed or found done; `history` is the pointer's. */
  datatype Store = Store(
    record: Record, pointer: Option<Pointer>, history: map<int, RevisionId>, swaps: nat, confirmed: seq<CheckpointKind>)

  datatype Pc =
    | Idle
    | Found(held: Record)
    | Leased(held: Record)
    | At(kind: CheckpointKind, held: Record)
    | Swapping(held: Record)
    | Confirming(kind: CheckpointKind, held: Record, outcome: ExternalOutcome, digest: string)
    | Finishing(held: Record)
    | Ending(state: State, code: OutcomeCode)
    | Settling(held: Record, state: State, code: OutcomeCode)

  /** How a stage fails: a conflict of the configuration or the catalog supersedes the activation. */
  datatype Fault = Fault(supersedes: bool, code: OutcomeCode)

  /** What a step sees of the outside. */
  datatype Input = Input(
    now: int, owner: string, expires: int, readiness: Option<Readiness>,
    outcome: ExternalOutcome, digest: string, fault: Option<Fault>)

  predicate Terminal(r: Record) {
    r.state.Applied? || r.state.Superseded? || r.state.RolledBack?
  }

  function End(fault: Fault): Pc {
    Ending(if fault.supersedes then Superseded else Failed, fault.code)
  }

  /** Applies one operation to the held record and stores the result over the version it was computed from. */
  function Update(s: Store, held: Record, op: Operation, now: int): Option<(Store, Record)> {
    var applied := Apply(held, op, now);
    if applied.Failure? then None
    else if applied.value == held then Some((s, held))
    else if s.record.version != held.version || applied.value.version != held.version + 1 then None
    else Some((s.(record := applied.value), applied.value))
  }

  function HasCheckpoint(r: Record, kind: CheckpointKind): bool {
    FindCheckpoint(r.checkpoints, kind).Some?
  }

  function NextStage(kind: CheckpointKind, held: Record): Pc {
    match kind
    case Definitions => At(WorkerRollout, held)
    case WorkerRollout => At(WorkerReadiness, held)
    case WorkerReadiness => At(Schedules, held)
    case Schedules => At(CatalogRouting, held)
    case CatalogRouting => At(WorkerRouting, held)
    case WorkerRouting => At(ActivePointer, held)
    case ActivePointer => At(RuntimeIndex, held)
    case RuntimeIndex => Finishing(held)
  }

  /** The external operation of a stage is done; its checkpoint comes next. */
  function Confirm(s: Store, kind: CheckpointKind, held: Record, input: Input): (Store, Pc) {
    (s.(confirmed := s.confirmed + [kind]), Confirming(kind, held, input.outcome, input.digest))
  }

  /** Readiness is outstanding: the lease is given up until someone registers it. */
  function Wait(s: Store, held: Record, input: Input): (Store, Pc) {
    var op := if held.state.WaitingForReadiness? then ReleaseLease(input.owner) else Transit(WaitingForReadiness, None, true);
    var updated := if held.state.WaitingForReadiness? && held.leaseOwner.None? then None else Update(s, held, op, input.now);
    (if updated.Some? then updated.value.0 else s, Idle)
  }

  function StartOrResume(s: Store, held: Record, input: Input): (Store, Pc) {
    if held.state.Running? then (s, At(Definitions, held))
    else if held.state.WaitingForReadiness? && held.readiness.None? then
      if input.readiness.None? then Wait(s, held, input)
      else
        var updated := Update(s, held, RegisterReadiness(input.readiness.value), input.now);
        if updated.Some? then (updated.value.0, Leased(updated.value.1)) else (s, Idle)
    else
      var updated := Update(s, held, Transit(Running, None, false), input.now);
      if updated.Some? then (updated.value.0, At(Definitions, updated.value.1)) else (s, Idle)
  }

  /** One stage: skipped where it has its checkpoint or the plan does not call for it. */
  function Stage(route: Route, s: Store, kind: CheckpointKind, held: Record, input: Input): (Store, Pc) {
    if kind.WorkerRollout? then
      if !route.worker || held.readiness.Some? || HasCheckpoint(held, WorkerRollout) then (s, NextStage(kind, held))
      else if !route.workerBinding then Wait(s, held, input)
      else Confirm(s, kind, held, input)
    else if kind.WorkerReadiness? && route.worker && held.readiness.None? then
      if input.readiness.None? then Wait(s, held, input)
      else
        var updated := Update(s, held, RegisterReadiness(input.readiness.value), input.now);
        if updated.Some? then (updated.value.0, At(kind, updated.value.1)) else (s, Idle)
    else if !Needed(route, kind) || HasCheckpoint(held, kind) then (s, NextStage(kind, held))
    else if kind.Schedules? && !route.scheduleBinding then (s, End(Fault(false, SchedulesUnavailable)))
    else if kind.ActivePointer? then
      if s.pointer == Some(Pointer(route.target, NextVersion(route))) then Confirm(s, kind, held, input)
      else (s, Swapping(held))
    else Confirm(s, kind, held, input)
  }

  /** The compare-and-swap of the active pointer against the pointer that the plan was made for. */
  function SwapPointer(route: Route, s: Store, held: Record, input: Input): (Store, Pc) {
    if s.pointer == route.expected then
      var version := NextVersion(route);
      Confirm(
        s.(pointer := Some(Pointer(route.target, version)), history := s.history[version := route.target], swaps := s.swaps + 1),
        ActivePointer, held, input)
    else
      (s, End(Fault(true, ConfigurationConflict)))
  }

  function Advance(route: Route, s: Store, pc: Pc, input: Input): (Store, Pc) {
    match pc
    case Idle => (s, if Terminal(s.record) then Idle else Found(s.record))
    case Found(held) =>
      var updated := Update(s, held, AcquireLease(input.owner, input.expires), input.now);
      if updated.Some? then (updated.value.0, Leased(updated.value.1)) else (s, Idle)
    case Leased(held) =>
      if input.fault.Some? then (s, End(input.fault.value))
      else StartOrResume(s, held, input)
    case At(kind, held) =>
      if input.fault.Some? then (s, End(input.fault.value))
      else Stage(route, s, kind, held, input)
    case Swapping(held) =>
      if input.fault.Some? then (s, End(input.fault.value))
      else SwapPointer(route, s, held, input)
    case Confirming(kind, held, outcome, digest) =>
      var updated := Update(s, held, RecordCheckpoint(kind, outcome, digest), input.now);
      if updated.Some? then (updated.value.0, NextStage(kind, updated.value.1)) else (s, Idle)
    case Finishing(held) =>
      var updated := Update(s, held, Transit(Applied, None, true), input.now);
      (if updated.Some? then updated.value.0 else s, Idle)
    case Ending(state, code) =>
      (s, if Terminal(s.record) then Idle else Settling(s.record, state, code))
    case Settling(held, state, code) =>
      var updated := Update(s, held, Transit(state, Some(code), true), input.now);
      (if updated.Some? then updated.value.0 else s, Idle)
  }

  datatype Event =
    | Step(controller: nat, input: Input)
    | Crash(controller: nat)
    | Register(readiness: Readiness, now: int)
    | RollBack(now: int)
    | OtherPointerWrite(revision: RevisionId)

  datatype World = World(store: Store, controllers: map<nat, Pc>)

  function PcOf(w: World, controller: nat): Pc {
    if controller in w.controllers then w.controllers[controller] else Idle
  }

  function MovePointer(s: Store, revision: RevisionId): Store {
    var version := if s.pointer.Some? then s.pointer.value.version + 1 else 1;
    s.(pointer := Some(Pointer(revision, version)), history := s.history[version := revision])
  }

  function Next(route: Route, w: World, event: Event): World {
    match event
    case Step(controller, input) =>
      var (store, pc) := Advance(route, w.store, PcOf(w, controller), input);
      World(store, w.controllers[controller := pc])
    case Crash(controller) => w.(controllers := w.controllers[controller := Idle])
    case Register(readiness, now) =>
      var updated := Update(w.store, w.store.record, RegisterReadiness(readiness), now);
      if updated.Some? then w.(store := updated.value.0) else w
    case RollBack(now) =>
      var updated := Update(w.store, w.store.record, Transit(RolledBack, None, false), now);
      if w.store.record.state.Applied? && updated.Some? then w.(store := updated.value.0) else w
    case OtherPointerWrite(revision) => w.(store := MovePointer(w.store, revision))
  }

  function Run(route: Route, w: World, events: seq<Event>): World
    decreases |events|
  {
    if events == [] then w else Run(route, Next(route, w, events[0]), events[1..])
  }

  // ---------------------------------------------------------------- the invariant

  /** Every stage before the given position that the plan calls for has its checkpoint. */
  predicate DoneBefore(route: Route, position: nat, r: Record) {
    forall k :: Needed(route, k) && Rank(k) < position ==> k in Kinds(r.checkpoints)
  }

  /** At the version after the expected one the active pointer named the target. */
  predicate Switched(route: Route, s: Store) {
    NextVersion(route) in s.history && s.history[NextVersion(route)] == route.target
  }

  predicate TruePointer(route: Route, s: Store) {
    && (s.pointer.Some? ==> s.pointer.value.version in s.history
                            && s.history[s.pointer.value.version] == s.pointer.value.revision)
    && (forall v <- s.history :: s.pointer.Some? && v <= s.pointer.value.version)
    && s.swaps <= 1
    && (s.swaps == 1 ==> Switched(route, s))
  }

  predicate TrueRecord(route: Route, s: Store) {
    && (forall k :: k in Kinds(s.record.checkpoints) ==> DoneBefore(route, Rank(k), s.record) && k in s.confirmed)
    && (ActivePointer in Kinds(s.record.checkpoints) ==> Switched(route, s))
    && (s.record.state.Applied? || s.record.state.RolledBack? ==> DoneBefore(route, STAGES, s.record))
  }

  predicate StoreInvariant(route: Route, s: Store) {
    TruePointer(route, s) && TrueRecord(route, s)
  }

  /** A record that a controller holds: the store has moved on from it, or still has exactly it. */
  predicate Held(s: Store, r: Record) {
    && r.version <= s.record.version && (r.version == s.record.version ==> r == s.record)
    && r.checkpoints <= s.record.checkpoints
  }

  predicate TruePc(route: Route, s: Store, pc: Pc) {
    match pc
    case Idle => true
    case Found(held) => Held(s, held)
    case Leased(held) => Held(s, held)
    case At(kind, held) => Held(s, held) && DoneBefore(route, Rank(kind), held)
    case Swapping(held) => Held(s, held) && DoneBefore(route, Rank(ActivePointer), held)
    case Confirming(kind, held, _, _) =>
      && Held(s, held) && DoneBefore(route, Rank(kind), held) && kind in s.confirmed
      && (kind.ActivePointer? ==> Switched(route, s))
    case Finishing(held) => Held(s, held) && DoneBefore(route, STAGES, held)
    case Ending(state, _) => state.Failed? || state.Superseded?
    case Settling(held, state, _) => Held(s, held) && (state.Failed? || state.Superseded?)
  }

  ghost predicate Invariant(route: Route, w: World) {
    StoreInvariant(route, w.store) && forall c {:trigger PcOf(w, c)} :: TruePc(route, w.store, PcOf(w, c))
  }

  /** What the store never takes back. */
  predicate Evolves(s: Store, s': Store) {
    && s.record.version <= s'.record.version && (s.record.version == s'.record.version ==> s'.record == s.record)
    && s.record.checkpoints <= s'.record.checkpoints
    && s.confirmed <= s'.confirmed
    && forall v <- s.history :: v in s'.history && s'.history[v] == s.history[v]
  }

  lemma EvolutionKeepsPc(route: Route, s: Store, s': Store, pc: Pc)
    requires Evolves(s, s') && TruePc(route, s, pc)
    ensures TruePc(route, s', pc)
  {
    assert forall k :: k in s.confirmed ==> k in s'.confirmed;
  }

  /** A checkpoint belongs to its stage, and only an activation with every checkpoint is applied. */
  predicate Permitted(route: Route, s: Store, held: Record, op: Operation) {
    match op
    case RecordCheckpoint(kind, _, _) =>
      DoneBefore(route, Rank(kind), held) && kind in s.confirmed && (kind.ActivePointer? ==> Switched(route, s))
    case Transit(to, _, _) => to.Applied? || to.RolledBack? ==> DoneBefore(route, STAGES, held)
    case _ => true
  }

  lemma NewCheckpoints(held: Record, op: Operation, now: int)
    requires Apply(held, op, now).Success?
    ensures
      var updated := Apply(held, op, now).value;
      && held.checkpoints <= updated.checkpoints
      && Kinds(updated.checkpoints) == Kinds(held.checkpoints) + (if op.RecordCheckpoint? then {op.kind} else {})
      && (updated == held || updated.version == held.version + 1)
      && (updated.state != held.state ==> op.Transit? && updated.state == op.to)
  {
    var updated := Apply(held, op, now).value;
    if op.RecordCheckpoint? && updated != held {
      assert updated.checkpoints == held.checkpoints + [updated.checkpoints[|held.checkpoints|]];
      assert Kinds(updated.checkpoints) == Kinds(held.checkpoints) + {op.kind};
    }
  }

  lemma MoreIsDone(route: Route, position: nat, r: Record, r': Record)
    requires DoneBefore(route, position, r) && Kinds(r.checkpoints) <= Kinds(r'.checkpoints)
    ensures DoneBefore(route, position, r')
  {
  }

  lemma UpdateKeeps(route: Route, s: Store, held: Record, op: Operation, now: int)
    requires StoreInvariant(route, s) && Held(s, held) && Permitted(route, s, held, op) && Update(s, held, op, now).Some?
    ensures
      var (s', updated) := Update(s, held, op, now).value;
      && StoreInvariant(route, s') && Evolves(s, s') && Held(s', updated)
      && s' == s.(record := s'.record)
      && Kinds(updated.checkpoints) == Kinds(held.checkpoints) + (if op.RecordCheckpoint? then {op.kind} else {})
  {
    NewCheckpoints(held, op, now);
    var (s', updated) := Update(s, held, op, now).value;
    if updated != held {
      assert held == s.record && s'.record == updated;
      forall k | k in Kinds(updated.checkpoints) ensures DoneBefore(route, Rank(k), updated) && k in s'.confirmed {
        MoreIsDone(route, Rank(k), held, updated);
      }
      if updated.state.Applied? || updated.state.RolledBack? {
        MoreIsDone(route, STAGES, held, updated);
      }
    }
  }

  ghost predicate StepKeeps(route: Route, s: Store, result: (Store, Pc)) {
    StoreInvariant(route, result.0) && TruePc(route, result.0, result.1) && Evolves(s, result.0)
  }

  lemma NextStageIsTrue(route: Route, s: Store, kind: CheckpointKind, held: Record)
    requires Held(s, held) && DoneBefore(route, Rank(kind), held)
    requires !Needed(route, kind) || kind in Kinds(held.checkpoints)
    ensures TruePc(route, s, NextStage(kind, held))
  {
    forall k | Needed(route, k) && Rank(k) < Rank(kind) + 1 ensures k in Kinds(held.checkpoints) {
      assert Rank(k) == Rank(kind) ==> k == kind;
    }
  }

  lemma ConfirmKeeps(route: Route, s: Store, kind: CheckpointKind, held: Record, input: Input)
    requires StoreInvariant(route, s) && Held(s, held) && DoneBefore(route, Rank(kind), held)
    requires kind.ActivePointer? ==> Switched(route, s)
    ensures StepKeeps(route, s, Confirm(s, kind, held, input))
  {
    var s' := Confirm(s, kind, held, input).0;
    assert forall k :: k in s.confirmed ==> k in s'.confirmed;
  }

  lemma WaitKeeps(route: Route, s: Store, held: Record, input: Input)
    requires StoreInvariant(route, s) && Held(s, held)
    ensures StepKeeps(route, s, Wait(s, held, input))
  {
    var op := if held.state.WaitingForReadiness? then ReleaseLease(input.owner) else Transit(WaitingForReadiness, None, true);
    if Update(s, held, op, input.now).Some? {
      UpdateKeeps(route, s, held, op, input.now);
    }
  }

  lemma StartOrResumeKeeps(route: Route, s: Store, held: Record, input: Input)
    requires StoreInvariant(route, s) && Held(s, held)
    ensures StepKeeps(route, s, StartOrResume(s, held, input))
  {
    if held.state.WaitingForReadiness? && held.readiness.None? {
      if input.readiness.None? {
        WaitKeeps(route, s, held, input);
      } else if Update(s, held, RegisterReadiness(input.readiness.value), input.now).Some? {
        UpdateKeeps(route, s, held, RegisterReadiness(input.readiness.value), input.now);
      }
    } else if !held.state.Running? && Update(s, held, Transit(Running, None, false), input.now).Some? {
      UpdateKeeps(route, s, held, Transit(Running, None, false), input.now);
    }
  }

  lemma WorkerStageKeeps(route: Route, s: Store, kind: CheckpointKind, held: Record, input: Input)
    requires kind.WorkerRollout? || (kind.WorkerReadiness? && route.worker && held.readiness.None?)
    requires StoreInvariant(route, s) && Held(s, held) && DoneBefore(route, Rank(kind), held)
    ensures StepKeeps(route, s, Stage(route, s, kind, held, input))
  {
    if kind.WorkerRollout? {
      NextStageIsTrue(route, s, kind, held);
      if route.workerBinding {
        ConfirmKeeps(route, s, kind, held, input);
      } else {
        WaitKeeps(route, s, held, input);
      }
    } else if input.readiness.None? {
      WaitKeeps(route, s, held, input);
    } else {
      var op := RegisterReadiness(input.readiness.value);
      if Update(s, held, op, input.now).Some? {
        UpdateKeeps(route, s, held, op, input.now);
        MoreIsDone(route, Rank(kind), held, Update(s, held, op, input.now).value.1);
      }
    }
  }

  lemma StageKeeps(route: Route, s: Store, kind: CheckpointKind, held: Record, input: Input)
    requires StoreInvariant(route, s) && Held(s, held) && DoneBefore(route, Rank(kind), held)
    ensures StepKeeps(route, s, Stage(route, s, kind, held, input))
  {
    if kind.WorkerRollout? || (kind.WorkerReadiness? && route.worker && held.readiness.None?) {
      WorkerStageKeeps(route, s, kind, held, input);
    } else if !Needed(route, kind) || HasCheckpoint(held, kind) {
      NextStageIsTrue(route, s, kind, held);
    } else if !kind.ActivePointer? || s.pointer == Some(Pointer(route.target, NextVersion(route))) {
      ConfirmKeeps(route, s, kind, held, input);
    }
  }

  lemma SwapKeeps(route: Route, s: Store, held: Record, input: Input)
    requires StoreInvariant(route, s) && TruePc(route, s, Swapping(held))
    ensures StepKeeps(route, s, SwapPointer(route, s, held, input))
  {
    if s.pointer == route.expected {
      var version := NextVersion(route);
      assert version !in s.history && s.swaps == 0;
      var s1 := s.(pointer := Some(Pointer(route.target, version)), history := s.history[version := route.target], swaps := s.swaps + 1);
      assert StoreInvariant(route, s1) && Evolves(s, s1);
      ConfirmKeeps(route, s1, ActivePointer, held, input);
    }
  }

  lemma SettlingKeeps(route: Route, s: Store, pc: Pc, input: Input)
    requires pc.Found? || pc.Confirming? || pc.Finishing? || pc.Settling?
    requires StoreInvariant(route, s) && TruePc(route, s, pc)
    ensures StepKeeps(route, s, Advance(route, s, pc, input))
  {
    var op := match pc
      case Found(_) => AcquireLease(input.owner, input.expires)
      case Confirming(kind, _, outcome, digest) => RecordCheckpoint(kind, outcome, digest)
      case Finishing(_) => Transit(Applied, None, true)
      case Settling(_, state, code) => Transit(state, Some(code), true);
    if Update(s, pc.held, op, input.now).Some? {
      UpdateKeeps(route, s, pc.held, op, input.now);
      if pc.Confirming? {
        var (s', updated) := Update(s, pc.held, op, input.now).value;
        MoreIsDone(route, Rank(pc.kind), pc.held, updated);
        NextStageIsTrue(route, s', pc.kind, updated);
      }
    }
  }

  lemma AdvanceKeeps(route: Route, s: Store, pc: Pc, input: Input)
    requires StoreInvariant(route, s) && TruePc(route, s, pc)
    ensures StepKeeps(route, s, Advance(route, s, pc, input))
  {
    match pc {
      case Leased(held) =>
        if input.fault.None? {
          StartOrResumeKeeps(route, s, held, input);
        }
      case At(kind, held) =>
        if input.fault.None? {
          StageKeeps(route, s, kind, held, input);
        }
      case Swapping(held) =>
        if input.fault.None? {
          SwapKeeps(route, s, held, input);
        }
      case Idle =>
      case Ending(_, _) =>
      case _ => SettlingKeeps(route, s, pc, input);
    }
  }

  lemma NextKeeps(route: Route, w: World, event: Event)
    requires Invariant(route, w)
    ensures Invariant(route, Next(route, w, event)) && Evolves(w.store, Next(route, w, event).store)
  {
    var w' := Next(route, w, event);
    match event {
      case Step(controller, input) =>
        assert TruePc(route, w.store, PcOf(w, controller));
        AdvanceKeeps(route, w.store, PcOf(w, controller), input);
      case Register(readiness, now) =>
        if Update(w.store, w.store.record, RegisterReadiness(readiness), now).Some? {
          UpdateKeeps(route, w.store, w.store.record, RegisterReadiness(readiness), now);
        }
      case RollBack(now) =>
        if w.store.record.state.Applied? && Update(w.store, w.store.record, Transit(RolledBack, None, false), now).Some? {
          UpdateKeeps(route, w.store, w.store.record, Transit(RolledBack, None, false), now);
        }
      case _ =>
    }
    forall c ensures TruePc(route, w'.store, PcOf(w', c)) {
      assert TruePc(route, w.store, PcOf(w, c));
      if PcOf(w', c) == PcOf(w, c) {
        EvolutionKeepsPc(route, w.store, w'.store, PcOf(w, c));
      }
    }
  }

  lemma {:induction false} EveryRunKeeps(route: Route, w: World, events: seq<Event>)
    requires Invariant(route, w)
    ensures Invariant(route, Run(route, w, events)) && Evolves(w.store, Run(route, w, events).store)
    decreases |events|
  {
    if events != [] {
      NextKeeps(route, w, events[0]);
      EveryRunKeeps(route, Next(route, w, events[0]), events[1..]);
    }
  }

  // ---------------------------------------------------------------- over whole runs

  /** A fresh activation, and whatever pointer there is. */
  function Begin(scope: string, plan: Plan, now: int, pointer: Option<Pointer>): World {
    World(Store(Fresh(scope, plan, now), pointer,
                if pointer.Some? then map[pointer.value.version := pointer.value.revision] else map[], 0, []), map[])
  }

  lemma BeginIsInvariant(route: Route, scope: string, plan: Plan, now: int, pointer: Option<Pointer>)
    ensures Invariant(route, Begin(scope, plan, now, pointer))
  {
  }

  /**
    However controllers race, crash, fail and resume: an activation is applied
    only with the checkpoint of every stage that its plan calls for, each of
    which was confirmed, and after the active pointer named its target at the
    version after the one that the plan was made for.
   */
  lemma AppliedOnlyAfterEveryStage(
    route: Route, scope: string, plan: Plan, now: int, pointer: Option<Pointer>, events: seq<Event>)
    ensures
      var s := Run(route, Begin(scope, plan, now, pointer), events).store;
      s.record.state.Applied? ==>
        && (forall k :: Needed(route, k) ==> k in Kinds(s.record.checkpoints) && k in s.confirmed)
        && NextVersion(route) in s.history && s.history[NextVersion(route)] == route.target
  {
    BeginIsInvariant(route, scope, plan, now, pointer);
    EveryRunKeeps(route, Begin(scope, plan, now, pointer), events);
    assert Needed(route, ActivePointer);
  }

  /**
    In every run, no stage acts before its predecessors have their checkpoints;
    in particular the active pointer moves only after the catalog and the worker
    routing have theirs.
   */
  lemma StagesActInOrder(
    route: Route, scope: string, plan: Plan, now: int, pointer: Option<Pointer>, events: seq<Event>, controller: nat, input: Input)
    ensures
      var w := Run(route, Begin(scope, plan, now, pointer), events);
      var s, s' := w.store, Next(route, w, Step(controller, input)).store;
      && (forall k :: s'.confirmed == s.confirmed + [k] ==> DoneBefore(route, Rank(k), s.record))
      && (s'.pointer != s.pointer ==>
           && s'.pointer == Some(Pointer(route.target, NextVersion(route)))
           && (route.definitions ==> CatalogRouting in Kinds(s.record.checkpoints))
           && (route.routing ==> WorkerRouting in Kinds(s.record.checkpoints)))
  {
    BeginIsInvariant(route, scope, plan, now, pointer);
    EveryRunKeeps(route, Begin(scope, plan, now, pointer), events);
    var w := Run(route, Begin(scope, plan, now, pointer), events);
    assert TruePc(route, w.store, PcOf(w, controller));
    OneStageActs(route, w.store, PcOf(w, controller), input);
  }

  lemma OneStageActs(route: Route, s: Store, pc: Pc, input: Input)
    requires TruePc(route, s, pc)
    ensures
      var s' := Advance(route, s, pc, input).0;
      && (forall k :: s'.confirmed == s.confirmed + [k] ==> DoneBefore(route, Rank(k), s.record))
      && (s'.pointer != s.pointer ==>
           s'.pointer == Some(Pointer(route.target, NextVersion(route))) && DoneBefore(route, Rank(ActivePointer), s.record))
  {
    var s' := Advance(route, s, pc, input).0;
    if pc.At? || pc.Swapping? {
      var kind := if pc.At? then pc.kind else ActivePointer;
      assert forall c :: c in pc.held.checkpoints ==> c in s.record.checkpoints;
      assert Kinds(pc.held.checkpoints) <= Kinds(s.record.checkpoints);
      MoreIsDone(route, Rank(kind), pc.held, s.record);
      forall k | s'.confirmed == s.confirmed + [k] ensures k == kind {
        assert s'.confirmed[|s.confirmed|] == k;
      }
    } else {
      assert s'.confirmed == s.confirmed;
    }
  }

  /** However often the saga is resumed, it moves the active pointer at most once. */
  lemma PointerMovesAtMostOnce(route: Route, scope: string, plan: Plan, now: int, pointer: Option<Pointer>, events: seq<Event>)
    ensures Run(route, Begin(scope, plan, now, pointer), events).store.swaps <= 1
  {
    BeginIsInvariant(route, scope, plan, now, pointer);
    EveryRunKeeps(route, Begin(scope, plan, now, pointer), events);
  }
}
