/**
  The activation record and its operations (configuration/activation.py and
  configuration/activation_store.py).
 */
module Activation {
  import opened Wrappers

  const MAX_ACTIVATION_HISTORY := 100

  datatype State = Pending | Running | WaitingForReadiness | Applied | Failed | Superseded | RolledBack

  datatype OutcomeCode =
    | DefinitionsUnavailable | WorkerUnavailable | SchedulesUnavailable | RoutingUnavailable
    | ConfigurationConflict | StalePlan | InternalError

  datatype CheckpointKind =
    | Definitions | WorkerRollout | WorkerReadiness | Schedules
    | CatalogRouting | WorkerRouting | ActivePointer | RuntimeIndex

  const ALL_CHECKPOINT_KINDS := {
    Definitions, WorkerRollout, WorkerReadiness, Schedules, CatalogRouting, WorkerRouting, ActivePointer, RuntimeIndex}

  datatype ExternalOutcome = Confirmed | Idempotent

  datatype Transition = Transition(sequence: int, from: State, to: State, occurredAt: int, outcome: Option<OutcomeCode>)

  datatype Checkpoint = Checkpoint(sequence: int, kind: CheckpointKind, outcome: ExternalOutcome, occurredAt: int, digest: string)

  datatype Plan = Plan(
    scope: string, targetRevision: string, targetArtifact: string, workerRegistration: string, definitions: multiset<string>)

  datatype Readiness = Readiness(
    revision: string, artifact: string, deploymentRegistration: string, definitions: multiset<string>, detail: string)

  datatype Record = Record(
    scope: string,
    plan: Plan,
    state: State,
    version: int,
    transitions: seq<Transition>,
    checkpoints: seq<Checkpoint>,
    leaseOwner: Option<string>,
    leaseExpires: Option<int>,
    readiness: Option<Readiness>,
    outcome: Option<OutcomeCode>,
    createdAt: int,
    updatedAt: int)

  function Fresh(scope: string, plan: Plan, now: int): Record {
    Record(scope, plan, Pending, 1, [], [], None, None, None, None, now, now)
  }

  // ---------------------------------------------------------------- the validator

  predicate ContinuousHistory(r: Record) {
    if r.transitions == [] then r.state.Pending?
    else
      && r.transitions[|r.transitions| - 1].to == r.state
      && (forall i :: 0 <= i < |r.transitions| ==> r.transitions[i].sequence == i + 1)
      && (forall i :: 0 < i < |r.transitions| ==> r.transitions[i - 1].to == r.transitions[i].from)
  }

  function Kinds(checkpoints: seq<Checkpoint>): set<CheckpointKind> {
    set c | c in checkpoints :: c.kind
  }

  /** The field bounds and the model validator of the source. */
  predicate ValidState(r: Record) {
    && r.version >= 1
    && |r.transitions| <= MAX_ACTIVATION_HISTORY
    && |r.checkpoints| <= |ALL_CHECKPOINT_KINDS|
    && r.plan.scope == r.scope
    && (r.leaseOwner.None? <==> r.leaseExpires.None?)
    && r.createdAt <= r.updatedAt
    && ContinuousHistory(r)
    && |Kinds(r.checkpoints)| == |r.checkpoints|
    && (forall i :: 0 <= i < |r.checkpoints| ==> r.checkpoints[i].sequence == i + 1)
    && (r.outcome.Some? <==> r.state.Failed? || r.state.Superseded?)
  }

  // ---------------------------------------------------------------- the operations

  datatype Error =
    | TransitionNotAllowed | HistoryFull | OutcomeMismatch
    | CheckpointConflict | LeaseExpiryNotLater | LeaseHeld | LeaseNotOwned
    | ReadinessMismatch | ReadinessConflict
    | Rejected

  function Allowed(from: State): set<State> {
    match from
    case Pending => {Running, Superseded}
    case Running => {WaitingForReadiness, Applied, Failed, Superseded, RolledBack}
    case WaitingForReadiness => {Running, Failed, Superseded}
    case Failed => {Running, Superseded}
    case Applied => {RolledBack}
    case Superseded => {}
    case RolledBack => {}
  }

  datatype Operation =
    | Transit(to: State, outcome: Option<OutcomeCode>, releaseLease: bool)
    | RecordCheckpoint(kind: CheckpointKind, checkpointOutcome: ExternalOutcome, digest: string)
    | AcquireLease(owner: string, expires: int)
    | ReleaseLease(owner: string)
    | RegisterReadiness(registration: Readiness)

  function Checked(r: Record): Result<Record, Error> {
    if ValidState(r) then Success(r) else Failure(Rejected)
  }

  function FindCheckpoint(checkpoints: seq<Checkpoint>, kind: CheckpointKind): (c: Option<Checkpoint>)
    ensures c.Some? ==> c.value in checkpoints && c.value.kind == kind
    ensures c.None? <==> kind !in Kinds(checkpoints)
  {
    if checkpoints == [] then None
    else if checkpoints[0].kind == kind then Some(checkpoints[0])
    else FindCheckpoint(checkpoints[1..], kind)
  }

  /** The guards of the source; None when the operation may build its new record. */
  function Refusal(r: Record, op: Operation, now: int): Option<Error> {
    match op
    case Transit(to, outcome, _) =>
      if to !in Allowed(r.state) then Some(TransitionNotAllowed)
      else if |r.transitions| >= MAX_ACTIVATION_HISTORY then Some(HistoryFull)
      else if (to.Failed? || to.Superseded?) != outcome.Some? then Some(OutcomeMismatch)
      else None
    case RecordCheckpoint(kind, outcome, digest) =>
      var existing := FindCheckpoint(r.checkpoints, kind);
      if existing.Some? && (existing.value.outcome != outcome || existing.value.digest != digest) then Some(CheckpointConflict)
      else None
    case AcquireLease(owner, expires) =>
      if expires <= now then Some(LeaseExpiryNotLater)
      else if r.leaseOwner.Some? && r.leaseOwner.value != owner && r.leaseExpires.Some? && r.leaseExpires.value > now
           then Some(LeaseHeld)
      else None
    case ReleaseLease(owner) =>
      if r.leaseOwner != Some(owner) then Some(LeaseNotOwned) else None
    case RegisterReadiness(registration) =>
      if || registration.revision != r.plan.targetRevision
         || registration.artifact != r.plan.targetArtifact
         || registration.deploymentRegistration != r.plan.workerRegistration
         || registration.definitions != r.plan.definitions
      then Some(ReadinessMismatch)
      else if r.readiness.Some? && r.readiness.value != registration then Some(ReadinessConflict)
      else None
  }

  /** A repeated checkpoint or registration returns the record as it is. */
  predicate IsRepeat(r: Record, op: Operation) {
    (op.RecordCheckpoint? && FindCheckpoint(r.checkpoints, op.kind).Some?) || (op.RegisterReadiness? && r.readiness.Some?)
  }

  function Updated(r: Record, op: Operation, now: int): Record {
    var next := match op
      case Transit(to, outcome, releaseLease) =>
        r.(state := to,
           transitions := r.transitions + [Transition(|r.transitions| + 1, r.state, to, now, outcome)],
           leaseOwner := if releaseLease then None else r.leaseOwner,
           leaseExpires := if releaseLease then None else r.leaseExpires,
           outcome := outcome)
      case RecordCheckpoint(kind, outcome, digest) =>
        r.(checkpoints := r.checkpoints + [Checkpoint(|r.checkpoints| + 1, kind, outcome, now, digest)])
      case AcquireLease(owner, expires) =>
        r.(leaseOwner := Some(owner), leaseExpires := Some(expires))
      case ReleaseLease(_) =>
        r.(leaseOwner := None, leaseExpires := None)
      case RegisterReadiness(registration) =>
        r.(readiness := Some(registration));
    next.(version := r.version + 1, updatedAt := now)
  }

  function Apply(r: Record, op: Operation, now: int): Result<Record, Error> {
    var refusal := Refusal(r, op, now);
    if refusal.Some? then Failure(refusal.value)
    else if IsRepeat(r, op) then Success(r)
    else Checked(Updated(r, op, now))
  }

  // ---------------------------------------------------------------- what every reachable record satisfies

  /** The history is a walk in the transition table that starts from pending. */
  predicate Sound(r: Record) {
    && ValidState(r)
    && (r.transitions != [] ==> r.transitions[0].from.Pending?)
    && forall i :: 0 <= i < |r.transitions| ==> r.transitions[i].to in Allowed(r.transitions[i].from)
  }

  lemma FreshIsSound(scope: string, plan: Plan, now: int)
    requires plan.scope == scope
    ensures Sound(Fresh(scope, plan, now))
  {
  }

  lemma KindsAreBounded(checkpoints: seq<Checkpoint>)
    ensures |Kinds(checkpoints)| <= |ALL_CHECKPOINT_KINDS|
  {
    forall k: CheckpointKind ensures k in ALL_CHECKPOINT_KINDS {
      match k {
        case Definitions => case WorkerRollout => case WorkerReadiness => case Schedules =>
        case CatalogRouting => case WorkerRouting => case ActivePointer => case RuntimeIndex =>
      }
    }
    SubsetCardinality(Kinds(checkpoints), ALL_CHECKPOINT_KINDS);
  }

  lemma {:induction false} SubsetCardinality(a: set<CheckpointKind>, b: set<CheckpointKind>)
    requires a <= b
    ensures |a| <= |b|
  {
    if a != {} {
      var x :| x in a;
      SubsetCardinality(a - {x}, b - {x});
    }
  }

  lemma NewKindIsCounted(checkpoints: seq<Checkpoint>, c: Checkpoint)
    requires |Kinds(checkpoints)| == |checkpoints| && c.kind !in Kinds(checkpoints)
    ensures |Kinds(checkpoints + [c])| == |checkpoints + [c]| <= |ALL_CHECKPOINT_KINDS|
  {
    assert Kinds(checkpoints + [c]) == Kinds(checkpoints) + {c.kind};
    KindsAreBounded(checkpoints + [c]);
  }

  lemma ExtendedHistory(r: Record, op: Operation, now: int)
    requires Sound(r) && op.Transit? && Refusal(r, op, now).None?
    ensures ContinuousHistory(Updated(r, op, now))
    ensures
      var ts := Updated(r, op, now).transitions;
      ts[0].from.Pending? && forall i :: 0 <= i < |ts| ==> ts[i].to in Allowed(ts[i].from)
  {
  }

  /**
    Once the guards pass, the validator of a sound record rejects the new record
    exactly when the clock reads earlier than the record's creation.
   */
  lemma ValidatorRejectsOnlyClockErrors(r: Record, op: Operation, now: int)
    requires Sound(r) && Refusal(r, op, now).None? && !IsRepeat(r, op)
    ensures ValidState(Updated(r, op, now)) <==> now >= r.createdAt
  {
    match op
    case Transit(_, _, _) => ExtendedHistory(r, op, now);
    case RecordCheckpoint(kind, outcome, digest) =>
      NewKindIsCounted(r.checkpoints, Checkpoint(|r.checkpoints| + 1, kind, outcome, now, digest));
    case _ =>
  }

  /** Every stored change keeps the record sound, appends to its history and bumps the version by one. */
  lemma ApplyKeepsSound(r: Record, op: Operation, now: int)
    requires Sound(r) && Apply(r, op, now).Success?
    ensures
      var r' := Apply(r, op, now).value;
      && Sound(r')
      && (if IsRepeat(r, op) then r' == r else r'.version == r.version + 1)
      && r.transitions <= r'.transitions && r.checkpoints <= r'.checkpoints
      && r'.createdAt == r.createdAt && r'.plan == r.plan
      && (r'.state != r.state ==> op.Transit? && r'.state in Allowed(r.state))
  {
    if op.Transit? {
      ExtendedHistory(r, op, now);
    }
  }

  lemma TerminalStatesAbsorb(r: Record, op: Operation, now: int)
    requires r.state.Superseded? || r.state.RolledBack?
    ensures op.Transit? ==> Apply(r, op, now) == Failure(TransitionNotAllowed)
    ensures Apply(r, op, now).Success? ==> Apply(r, op, now).value.state == r.state
  {
  }

  /** Superseded and RolledBack have no way out, so a history reaches them in its last transition or never. */
  lemma TerminalStateEndsHistory(r: Record)
    requires Sound(r)
    ensures forall k :: 0 <= k < |r.transitions| - 1 ==>
      !r.transitions[k].to.Superseded? && !r.transitions[k].to.RolledBack?
  {
    var ts := r.transitions;
    forall k | 0 <= k < |ts| - 1 ensures !ts[k].to.Superseded? && !ts[k].to.RolledBack? {
      assert ts[k + 1].from == ts[k].to && ts[k + 1].to in Allowed(ts[k].to);
    }
  }

  /** After Applied at most one transition follows, a roll-back; so a history reaches Applied at most once. */
  lemma AppliedAtMostOnce(r: Record, i: nat)
    requires Sound(r) && i < |r.transitions| && r.transitions[i].to.Applied?
    ensures |r.transitions| <= i + 2
    ensures forall j :: 0 <= j < |r.transitions| && r.transitions[j].to.Applied? ==> j == i
    ensures r.state.Applied? || r.state.RolledBack?
  {
    var ts := r.transitions;
    TerminalStateEndsHistory(r);
    assert i + 1 < |ts| ==> ts[i + 1].from.Applied? && ts[i + 1].to in Allowed(Applied);
    forall j | 0 <= j < i ensures !ts[j].to.Applied? {
      if ts[j].to.Applied? {
        AppliedAtMostOnce(r, j);
      }
    }
  }

  datatype Attempt = Attempt(op: Operation, now: int)

  /** A refused attempt leaves the stored record as it is. */
  function ApplyAll(r: Record, attempts: seq<Attempt>): Record
    decreases |attempts|
  {
    if attempts == [] then r
    else
      var result := Apply(r, attempts[0].op, attempts[0].now);
      ApplyAll(if result.Success? then result.value else r, attempts[1..])
  }

  function Changes(r: Record, attempts: seq<Attempt>): nat
    decreases |attempts|
  {
    if attempts == [] then 0
    else
      var result := Apply(r, attempts[0].op, attempts[0].now);
      if result.Success? && result.value != r then 1 + Changes(result.value, attempts[1..])
      else Changes(r, attempts[1..])
  }

  /**
    Every record reachable from a fresh one is sound, its version counts the
    changes made to it, and its histories only grow.
   */
  lemma {:induction false} EveryReachableRecordIsSound(r: Record, attempts: seq<Attempt>)
    requires Sound(r)
    ensures
      var r' := ApplyAll(r, attempts);
      && Sound(r') && r'.version == r.version + Changes(r, attempts)
      && r.transitions <= r'.transitions && r.checkpoints <= r'.checkpoints
    decreases |attempts|
  {
    if attempts != [] {
      var result := Apply(r, attempts[0].op, attempts[0].now);
      if result.Success? {
        ApplyKeepsSound(r, attempts[0].op, attempts[0].now);
        EveryReachableRecordIsSound(result.value, attempts[1..]);
      } else {
        EveryReachableRecordIsSound(r, attempts[1..]);
      }
    }
  }
}
