/**
  Idempotent publication of a draft (configuration/publication.py over the
  publication records of configuration/activation_sqlite.py), by any number of
  racing, crashing and retrying clients, one storage request at a time.

  Digests are injective, so a request digest is represented by what it commits
  to.  Other writers may change the draft, the active pointer, the policy and
  the set of live revisions at any time.
 */
module Publication {
  import opened Wrappers
  import opened Revisions
  import opened SoloRuns

  datatype PublicationState = Pending | Applied | Failed

  datatype ErrorCode = InvalidConfiguration | Conflict | CatalogUnavailable | StoreUnavailable

  datatype RequestDigest = RequestDigest(
    draftVersion: int, document: Document, policy: string, active: Option<RevisionId>, sourceParent: Option<RevisionId>)

  datatype Record = Record(
    request: RequestDigest,
    actor: string,
    policy: string,
    sourceParent: Option<RevisionId>,
    expectedActive: Option<RevisionId>,
    source: Option<RevisionId>,
    published: Option<RevisionId>,
    state: PublicationState,
    error: Option<ErrorCode>,
    version: int,
    createdAt: int,
    updatedAt: int)

  /** PublicationRecord.validate_outcome. */
  predicate ValidOutcome(r: Record) {
    && (r.state.Applied? ==> r.source.Some? && r.published.Some? && r.error.None?)
    && (r.state.Failed? ==> r.error.Some?)
    && (r.state.Pending? ==> r.source.None? && r.published.None? && r.error.None?)
    && r.createdAt <= r.updatedAt
  }

  function Validated(r: Record): Option<Record> {
    if ValidOutcome(r) then Some(r) else None
  }

  function CompletePublication(r: Record, source: RevisionId, published: RevisionId, now: int): Option<Record> {
    Validated(r.(source := Some(source), published := Some(published), state := Applied, error := None,
                 version := r.version + 1, updatedAt := now))
  }

  function FailPublication(r: Record, code: ErrorCode, now: int): Option<Record> {
    Validated(r.(state := Failed, error := Some(code), version := r.version + 1, updatedAt := now))
  }

  function RetryPublication(r: Record, now: int): Option<Record> {
    Validated(r.(source := None, published := None, state := Pending, error := None,
                 version := r.version + 1, updatedAt := now))
  }

  function SourceOf(document: Document): Option<RevisionId> {
    match document
    case TenantConfiguration(_) => None
    case ConfigurationBundle(_, source) => source
  }

  // ---------------------------------------------------------------- one call of publish

  datatype Call = Call(key: string, draftVersion: int, actor: string)

  datatype Outcome = Published(record: Record) | Raised

  datatype Pc =
    | Idle
    | Started(call: Call)
    | FoundApplied(call: Call, record: Record)
    | ReadingDraft(call: Call)
    | ReadingActive(call: Call, draft: Draft)
    | ReadingPolicy(call: Call, draft: Draft, active: Option<RevisionId>)
    | Reserving(call: Call, record: Record)
    | Retrying(call: Call, failed: Record, now: int)
    | Validating(call: Call, record: Record)
    | CreatingSource(call: Call, record: Record, bundle: Document)
    | CreatingPublished(call: Call, record: Record, bundle: Document, source: RevisionId)
    | Completing(call: Call, record: Record, source: RevisionId, published: RevisionId)
    | ReadingBack(call: Call, record: Record)
    | Failing(call: Call, record: Record, code: ErrorCode)
    | Done(call: Call, outcome: Outcome)

  /** `created` is every revision ever created; retention may since have removed some from `live`. */
  datatype Store = Store(
    records: map<string, Record>,
    draft: Option<Draft>,
    active: Option<RevisionId>,
    policy: string,
    live: set<RevisionId>,
    created: set<RevisionId>)

  /** What validate_tenant_authoring makes of the draft under the current policy and catalog. */
  datatype Validation = Resolved(bundle: Document) | Rejected | Unavailable

  /** The clock and the outside world as one step sees them. */
  datatype Input = Input(now: int, validation: Validation, unavailable: bool)

  /** The conditional write keyed by the version that the caller last saw. */
  function UpdateRecord(s: Store, key: string, expectedVersion: int, record: Record): Option<Store> {
    if key in s.records && s.records[key].version == expectedVersion then
      Some(s.(records := s.records[key := record]))
    else
      None
  }

  /** Creating a revision fails when its parent is gone; otherwise it is idempotent. */
  function CreateRevision(s: Store, id: RevisionId): Option<Store> {
    if id.parent.Some? && id.parent.value !in s.live then None
    else Some(s.(live := s.live + {id}, created := s.created + {id}))
  }

  function Advance(s: Store, pc: Pc, input: Input): (Store, Pc) {
    match pc
    case Idle => (s, Idle)
    case Started(call) =>
      if call.key !in s.records then (s, ReadingDraft(call))
      else
        var existing := s.records[call.key];
        (s, if existing.actor != call.actor then Done(call, Raised)
            else if existing.state.Applied? then FoundApplied(call, existing)
            else ReadingDraft(call))
    case FoundApplied(call, existing) =>
      (s, if existing.source.None? || existing.source.value !in s.live then Done(call, Raised)
          else if RequestDigest(call.draftVersion, existing.source.value.document, existing.policy,
                                existing.expectedActive, existing.sourceParent) != existing.request
               then Done(call, Raised)
          else Done(call, Published(existing)))
    case ReadingDraft(call) =>
      (s, if s.draft.None? || !s.draft.value.document.TenantConfiguration? || s.draft.value.version != call.draftVersion
          then Done(call, Raised)
          else ReadingActive(call, s.draft.value))
    case ReadingActive(call, draft) =>
      (s, if s.active.Some? && s.active.value !in s.live then Done(call, Raised)
          else ReadingPolicy(call, draft, s.active))
    case ReadingPolicy(call, draft, active) =>
      var sourceParent := if active.Some? then SourceOf(active.value.document) else None;
      var request := RequestDigest(draft.version, draft.document, s.policy, active, sourceParent);
      (s, Reserving(call, Record(request, call.actor, s.policy, sourceParent, active, None, None,
                                 Pending, None, 1, input.now, input.now)))
    case Reserving(call, record) =>
      if call.key !in s.records then
        (s.(records := s.records[call.key := record]), Validating(call, record))
      else
        var existing := s.records[call.key];
        (s, if existing.request != record.request then Done(call, Raised)
            else if existing.state.Applied? then Done(call, Published(existing))
            else if existing.state.Failed? then Retrying(call, existing, record.updatedAt)
            else Validating(call, existing))
    case Retrying(call, failed, now) =>
      var pending := RetryPublication(failed, now);
      if pending.None? then (s, Done(call, Raised)) else
      var updated := UpdateRecord(s, call.key, pending.value.version - 1, pending.value);
      if updated.Some? then (updated.value, Validating(call, pending.value)) else (s, Done(call, Raised))
    case Validating(call, record) =>
      (s, match input.validation
          case Resolved(bundle) => CreatingSource(call, record, bundle)
          case Rejected => Failing(call, record, InvalidConfiguration)
          case Unavailable => Failing(call, record, CatalogUnavailable))
    case CreatingSource(call, record, bundle) =>
      var source := RevisionId(record.request.document, record.sourceParent);
      var made := CreateRevision(s, source);
      if input.unavailable then (s, Failing(call, record, StoreUnavailable))
      else if made.None? then (s, Failing(call, record, InvalidConfiguration))
      else (made.value, CreatingPublished(call, record, bundle, source))
    case CreatingPublished(call, record, bundle, source) =>
      var published := RevisionId(bundle, record.expectedActive);
      var made := CreateRevision(s, published);
      if input.unavailable then (s, Failing(call, record, StoreUnavailable))
      else if made.None? then (s, Failing(call, record, InvalidConfiguration))
      else (made.value, Completing(call, record, source, published))
    case Completing(call, record, source, published) =>
      var completed := CompletePublication(record, source, published, input.now);
      if completed.None? then (s, Done(call, Raised)) else
      var updated := UpdateRecord(s, call.key, record.version, completed.value);
      if updated.Some? then (updated.value, Done(call, Published(completed.value))) else (s, ReadingBack(call, record))
    case ReadingBack(call, record) =>
      (s, if call.key in s.records && s.records[call.key].request == record.request && s.records[call.key].state.Applied?
          then Done(call, Published(s.records[call.key]))
          else Done(call, Raised))
    case Failing(call, record, code) =>
      var failed := FailPublication(record, code, input.now);
      var updated := if failed.Some? then UpdateRecord(s, call.key, record.version, failed.value) else None;
      (if updated.Some? then updated.value else s, Done(call, Raised))
    case Done(_, _) => (s, pc)
  }

  datatype Event =
    | Start(client: nat, call: Call)
    | Step(client: nat, input: Input)
    | Crash(client: nat)
    | OtherWriters(draft: Option<Draft>, active: Option<RevisionId>, policy: string, added: set<RevisionId>, removed: set<RevisionId>)

  datatype World = World(store: Store, clients: map<nat, Pc>)

  function PcOf(w: World, client: nat): Pc {
    if client in w.clients then w.clients[client] else Idle
  }

  function Next(w: World, event: Event): World {
    match event
    case Start(client, call) =>
      if PcOf(w, client).Idle? || PcOf(w, client).Done? then w.(clients := w.clients[client := Started(call)]) else w
    case Step(client, input) =>
      var (store, pc) := Advance(w.store, PcOf(w, client), input);
      World(store, w.clients[client := pc])
    case Crash(client) =>
      w.(clients := w.clients[client := Idle])
    case OtherWriters(draft, active, policy, added, removed) =>
      w.(store := w.store.(draft := draft, active := active, policy := policy,
                           live := w.store.live + added - removed, created := w.store.created + added))
  }

  function Run(w: World, events: seq<Event>): World
    decreases |events|
  {
    if events == [] then w else Run(Next(w, events[0]), events[1..])
  }

  // ---------------------------------------------------------------- what every stored record says

  /** An applied record names a source revision of exactly the requested document, and both revisions exist. */
  predicate TrueRecord(s: Store, r: Record) {
    && ValidOutcome(r)
    && r.request.policy == r.policy && r.request.active == r.expectedActive && r.request.sourceParent == r.sourceParent
    && (r.state.Applied? ==>
         && r.source == Some(RevisionId(r.request.document, r.sourceParent)) && r.source.value in s.created
         && r.published.Some? && r.published.value.parent == r.expectedActive && r.published.value in s.created)
    && (r.state.Failed? ==> r.source.None? && r.published.None?)
  }

  predicate SameRequest(a: Record, b: Record) {
    a.request == b.request && a.actor == b.actor && a.createdAt == b.createdAt
  }

  /** A record that a client holds: the store has moved past it, or still has exactly it. */
  predicate Held(s: Store, key: string, r: Record) {
    && key in s.records
    && TrueRecord(s, r) && !r.state.Applied?
    && SameRequest(s.records[key], r)
    && r.version <= s.records[key].version
    && (r.version == s.records[key].version ==> s.records[key] == r)
  }

  predicate HeldPending(s: Store, key: string, r: Record) {
    Held(s, key, r) && r.state.Pending?
  }

  /** The record is of the draft version that the call asks to publish. */
  predicate Answers(r: Record, call: Call) {
    r.request.draftVersion == call.draftVersion
  }

  predicate HeldFor(s: Store, call: Call, r: Record) {
    HeldPending(s, call.key, r) && Answers(r, call)
  }

  predicate TruePc(s: Store, pc: Pc) {
    match pc
    case FoundApplied(call, r) => call.key in s.records && s.records[call.key] == r && r.state.Applied?
    case ReadingActive(call, draft) => draft.version == call.draftVersion
    case ReadingPolicy(call, draft, _) => draft.version == call.draftVersion
    case Reserving(call, r) => TrueRecord(s, r) && r.state.Pending? && r.version == 1 && Answers(r, call)
    case Retrying(call, r, _) => Held(s, call.key, r) && r.state.Failed? && Answers(r, call)
    case Validating(call, r) => HeldFor(s, call, r)
    case CreatingSource(call, r, _) => HeldFor(s, call, r)
    case CreatingPublished(call, r, _, source) =>
      HeldFor(s, call, r) && source == RevisionId(r.request.document, r.sourceParent) && source in s.created
    case Completing(call, r, source, published) =>
      && HeldFor(s, call, r) && source == RevisionId(r.request.document, r.sourceParent)
      && source in s.created && published in s.created && published.parent == r.expectedActive
    case ReadingBack(call, r) => HeldFor(s, call, r)
    case Failing(call, r, _) => HeldFor(s, call, r)
    case Done(call, Published(r)) =>
      call.key in s.records && s.records[call.key] == r && r.state.Applied? && Answers(r, call)
    case _ => true
  }

  ghost predicate StoreInvariant(s: Store) {
    forall key {:trigger s.records[key]} :: key in s.records ==> TrueRecord(s, s.records[key]) && s.records[key].version >= 1
  }

  ghost predicate Invariant(w: World) {
    StoreInvariant(w.store) && forall c {:trigger PcOf(w, c)} :: TruePc(w.store, PcOf(w, c))
  }

  /** How one record may change in one step. */
  predicate Evolves(a: Record, b: Record) {
    a == b || (
      && SameRequest(a, b) && b.version == a.version + 1
      && ((a.state.Pending? && !b.state.Pending?) || (a.state.Failed? && b.state.Pending?)))
  }

  ghost predicate StoreEvolves(s: Store, s': Store) {
    && s.created <= s'.created
    && forall key {:trigger s.records[key]} {:trigger s'.records[key]} ::
         key in s.records ==> key in s'.records && Evolves(s.records[key], s'.records[key])
  }

  /** A version-checked write over the record that the client holds is a legal change of that record. */
  lemma UpdateKeeps(s: Store, key: string, held: Record, updated: Record)
    requires StoreInvariant(s) && Held(s, key, held)
    requires TrueRecord(s, updated) && Evolves(held, updated)
    requires UpdateRecord(s, key, held.version, updated).Some?
    ensures
      var s' := UpdateRecord(s, key, held.version, updated).value;
      StoreInvariant(s') && StoreEvolves(s, s') && s'.records[key] == updated && TrueRecord(s', updated)
  {
    var s' := UpdateRecord(s, key, held.version, updated).value;
    assert s.records[key] == held;
    forall k | k in s'.records ensures TrueRecord(s', s'.records[k]) && s'.records[k].version >= 1 {
      if k != key {
        assert TrueRecord(s, s.records[k]);
      }
    }
  }

  lemma CreateKeeps(s: Store, pc: Pc, id: RevisionId)
    requires StoreInvariant(s) && TruePc(s, pc) && CreateRevision(s, id).Some?
    ensures
      var s' := CreateRevision(s, id).value;
      StoreInvariant(s') && StoreEvolves(s, s') && TruePc(s', pc)
  {
    var s' := CreateRevision(s, id).value;
    assert StoreEvolves(s, s');
    forall k | k in s'.records ensures TrueRecord(s', s'.records[k]) && s'.records[k].version >= 1 {
      assert TrueRecord(s, s.records[k]);
    }
    EvolutionKeepsPc(s, s', pc);
  }

  lemma ReserveKeeps(s: Store, pc: Pc, input: Input)
    requires pc.Reserving? && StoreInvariant(s) && TruePc(s, pc)
    ensures
      var (s', pc') := Advance(s, pc, input);
      StoreInvariant(s') && TruePc(s', pc') && StoreEvolves(s, s')
  {
    var (s', pc') := Advance(s, pc, input);
    forall k | k in s'.records ensures TrueRecord(s', s'.records[k]) && s'.records[k].version >= 1 {
      if k in s.records {
        assert TrueRecord(s, s.records[k]);
      }
    }
  }

  ghost predicate StepKeeps(s: Store, result: (Store, Pc)) {
    StoreInvariant(result.0) && TruePc(result.0, result.1) && StoreEvolves(s, result.0)
  }

  lemma UpdatingStepKeeps(s: Store, pc: Pc, input: Input)
    requires pc.Retrying? || pc.Completing? || pc.Failing?
    requires StoreInvariant(s) && TruePc(s, pc)
    ensures StepKeeps(s, Advance(s, pc, input))
  {
    var held := if pc.Retrying? then pc.failed else pc.record;
    var updated :=
      if pc.Retrying? then RetryPublication(held, pc.now)
      else if pc.Completing? then CompletePublication(held, pc.source, pc.published, input.now)
      else FailPublication(held, pc.code, input.now);
    if updated.Some? && UpdateRecord(s, pc.call.key, held.version, updated.value).Some? {
      UpdateKeeps(s, pc.call.key, held, updated.value);
    }
  }

  lemma CreatingStepKeeps(s: Store, pc: Pc, input: Input)
    requires pc.CreatingSource? || pc.CreatingPublished?
    requires StoreInvariant(s) && TruePc(s, pc)
    ensures StepKeeps(s, Advance(s, pc, input))
  {
    var id :=
      if pc.CreatingSource? then RevisionId(pc.record.request.document, pc.record.sourceParent)
      else RevisionId(pc.bundle, pc.record.expectedActive);
    if input.unavailable || CreateRevision(s, id).None? {
      assert Advance(s, pc, input).0 == s && Advance(s, pc, input).1.Failing?;
    } else {
      CreateKeeps(s, pc, id);
    }
  }

  lemma ReadingStepKeeps(s: Store, pc: Pc, input: Input)
    requires !pc.Retrying? && !pc.Completing? && !pc.Failing? && !pc.CreatingSource? && !pc.CreatingPublished? && !pc.Reserving?
    requires StoreInvariant(s) && TruePc(s, pc)
    ensures StepKeeps(s, Advance(s, pc, input))
  {
    assert Advance(s, pc, input).0 == s;
    assert StoreEvolves(s, s);
  }

  lemma AdvanceKeeps(s: Store, pc: Pc, input: Input)
    requires StoreInvariant(s) && TruePc(s, pc)
    ensures StepKeeps(s, Advance(s, pc, input))
  {
    if pc.Reserving? {
      ReserveKeeps(s, pc, input);
    } else if pc.Retrying? || pc.Completing? || pc.Failing? {
      UpdatingStepKeeps(s, pc, input);
    } else if pc.CreatingSource? || pc.CreatingPublished? {
      CreatingStepKeeps(s, pc, input);
    } else {
      ReadingStepKeeps(s, pc, input);
    }
  }

  /** What another client holds survives any step of the store. */
  lemma EvolutionKeepsPc(s: Store, s': Store, pc: Pc)
    requires StoreEvolves(s, s') && StoreInvariant(s) && TruePc(s, pc)
    ensures TruePc(s', pc)
  {
  }

  lemma NextKeeps(w: World, event: Event)
    requires Invariant(w)
    ensures Invariant(Next(w, event)) && StoreEvolves(w.store, Next(w, event).store)
  {
    var w' := Next(w, event);
    if event.Step? {
      assert TruePc(w.store, PcOf(w, event.client));
      AdvanceKeeps(w.store, PcOf(w, event.client), event.input);
    }
    forall c ensures TruePc(w'.store, PcOf(w', c)) {
      assert TruePc(w.store, PcOf(w, c));
      if PcOf(w', c) == PcOf(w, c) {
        EvolutionKeepsPc(w.store, w'.store, PcOf(w, c));
      }
    }
  }

  // ---------------------------------------------------------------- over whole runs

  /** What no later run can undo about one record. */
  predicate Follows(a: Record, b: Record) {
    SameRequest(a, b) && a.version <= b.version && (a.state.Applied? ==> a == b) && (a.version == b.version ==> a == b)
  }

  ghost predicate StoreFollows(s: Store, s': Store) {
    && s.created <= s'.created
    && forall key {:trigger s.records[key]} {:trigger s'.records[key]} ::
         key in s.records ==> key in s'.records && Follows(s.records[key], s'.records[key])
  }

  /**
    Over every run: a record's request never changes, its version only grows, and
    once applied the record itself never changes again.
   */
  lemma {:induction false} EveryRunFollows(w: World, events: seq<Event>)
    requires Invariant(w)
    ensures
      var s, s' := w.store, Run(w, events).store;
      && Invariant(Run(w, events)) && StoreFollows(s, s')
      && forall key <- s.records :: s.records[key].state.Applied? ==> key in s'.records && s'.records[key] == s.records[key]
    decreases |events|
  {
    if events != [] {
      NextKeeps(w, events[0]);
      EveryRunFollows(Next(w, events[0]), events[1..]);
    }
  }

  /**
    Every successful call with one key, whenever and by whomever it is made,
    returns the same record, hence the same source and published revisions.
   */
  lemma AllSuccessesAgree(w: World, events: seq<Event>, first: nat, second: nat)
    requires Invariant(w)
    requires PcOf(w, first).Done? && PcOf(w, first).outcome.Published?
    requires PcOf(Run(w, events), second).Done? && PcOf(Run(w, events), second).outcome.Published?
    requires PcOf(w, first).call.key == PcOf(Run(w, events), second).call.key
    ensures PcOf(w, first).outcome == PcOf(Run(w, events), second).outcome
  {
    EveryRunFollows(w, events);
    assert TruePc(w.store, PcOf(w, first)) && TruePc(Run(w, events).store, PcOf(Run(w, events), second));
  }

  const Initial := World(Store(map[], None, None, "", {}, {}), map[])

  /**
    A returned publication is the stored one, of the draft version that this call
    asked for.  It names a source revision of the document that its request
    committed to, and both revisions were created.
   */
  lemma PublishedIsWhatWasRequested(events: seq<Event>, client: nat)
    ensures
      var w := Run(Initial, events);
      PcOf(w, client).Done? && PcOf(w, client).outcome.Published? ==>
        var call, r := PcOf(w, client).call, PcOf(w, client).outcome.record;
        && call.key in w.store.records && w.store.records[call.key] == r && r.state.Applied?
        && r.request.draftVersion == call.draftVersion
        && r.source == Some(RevisionId(r.request.document, r.request.sourceParent)) && r.source.value in w.store.created
        && r.published.Some? && r.published.value.parent == r.request.active && r.published.value in w.store.created
  {
    EveryRunFollows(Initial, events);
    var w := Run(Initial, events);
    assert TruePc(w.store, PcOf(w, client));
    if PcOf(w, client).Done? && PcOf(w, client).outcome.Published? {
      assert TrueRecord(w.store, w.store.records[PcOf(w, client).call.key]);
    }
  }

  lemma SuccessAnswersCall(w: World, client: nat)
    requires Invariant(w) && PcOf(w, client).Done? && PcOf(w, client).outcome.Published?
    ensures PcOf(w, client).outcome.record.request.draftVersion == PcOf(w, client).call.draftVersion
  {
    assert TruePc(w.store, PcOf(w, client));
  }

  /** A key that once published one draft version never succeeds for another one. */
  lemma ReusedKeyNeverSucceeds(w: World, events: seq<Event>, first: nat, second: nat)
    requires Invariant(w) && PcOf(w, first).Done? && PcOf(w, first).outcome.Published?
    requires PcOf(Run(w, events), second).Done? && PcOf(Run(w, events), second).call.key == PcOf(w, first).call.key
    requires PcOf(Run(w, events), second).call.draftVersion != PcOf(w, first).call.draftVersion
    ensures PcOf(Run(w, events), second).outcome.Raised?
  {
    SuccessAnswersCall(w, first);
    if PcOf(Run(w, events), second).outcome.Published? {
      AllSuccessesAgree(w, events, first, second);
      EveryRunFollows(w, events);
      SuccessAnswersCall(Run(w, events), second);
    }
  }

  /** Both revisions of a record exist at the moment it becomes applied, not only later. */
  lemma RevisionsPrecedeApplied(w: World, event: Event, key: string)
    requires Invariant(w) && key in w.store.records && !w.store.records[key].state.Applied?
    requires key in Next(w, event).store.records && Next(w, event).store.records[key].state.Applied?
    ensures
      var r := Next(w, event).store.records[key];
      r.source.Some? && r.published.Some? && r.source.value in w.store.created && r.published.value in w.store.created
  {
    assert TruePc(w.store, PcOf(w, event.client));
  }

  // ---------------------------------------------------------------- retries with no other writer

  /** One client alone whose validations and storage requests succeed; it may crash and start again. */
  function RunSolo(s: Store, pc: Pc, call: Call, events: seq<SoloEvent<Document>>): (Store, Pc)
    decreases |events|
  {
    if events == [] then (s, pc)
    else
      var (s', pc') :=
        if events[0].Tick? then Advance(s, pc, Input(events[0].now, Resolved(events[0].input), false))
        else (s, Started(call));
      RunSolo(s', pc', call, events[1..])
  }

  /** The request that a call makes of the store as it stands. */
  function RequestOf(s: Store): RequestDigest
    requires s.draft.Some?
  {
    RequestDigest(s.draft.value.version, s.draft.value.document, s.policy, s.active,
                  if s.active.Some? then SourceOf(s.active.value.document) else None)
  }

  /** Nothing but this key's own record stands between the call and success, whatever state that record is in. */
  predicate Resumable(s: Store, call: Call, clock: int) {
    && s.draft.Some? && s.draft.value.document.TenantConfiguration? && s.draft.value.version == call.draftVersion
    && (s.active.Some? ==> s.active.value in s.live)
    && (RequestOf(s).sourceParent.Some? ==> RequestOf(s).sourceParent.value in s.live)
    && (call.key in s.records ==>
         var r := s.records[call.key];
         && TrueRecord(s, r) && r.request == RequestOf(s) && r.actor == call.actor && r.createdAt <= clock
         && (r.state.Applied? ==> r.source.value in s.live))
  }

  predicate SoloHeld(s: Store, call: Call, r: Record) {
    call.key in s.records && s.records[call.key] == r && r.state.Pending?
  }

  predicate SoloInvariant(s: Store, pc: Pc, call: Call, clock: int) {
    && Resumable(s, call, clock)
    && match pc
       case Started(c) => c == call
       case FoundApplied(c, r) => c == call && call.key in s.records && s.records[call.key] == r && r.state.Applied?
       case ReadingDraft(c) => c == call && (call.key in s.records ==> !s.records[call.key].state.Applied?)
       case ReadingActive(c, draft) => c == call && draft == s.draft.value
       case ReadingPolicy(c, draft, active) => c == call && draft == s.draft.value && active == s.active
       case Reserving(c, r) =>
         c == call && TrueRecord(s, r) && r.state.Pending? && r.request == RequestOf(s) && r.actor == call.actor
         && r.createdAt == r.updatedAt <= clock
         && (call.key in s.records ==> s.records[call.key].createdAt <= r.updatedAt)
       case Retrying(c, r, now) =>
         c == call && call.key in s.records && s.records[call.key] == r && r.state.Failed? && r.createdAt <= now
       case Validating(c, r) => c == call && SoloHeld(s, call, r)
       case CreatingSource(c, r, _) => c == call && SoloHeld(s, call, r)
       case CreatingPublished(c, r, _, source) =>
         c == call && SoloHeld(s, call, r) && source == RevisionId(r.request.document, r.sourceParent)
         && source in s.live && source in s.created
       case Completing(c, r, source, published) =>
         c == call && SoloHeld(s, call, r) && source == RevisionId(r.request.document, r.sourceParent)
         && source in s.live && source in s.created && published in s.created && published.parent == r.expectedActive
       case Done(c, Published(r)) => c == call && call.key in s.records && s.records[call.key] == r && r.state.Applied?
       case _ => false
  }

  function StepsLeft(pc: Pc): nat {
    match pc
    case Started(_) => 10
    case ReadingDraft(_) => 9
    case ReadingActive(_, _) => 8
    case ReadingPolicy(_, _, _) => 7
    case Reserving(_, _) => 6
    case Retrying(_, _, _) => 5
    case Validating(_, _) => 4
    case CreatingSource(_, _, _) => 3
    case CreatingPublished(_, _, _, _) => 2
    case Completing(_, _, _, _) => 1
    case FoundApplied(_, _) => 1
    case _ => 0
  }

  predicate SoloStepKeeps(s: Store, pc: Pc, call: Call, now: int, bundle: Document) {
    var (s', pc') := Advance(s, pc, Input(now, Resolved(bundle), false));
    && SoloInvariant(s', pc', call, now)
    && StepsLeft(pc') <= (if StepsLeft(pc) == 0 then 0 else StepsLeft(pc) - 1)
  }

  lemma SoloReads(s: Store, pc: Pc, call: Call, clock: int, now: int, bundle: Document)
    requires SoloInvariant(s, pc, call, clock) && now >= clock
    requires pc.Started? || pc.FoundApplied? || pc.ReadingDraft? || pc.ReadingActive? || pc.ReadingPolicy? || pc.Done?
    ensures SoloStepKeeps(s, pc, call, now, bundle)
  {
  }

  lemma SoloReserves(s: Store, pc: Pc, call: Call, clock: int, now: int, bundle: Document)
    requires SoloInvariant(s, pc, call, clock) && now >= clock
    requires pc.Reserving? || pc.Retrying? || pc.Validating?
    ensures SoloStepKeeps(s, pc, call, now, bundle)
  {
  }

  lemma SoloPublishes(s: Store, pc: Pc, call: Call, clock: int, now: int, bundle: Document)
    requires SoloInvariant(s, pc, call, clock) && now >= clock
    requires pc.CreatingSource? || pc.CreatingPublished?
    ensures SoloStepKeeps(s, pc, call, now, bundle)
  {
  }

  lemma SoloCompletes(s: Store, pc: Pc, call: Call, clock: int, now: int, bundle: Document)
    requires SoloInvariant(s, pc, call, clock) && now >= clock && pc.Completing?
    ensures SoloStepKeeps(s, pc, call, now, bundle)
  {
  }

  lemma SoloStep(s: Store, pc: Pc, call: Call, clock: int, now: int, bundle: Document)
    requires SoloInvariant(s, pc, call, clock) && now >= clock
    ensures SoloStepKeeps(s, pc, call, now, bundle)
  {
    if pc.Reserving? || pc.Retrying? || pc.Validating? {
      SoloReserves(s, pc, call, clock, now, bundle);
    } else if pc.CreatingSource? || pc.CreatingPublished? {
      SoloPublishes(s, pc, call, clock, now, bundle);
    } else if pc.Completing? {
      SoloCompletes(s, pc, call, clock, now, bundle);
    } else {
      SoloReads(s, pc, call, clock, now, bundle);
    }
  }

  lemma {:induction false} SoloRunKeeps(s: Store, pc: Pc, call: Call, clock: int, events: seq<SoloEvent<Document>>)
    requires SoloInvariant(s, pc, call, clock) && Monotone(events, clock)
    ensures
      var (s', pc') := RunSolo(s, pc, call, events);
      SoloInvariant(s', pc', call, FinalClock(events, clock))
    ensures (forall i :: 0 <= i < |events| ==> events[i].Tick?) && |events| >= StepsLeft(pc) ==>
      StepsLeft(RunSolo(s, pc, call, events).1) == 0
    decreases |events|
  {
    if events != [] {
      if events[0].Tick? {
        SoloStep(s, pc, call, clock, events[0].now, events[0].input);
        var (s', pc') := Advance(s, pc, Input(events[0].now, Resolved(events[0].input), false));
        SoloRunKeeps(s', pc', call, events[0].now, events[1..]);
      } else {
        SoloRunKeeps(s, Started(call), call, clock, events[1..]);
      }
    }
  }

  /**
    A pending, failed or absent record never blocks an identical retry: with no
    other writer and valid input, after any crashes, ten more steps publish.
   */
  lemma RetryAfterAnyCrashPublishes(s: Store, call: Call, clock: int, crashed: seq<SoloEvent<Document>>, final: seq<SoloEvent<Document>>)
    requires Resumable(s, call, clock) && Monotone(crashed, clock)
    requires |final| >= 10 && (forall i :: 0 <= i < |final| ==> final[i].Tick?) && Monotone(final, FinalClock(crashed, clock))
    ensures
      var (s1, pc1) := RunSolo(s, Started(call), call, crashed);
      var (s2, pc2) := RunSolo(s1, Started(call), call, final);
      && pc2.Done? && pc2.outcome.Published?
      && call.key in s2.records && s2.records[call.key] == pc2.outcome.record && pc2.outcome.record.state.Applied?
  {
    SoloRunKeeps(s, Started(call), call, clock, crashed);
    var (s1, pc1) := RunSolo(s, Started(call), call, crashed);
    SoloRunKeeps(s1, Started(call), call, FinalClock(crashed, clock), final);
  }
}
