/**
  Exactly-once discard of a draft back to the active authoring configuration
  (configuration/publication.py and configuration/lifecycle.py), by any number of
  racing, crashing and retrying clients, one storage request at a time.

  `draftHistory` records what the draft held at every version, and `swaps` how
  often attempts with one key changed the draft; the program reads neither.
 */
module Discard {
  import opened Wrappers
  import opened Revisions
  import opened SoloRuns

  datatype DiscardState = Pending | Applied | Failed

  /** What the request digest commits to. */
  datatype RequestDigest = RequestDigest(activeDocument: Document, activeIdentity: RevisionId, draftVersion: int)

  datatype Record = Record(
    request: RequestDigest,
    expectedDraftVersion: int,
    expectedActive: RevisionId,
    activeDocument: Document,
    resultDraftVersion: Option<int>,
    state: DiscardState,
    failed: bool,
    version: int,
    createdAt: int,
    updatedAt: int)

  /** ConfigurationDiscardRecord.validate_outcome; `failed` is the presence of an error code. */
  predicate ValidOutcome(r: Record) {
    && (r.state.Applied? ==> r.resultDraftVersion.Some? && !r.failed)
    && (r.state.Failed? ==> r.failed && r.resultDraftVersion.None?)
    && (r.state.Pending? ==> !r.failed && r.resultDraftVersion.None?)
    && r.createdAt <= r.updatedAt
  }

  function Validated(r: Record): Option<Record> {
    if ValidOutcome(r) then Some(r) else None
  }

  function CompleteDiscard(r: Record, resultDraftVersion: int, now: int): Option<Record> {
    Validated(r.(resultDraftVersion := Some(resultDraftVersion), state := Applied, failed := false,
                 version := r.version + 1, updatedAt := now))
  }

  function FailDiscard(r: Record, now: int): Option<Record> {
    Validated(r.(resultDraftVersion := None, state := Failed, failed := true, version := r.version + 1, updatedAt := now))
  }

  datatype Store = Store(
    records: map<string, Record>,
    draft: Option<Draft>,
    active: Option<RevisionId>,
    live: set<RevisionId>,
    draftHistory: map<int, Document>,
    swaps: map<string, nat>)

  function SwapsOf(s: Store, key: string): nat {
    if key in s.swaps then s.swaps[key] else 0
  }

  // ---------------------------------------------------------------- one call of discard

  datatype Call = Call(key: string, draftVersion: int, activeIdentity: RevisionId)

  datatype Outcome = Discarded(record: Record) | Raised

  datatype Pc =
    | Idle
    | Started(call: Call)
    | Reserving(call: Call, record: Record)
    | ReadingDraft(call: Call, record: Record)
    | SwappingDraft(call: Call, record: Record)
    | Completing(call: Call, record: Record, result: int)
    | ReadingBack(call: Call, record: Record)
    | Failing(call: Call, record: Record)
    | Done(call: Call, outcome: Outcome)

  /** The active revision and the tenant configuration that it was resolved from. */
  function ActiveAuthoring(s: Store): Option<(RevisionId, Document)> {
    if s.active.None? || s.active.value !in s.live then None
    else match s.active.value.document
      case TenantConfiguration(_) => None
      case ConfigurationBundle(_, source) =>
        if source.None? || source.value !in s.live || !source.value.document.TenantConfiguration? then None
        else Some((s.active.value, source.value.document))
  }

  function UpdateRecord(s: Store, key: string, expectedVersion: int, record: Record): Option<Store> {
    if key in s.records && s.records[key].version == expectedVersion then
      Some(s.(records := s.records[key := record]))
    else
      None
  }

  function WriteDraft(s: Store, document: Document): Store {
    var version := if s.draft.Some? then s.draft.value.version + 1 else 1;
    s.(draft := Some(Draft(version, document)), draftHistory := s.draftHistory[version := document])
  }

  function Advance(s: Store, pc: Pc, now: int): (Store, Pc) {
    match pc
    case Idle => (s, Idle)
    case Started(call) =>
      var authoring := ActiveAuthoring(s);
      if authoring.None? || authoring.value.0 != call.activeIdentity then (s, Done(call, Raised))
      else
        var request := RequestDigest(authoring.value.1, authoring.value.0, call.draftVersion);
        (s, Reserving(call, Record(request, call.draftVersion, authoring.value.0, authoring.value.1,
                                   None, Pending, false, 1, now, now)))
    case Reserving(call, record) =>
      if call.key !in s.records then
        (s.(records := s.records[call.key := record]), ReadingDraft(call, record))
      else
        var existing := s.records[call.key];
        (s, if existing.request != record.request || existing.state.Failed? then Done(call, Raised)
            else if existing.state.Applied? then Done(call, Discarded(existing))
            else ReadingDraft(call, existing))
    case ReadingDraft(call, record) =>
      if s.draft.None? || !s.draft.value.document.TenantConfiguration? then (s, Done(call, Raised))
      else
        var current := s.draft.value;
        (s, if current.version == record.expectedDraftVersion then SwappingDraft(call, record)
            else if current.version == record.expectedDraftVersion + 1 && current.document == record.activeDocument
                 then Completing(call, record, current.version)
            else Failing(call, record))
    case SwappingDraft(call, record) =>
      if s.draft.Some? && s.draft.value.version == record.expectedDraftVersion then
        (WriteDraft(s, record.activeDocument).(swaps := s.swaps[call.key := SwapsOf(s, call.key) + 1]),
         Completing(call, record, record.expectedDraftVersion + 1))
      else
        (s, Failing(call, record))
    case Completing(call, record, result) =>
      var completed := CompleteDiscard(record, result, now);
      if completed.None? then (s, Done(call, Raised)) else
      var updated := UpdateRecord(s, call.key, record.version, completed.value);
      if updated.Some? then (updated.value, Done(call, Discarded(completed.value))) else (s, ReadingBack(call, record))
    case ReadingBack(call, record) =>
      (s, if call.key in s.records && s.records[call.key].request == record.request && s.records[call.key].state.Applied?
          then Done(call, Discarded(s.records[call.key]))
          else Done(call, Raised))
    case Failing(call, record) =>
      var failed := FailDiscard(record, now);
      var updated := if failed.Some? then UpdateRecord(s, call.key, record.version, failed.value) else None;
      (if updated.Some? then updated.value else s, Done(call, Raised))
    case Done(_, _) => (s, pc)
  }

  datatype Event =
    | Start(client: nat, call: Call)
    | Step(client: nat, now: int)
    | Crash(client: nat)
    | OtherDraftWrite(document: Document)
    | OtherWriters(active: Option<RevisionId>, live: set<RevisionId>)

  datatype World = World(store: Store, clients: map<nat, Pc>)

  const Initial := World(Store(map[], None, None, {}, map[], map[]), map[])

  function PcOf(w: World, client: nat): Pc {
    if client in w.clients then w.clients[client] else Idle
  }

  function Next(w: World, event: Event): World {
    match event
    case Start(client, call) =>
      if PcOf(w, client).Idle? || PcOf(w, client).Done? then w.(clients := w.clients[client := Started(call)]) else w
    case Step(client, now) =>
      var (store, pc) := Advance(w.store, PcOf(w, client), now);
      World(store, w.clients[client := pc])
    case Crash(client) =>
      w.(clients := w.clients[client := Idle])
    case OtherDraftWrite(document) =>
      w.(store := WriteDraft(w.store, document))
    case OtherWriters(active, live) =>
      w.(store := w.store.(active := active, live := live))
  }

  function Run(w: World, events: seq<Event>): World
    decreases |events|
  {
    if events == [] then w else Run(Next(w, events[0]), events[1..])
  }

  // ---------------------------------------------------------------- the invariant

  /** The draft's versions count up from one and its history never changes. */
  predicate TrueDraft(s: Store) {
    && (s.draft.Some? ==> s.draft.value.version >= 1 && s.draft.value.version in s.draftHistory
                          && s.draftHistory[s.draft.value.version] == s.draft.value.document)
    && forall v <- s.draftHistory :: s.draft.Some? && v <= s.draft.value.version
  }

  /** `document` is the tenant configuration that the active revision `id` was resolved from. */
  predicate ResolvedFrom(id: RevisionId, document: Document) {
    && id.document.ConfigurationBundle? && id.document.source.Some?
    && id.document.source.value.document == document && document.TenantConfiguration?
  }

  predicate WellMade(r: Record) {
    && ValidOutcome(r)
    && ResolvedFrom(r.expectedActive, r.activeDocument)
    && r.request == RequestDigest(r.activeDocument, r.expectedActive, r.expectedDraftVersion)
    && r.version == (if r.state.Pending? then 1 else 2)
  }

  /** An applied record is true of the draft: at the version it names, the draft held the active document. */
  predicate TrueRecord(s: Store, r: Record) {
    && WellMade(r)
    && (r.state.Applied? ==>
         && r.resultDraftVersion == Some(r.expectedDraftVersion + 1)
         && r.expectedDraftVersion + 1 in s.draftHistory
         && s.draftHistory[r.expectedDraftVersion + 1] == r.activeDocument)
  }

  /** At most one swap per key, and it wrote the active document as the version after the expected one. */
  predicate TrueSwaps(s: Store, key: string, r: Record) {
    && SwapsOf(s, key) <= 1
    && (SwapsOf(s, key) == 1 ==>
         && s.draft.Some? && s.draft.value.version > r.expectedDraftVersion
         && r.expectedDraftVersion + 1 in s.draftHistory
         && s.draftHistory[r.expectedDraftVersion + 1] == r.activeDocument)
  }

  ghost predicate StoreInvariant(s: Store) {
    && TrueDraft(s)
    && (forall key {:trigger s.records[key]} :: key in s.records ==>
         TrueRecord(s, s.records[key]) && TrueSwaps(s, key, s.records[key]))
    && (forall key {:trigger SwapsOf(s, key)} :: key !in s.records ==> SwapsOf(s, key) == 0)
  }

  predicate HeldPending(s: Store, key: string, r: Record) {
    && key in s.records && WellMade(r) && r.state.Pending?
    && s.records[key].request == r.request && s.records[key].createdAt == r.createdAt
    && (s.records[key].state.Pending? ==> s.records[key] == r)
  }

  /** The record is of the request that the call makes. */
  predicate Answers(r: Record, call: Call) {
    r.request.draftVersion == call.draftVersion && r.request.activeIdentity == call.activeIdentity
  }

  predicate HeldFor(s: Store, call: Call, r: Record) {
    HeldPending(s, call.key, r) && Answers(r, call)
  }

  predicate TruePc(s: Store, pc: Pc) {
    match pc
    case Reserving(call, r) => WellMade(r) && r.state.Pending? && Answers(r, call)
    case ReadingDraft(call, r) => HeldFor(s, call, r)
    case SwappingDraft(call, r) => HeldFor(s, call, r)
    case Completing(call, r, result) =>
      && HeldFor(s, call, r) && result == r.expectedDraftVersion + 1
      && result in s.draftHistory && s.draftHistory[result] == r.activeDocument
    case ReadingBack(call, r) => HeldFor(s, call, r)
    case Failing(call, r) => HeldFor(s, call, r)
    case Done(call, Discarded(r)) =>
      call.key in s.records && s.records[call.key] == r && r.state.Applied? && Answers(r, call)
    case _ => true
  }

  ghost predicate Invariant(w: World) {
    StoreInvariant(w.store) && forall c {:trigger PcOf(w, c)} :: TruePc(w.store, PcOf(w, c))
  }

  /** A record settles at most once, and after that never changes. */
  predicate Settles(a: Record, b: Record) {
    a == b || (a.state.Pending? && !b.state.Pending? && a.request == b.request && a.createdAt == b.createdAt)
  }

  ghost predicate StoreFollows(s: Store, s': Store) {
    && (forall v <- s.draftHistory :: v in s'.draftHistory && s'.draftHistory[v] == s.draftHistory[v])
    && forall key {:trigger s.records[key]} {:trigger s'.records[key]} ::
         key in s.records ==> key in s'.records && Settles(s.records[key], s'.records[key])
  }

  lemma FollowingKeepsPc(s: Store, s': Store, pc: Pc)
    requires StoreFollows(s, s') && TruePc(s, pc)
    ensures TruePc(s', pc)
  {
  }

  lemma UpdateKeeps(s: Store, key: string, held: Record, updated: Record)
    requires StoreInvariant(s) && HeldPending(s, key, held)
    requires TrueRecord(s, updated) && !updated.state.Pending? && Settles(held, updated)
    requires UpdateRecord(s, key, held.version, updated).Some?
    ensures
      var s' := UpdateRecord(s, key, held.version, updated).value;
      StoreInvariant(s') && StoreFollows(s, s') && s'.records[key] == updated
  {
    var s' := UpdateRecord(s, key, held.version, updated).value;
    assert TrueRecord(s, s.records[key]) && s.records[key] == held;
    assert forall k :: SwapsOf(s', k) == SwapsOf(s, k);
    forall k | k in s'.records ensures TrueRecord(s', s'.records[k]) && TrueSwaps(s', k, s'.records[k]) {
      assert TrueRecord(s, s.records[k]) && TrueSwaps(s, k, s.records[k]);
    }
  }

  lemma DraftWriteKeeps(s: Store, document: Document)
    requires StoreInvariant(s)
    ensures StoreInvariant(WriteDraft(s, document)) && StoreFollows(s, WriteDraft(s, document))
  {
    var s' := WriteDraft(s, document);
    assert forall k :: SwapsOf(s', k) == SwapsOf(s, k);
    forall k | k in s'.records ensures TrueRecord(s', s'.records[k]) && TrueSwaps(s', k, s'.records[k]) {
      assert TrueRecord(s, s.records[k]) && TrueSwaps(s, k, s.records[k]);
    }
  }

  /** The swap succeeds only at the expected version, so a second swap with the same key cannot. */
  lemma SwapKeeps(s: Store, pc: Pc, now: int)
    requires pc.SwappingDraft? && StoreInvariant(s) && TruePc(s, pc)
    ensures
      var (s', pc') := Advance(s, pc, now);
      StoreInvariant(s') && TruePc(s', pc') && StoreFollows(s, s')
  {
    var key := pc.call.key;
    if s.draft.Some? && s.draft.value.version == pc.record.expectedDraftVersion {
      var written := WriteDraft(s, pc.record.activeDocument);
      var s' := Advance(s, pc, now).0;
      DraftWriteKeeps(s, pc.record.activeDocument);
      assert TrueSwaps(s, key, s.records[key]) && SwapsOf(s, key) == 0;
      assert forall k :: k != key ==> SwapsOf(s', k) == SwapsOf(written, k);
      forall k | k in s'.records ensures TrueRecord(s', s'.records[k]) && TrueSwaps(s', k, s'.records[k]) {
        assert TrueRecord(written, written.records[k]) && TrueSwaps(written, k, written.records[k]);
      }
    }
  }

  lemma ReserveKeeps(s: Store, pc: Pc, now: int)
    requires pc.Reserving? && StoreInvariant(s) && TruePc(s, pc)
    ensures
      var (s', pc') := Advance(s, pc, now);
      StoreInvariant(s') && TruePc(s', pc') && StoreFollows(s, s')
  {
    var s' := Advance(s, pc, now).0;
    assert forall k :: SwapsOf(s', k) == SwapsOf(s, k);
    forall k | k in s'.records ensures TrueRecord(s', s'.records[k]) && TrueSwaps(s', k, s'.records[k]) {
      if k in s.records {
        assert TrueRecord(s, s.records[k]) && TrueSwaps(s, k, s.records[k]);
      }
    }
  }

  lemma SettleKeeps(s: Store, pc: Pc, now: int)
    requires pc.Completing? || pc.Failing?
    requires StoreInvariant(s) && TruePc(s, pc)
    ensures
      var (s', pc') := Advance(s, pc, now);
      StoreInvariant(s') && TruePc(s', pc') && StoreFollows(s, s')
  {
    var settled := if pc.Completing? then CompleteDiscard(pc.record, pc.result, now) else FailDiscard(pc.record, now);
    if settled.Some? && UpdateRecord(s, pc.call.key, pc.record.version, settled.value).Some? {
      UpdateKeeps(s, pc.call.key, pc.record, settled.value);
    }
  }

  lemma AdvanceKeeps(s: Store, pc: Pc, now: int)
    requires StoreInvariant(s) && TruePc(s, pc)
    ensures
      var (s', pc') := Advance(s, pc, now);
      StoreInvariant(s') && TruePc(s', pc') && StoreFollows(s, s')
  {
    if pc.SwappingDraft? {
      SwapKeeps(s, pc, now);
    } else if pc.Reserving? {
      ReserveKeeps(s, pc, now);
    } else if pc.Completing? || pc.Failing? {
      SettleKeeps(s, pc, now);
    } else {
      ReadingKeeps(s, pc, now);
    }
  }

  lemma ReadingKeeps(s: Store, pc: Pc, now: int)
    requires !pc.SwappingDraft? && !pc.Reserving? && !pc.Completing? && !pc.Failing?
    requires StoreInvariant(s) && TruePc(s, pc)
    ensures
      var (s', pc') := Advance(s, pc, now);
      StoreInvariant(s') && TruePc(s', pc') && StoreFollows(s, s')
  {
    assert Advance(s, pc, now).0 == s && StoreFollows(s, s);
  }

  lemma PointerWriteKeeps(s: Store, active: Option<RevisionId>, live: set<RevisionId>)
    requires StoreInvariant(s)
    ensures StoreInvariant(s.(active := active, live := live)) && StoreFollows(s, s.(active := active, live := live))
  {
    var s' := s.(active := active, live := live);
    assert forall k :: SwapsOf(s', k) == SwapsOf(s, k);
    forall k | k in s'.records ensures TrueRecord(s', s'.records[k]) && TrueSwaps(s', k, s'.records[k]) {
      assert TrueRecord(s, s.records[k]) && TrueSwaps(s, k, s.records[k]);
    }
  }

  lemma NextKeeps(w: World, event: Event)
    requires Invariant(w)
    ensures Invariant(Next(w, event)) && StoreFollows(w.store, Next(w, event).store)
  {
    var w' := Next(w, event);
    match event {
      case Step(client, now) =>
        assert TruePc(w.store, PcOf(w, client));
        AdvanceKeeps(w.store, PcOf(w, client), now);
      case OtherDraftWrite(document) => DraftWriteKeeps(w.store, document);
      case OtherWriters(active, live) => PointerWriteKeeps(w.store, active, live);
      case _ =>
    }
    forall c ensures TruePc(w'.store, PcOf(w', c)) {
      assert TruePc(w.store, PcOf(w, c));
      if PcOf(w', c) == PcOf(w, c) {
        FollowingKeepsPc(w.store, w'.store, PcOf(w, c));
      }
    }
  }

  /** Over every run: settled records stay as they are, and the draft's history is never rewritten. */
  lemma {:induction false} EveryRunFollows(w: World, events: seq<Event>)
    requires Invariant(w)
    ensures Invariant(Run(w, events)) && StoreFollows(w.store, Run(w, events).store)
    decreases |events|
  {
    if events != [] {
      NextKeeps(w, events[0]);
      EveryRunFollows(Next(w, events[0]), events[1..]);
    }
  }

  /**
    Discard is exactly-once: however attempts with one key race, crash and retry,
    at most one of them changes the draft, and an applied record names the version
    right after the expected one, at which the draft held the tenant configuration
    that the named active revision was resolved from.
   */
  lemma DiscardIsExactlyOnce(events: seq<Event>, key: string)
    ensures
      var s := Run(Initial, events).store;
      && SwapsOf(s, key) <= 1
      && (key in s.records && s.records[key].state.Applied? ==>
           var r := s.records[key];
           && ResolvedFrom(r.request.activeIdentity, r.request.activeDocument)
           && r.resultDraftVersion == Some(r.request.draftVersion + 1)
           && r.request.draftVersion + 1 in s.draftHistory
           && s.draftHistory[r.request.draftVersion + 1] == r.request.activeDocument)
  {
    EveryRunFollows(Initial, events);
    var s := Run(Initial, events).store;
    if key in s.records {
      assert TrueRecord(s, s.records[key]) && TrueSwaps(s, key, s.records[key]);
    }
  }

  /** A successful call returns the stored record of what it asked for, whoever made that record. */
  lemma DiscardedIsWhatWasRequested(events: seq<Event>, client: nat)
    ensures
      var w := Run(Initial, events);
      PcOf(w, client).Done? && PcOf(w, client).outcome.Discarded? ==>
        var call, r := PcOf(w, client).call, PcOf(w, client).outcome.record;
        && call.key in w.store.records && w.store.records[call.key] == r && r.state.Applied?
        && r.request.draftVersion == call.draftVersion && r.request.activeIdentity == call.activeIdentity
        && r.resultDraftVersion == Some(call.draftVersion + 1) && call.draftVersion + 1 in w.store.draftHistory
        && ResolvedFrom(call.activeIdentity, w.store.draftHistory[call.draftVersion + 1])
  {
    EveryRunFollows(Initial, events);
    var w := Run(Initial, events);
    assert TruePc(w.store, PcOf(w, client));
    if PcOf(w, client).Done? && PcOf(w, client).outcome.Discarded? {
      assert TrueRecord(w.store, w.store.records[PcOf(w, client).call.key]);
    }
  }

  /** All successful calls with one key return the same record. */
  lemma AllSuccessesAgree(w: World, events: seq<Event>, first: nat, second: nat)
    requires Invariant(w)
    requires PcOf(w, first).Done? && PcOf(w, first).outcome.Discarded?
    requires PcOf(Run(w, events), second).Done? && PcOf(Run(w, events), second).outcome.Discarded?
    requires PcOf(w, first).call.key == PcOf(Run(w, events), second).call.key
    ensures PcOf(w, first).outcome == PcOf(Run(w, events), second).outcome
  {
    EveryRunFollows(w, events);
    assert TruePc(w.store, PcOf(w, first)) && TruePc(Run(w, events).store, PcOf(Run(w, events), second));
  }

  // ---------------------------------------------------------------- retries with no other writer

  function RunSolo(s: Store, pc: Pc, call: Call, events: seq<SoloEvent<()>>): (Store, Pc)
    decreases |events|
  {
    if events == [] then (s, pc)
    else
      var (s', pc') := if events[0].Tick? then Advance(s, pc, events[0].now) else (s, Started(call));
      RunSolo(s', pc', call, events[1..])
  }

  /** Where crashed attempts of one call can have left the record and the draft. */
  predicate Resumable(s: Store, call: Call, clock: int) {
    && ActiveAuthoring(s).Some? && ActiveAuthoring(s).value.0 == call.activeIdentity
    && s.draft.Some? && s.draft.value.document.TenantConfiguration?
    && var document := ActiveAuthoring(s).value.1;
       var swapped := s.draft.value == Draft(call.draftVersion + 1, document);
       if call.key in s.records then
         var r := s.records[call.key];
         && WellMade(r) && r.createdAt <= clock && r.request == RequestDigest(document, call.activeIdentity, call.draftVersion)
         && (r.state.Applied? ==> swapped && r.resultDraftVersion == Some(call.draftVersion + 1))
         && (r.state.Pending? ==> swapped || s.draft.value.version == call.draftVersion)
         && !r.state.Failed?
       else
         s.draft.value.version == call.draftVersion
  }

  predicate SoloInvariant(s: Store, pc: Pc, call: Call, clock: int) {
    && Resumable(s, call, clock)
    && match pc
       case Started(c) => c == call
       case Reserving(c, r) => c == call && r == Record(
         RequestDigest(ActiveAuthoring(s).value.1, call.activeIdentity, call.draftVersion),
         call.draftVersion, call.activeIdentity, ActiveAuthoring(s).value.1, None, Pending, false, 1, r.createdAt, r.createdAt)
         && r.createdAt <= clock
       case ReadingDraft(c, r) => c == call && SoloHeld(s, call, r)
       case SwappingDraft(c, r) => c == call && SoloHeld(s, call, r) && s.draft.value.version == call.draftVersion
       case Completing(c, r, result) =>
         c == call && SoloHeld(s, call, r) && result == call.draftVersion + 1
         && s.draft.value == Draft(call.draftVersion + 1, r.activeDocument)
       case Done(c, Discarded(r)) => c == call && call.key in s.records && s.records[call.key] == r && r.state.Applied?
       case _ => false
  }

  predicate SoloHeld(s: Store, call: Call, r: Record) {
    call.key in s.records && s.records[call.key] == r && r.state.Pending?
  }

  function StepsLeft(pc: Pc): nat {
    match pc
    case Started(_) => 5
    case Reserving(_, _) => 4
    case ReadingDraft(_, _) => 3
    case SwappingDraft(_, _) => 2
    case Completing(_, _, _) => 1
    case _ => 0
  }

  lemma SoloStep(s: Store, pc: Pc, call: Call, clock: int, now: int)
    requires SoloInvariant(s, pc, call, clock) && now >= clock
    ensures
      var (s', pc') := Advance(s, pc, now);
      && SoloInvariant(s', pc', call, now)
      && StepsLeft(pc') <= (if StepsLeft(pc) == 0 then 0 else StepsLeft(pc) - 1)
  {
  }

  lemma {:induction false} SoloRunKeeps(s: Store, pc: Pc, call: Call, clock: int, events: seq<SoloEvent<()>>)
    requires SoloInvariant(s, pc, call, clock) && Monotone(events, clock)
    ensures
      var (s', pc') := RunSolo(s, pc, call, events);
      SoloInvariant(s', pc', call, FinalClock(events, clock))
    ensures (forall i :: 0 <= i < |events| ==> events[i].Tick?) && |events| >= StepsLeft(pc) ==>
      StepsLeft(RunSolo(s, pc, call, events).1) == 0
    decreases |events|
  {
    if events != [] {
      if events[0].Tick? {
        SoloStep(s, pc, call, clock, events[0].now);
        var (s', pc') := Advance(s, pc, events[0].now);
        SoloRunKeeps(s', pc', call, events[0].now, events[1..]);
      } else {
        SoloRunKeeps(s, Started(call), call, clock, events[1..]);
      }
    }
  }

  /**
    With no other writer, whatever crashes came before, an attempt that is allowed
    five steps ends applied, with the draft at exactly the next version.
   */
  lemma RetryAfterAnyCrashEndsApplied(s: Store, call: Call, clock: int, crashed: seq<SoloEvent<()>>, final: seq<SoloEvent<()>>)
    requires Resumable(s, call, clock) && Monotone(crashed, clock)
    requires |final| >= 5 && (forall i :: 0 <= i < |final| ==> final[i].Tick?) && Monotone(final, FinalClock(crashed, clock))
    ensures
      var (s1, pc1) := RunSolo(s, Started(call), call, crashed);
      var (s2, pc2) := RunSolo(s1, Started(call), call, final);
      && pc2.Done? && pc2.outcome.Discarded?
      && call.key in s2.records && s2.records[call.key] == pc2.outcome.record && pc2.outcome.record.state.Applied?
      && pc2.outcome.record.resultDraftVersion == Some(call.draftVersion + 1)
      && s2.draft == Some(Draft(call.draftVersion + 1, pc2.outcome.record.activeDocument))
  {
    SoloRunKeeps(s, Started(call), call, clock, crashed);
    var (s1, pc1) := RunSolo(s, Started(call), call, crashed);
    SoloRunKeeps(s1, Started(call), call, FinalClock(crashed, clock), final);
  }
}
