/**
  Any number of clients of the production configuration store, interleaved one
  storage request at a time, with crashes (configuration/aws.py).

  A client's program counter holds the local variables of the call it is in.
  Reads and writes are separate steps; an index query may return any rows that
  were ever indexed, because secondary-index reads can be stale.
 */
module AwsClients {
  import opened Wrappers
  import opened Revisions
  import opened AwsStore

  /** A revision row as the secondary index shows it. */
  datatype Entry = Entry(id: RevisionId, parent: Option<RevisionId>)

  datatype Pc =
    | Idle
    | DraftBodyWritten(document: Document, expected: Option<int>)
    | RevisionBodyWritten(id: RevisionId, createdAt: int)
    | TargetRead(id: RevisionId, expectedRevision: Option<RevisionId>, expectedVersion: Option<int>)
    | PointerRead(id: RevisionId, expectedRevision: Option<RevisionId>, expectedVersion: Option<int>, version: int)
    | Deleting(queue: seq<Entry>)
    | CleanupStarted(id: RevisionId, queue: seq<Entry>)
    | CleanupItemRead(id: RevisionId, held: bool, queue: seq<Entry>)
    | CleanupUnclaimed(id: RevisionId, queue: seq<Entry>)
    | CleanupClaimed(id: RevisionId, queue: seq<Entry>)
    | CleanupBodyDone(id: RevisionId, fails: bool, queue: seq<Entry>)

  datatype Request =
    | SwapDraft(document: Document, expected: Option<int>)
    | CreateRevision(id: RevisionId, createdAt: int)
    | SwapActive(id: RevisionId, expectedRevision: Option<RevisionId>, expectedVersion: Option<int>)
    | RetainRevisions(candidates: seq<Entry>)
    | CleanupBody(id: RevisionId)

  datatype Event =
    | Start(client: nat, request: Request)
    | Step(client: nat)
    | BodyDeleteUnavailable(client: nat)
    | Crash(client: nat)

  datatype World = World(store: Store, clients: map<nat, Pc>, indexed: set<Entry>)

  const Initial := World(Empty, map[], {})

  function PcOf(w: World, client: nat): Pc {
    if client in w.clients then w.clients[client] else Idle
  }

  /** Retention goes on with its next candidate; other calls end. */
  function Continue(queue: seq<Entry>): Pc {
    if queue == [] then Idle else Deleting(queue)
  }

  /** The first storage request of a call. */
  function Begin(s: Store, indexed: set<Entry>, request: Request): (Store, Pc) {
    match request
    case SwapDraft(document, expected) =>
      var put := PutDraftBody(s, document);
      if put.Some? then (put.value, DraftBodyWritten(document, expected)) else (s, Idle)
    case CreateRevision(id, createdAt) =>
      var put := PutRevisionBody(s, id);
      if put.Some? then (put.value, RevisionBodyWritten(id, createdAt)) else (s, Idle)
    case SwapActive(id, expectedRevision, expectedVersion) =>
      (s, if IsRevision(s, id) then TargetRead(id, expectedRevision, expectedVersion) else Idle)
    case RetainRevisions(candidates) =>
      (s, if forall e <- candidates :: e in indexed then Continue(candidates) else Idle)
    case CleanupBody(id) =>
      (s, CleanupStarted(id, []))
  }

  /** The next storage request of a call. */
  function Advance(s: Store, pc: Pc): (Store, Pc) {
    match pc
    case Idle => (s, Idle)
    case DraftBodyWritten(document, expected) =>
      var put := PutDraftItem(s, document, expected);
      (if put.Some? then put.value else s, Idle)
    case RevisionBodyWritten(id, createdAt) =>
      var put := CreateRevisionItem(s, id, createdAt);
      (if put.Some? then put.value else s, Idle)
    case TargetRead(id, expectedRevision, expectedVersion) =>
      var current := if s.active.Some? then Some(s.active.value.revision) else None;
      var currentVersion := if s.active.Some? then Some(s.active.value.version) else None;
      if current != expectedRevision || (expectedVersion.Some? && currentVersion != expectedVersion) then
        (s, Idle)
      else
        (s, PointerRead(id, expectedRevision, expectedVersion, if s.active.Some? then s.active.value.version + 1 else 1))
    case PointerRead(id, expectedRevision, expectedVersion, version) =>
      var put := PutActivePointer(s, id, expectedRevision, expectedVersion, version);
      (if put.Some? then put.value else s, Idle)
    case Deleting(queue) =>
      if queue == [] then (s, Idle) else
      var deleted := DeleteRevisionItem(s, queue[0].id, queue[0].parent);
      if deleted.Some? then (deleted.value, CleanupStarted(queue[0].id, queue[1..])) else (s, Idle)
    case CleanupStarted(id, queue) =>
      (s, if IsRevision(s, id) then Idle else CleanupItemRead(id, id in s.items, queue))
    case CleanupItemRead(id, held, queue) =>
      (s, if IsActive(s, id) then Continue(queue) else if held then CleanupClaimed(id, queue) else CleanupUnclaimed(id, queue))
    case CleanupUnclaimed(id, queue) =>
      var acquired := AcquireCleanupMarker(s, id);
      if acquired.Some? then (acquired.value, CleanupClaimed(id, queue)) else (s, Continue(queue))
    case CleanupClaimed(id, queue) =>
      (DeleteRevisionBody(s, id), CleanupBodyDone(id, false, queue))
    case CleanupBodyDone(id, fails, queue) =>
      var released := ReleaseCleanupMarker(s, id);
      (if released.Some? then released.value else s,
       if fails || (released.None? && id in s.items) then Idle else Continue(queue))
  }

  function Next(w: World, event: Event): World {
    var pc := PcOf(w, event.client);
    match event
    case Start(client, request) =>
      if pc.Idle? then Settle(w, client, Begin(w.store, w.indexed, request)) else w
    case Step(client) =>
      Settle(w, client, Advance(w.store, pc))
    case BodyDeleteUnavailable(client) =>
      if pc.CleanupClaimed? then
        w.(clients := w.clients[client := CleanupBodyDone(pc.id, true, pc.queue)])
      else
        w
    case Crash(client) =>
      w.(clients := w.clients[client := Idle])
  }

  function Settle(w: World, client: nat, result: (Store, Pc)): World {
    World(result.0, w.clients[client := result.1], w.indexed + Rows(result.0))
  }

  function Rows(s: Store): set<Entry> {
    set id | id in s.items && s.items[id].Revision? :: Entry(id, s.items[id].parent)
  }

  function Run(w: World, events: seq<Event>): World
    decreases |events|
  {
    if events == [] then w else Run(Next(w, events[0]), events[1..])
  }

  lemma OthersUnchanged(w: World, event: Event, c: nat)
    requires c != event.client
    ensures PcOf(Next(w, event), c) == PcOf(w, c)
  {
  }

  lemma RunFour(w: World, e1: Event, e2: Event, e3: Event, e4: Event)
    ensures Run(w, [e1, e2, e3, e4]) == Next(Next(Next(Next(w, e1), e2), e3), e4)
  {
    assert Run(w, [e1, e2, e3, e4]) == Run(Next(w, e1), [e2, e3, e4]) by {
      assert [e1, e2, e3, e4][1..] == [e2, e3, e4];
    }
    RunThree(Next(w, e1), e2, e3, e4);
  }

  lemma RunThree(w: World, e1: Event, e2: Event, e3: Event)
    ensures Run(w, [e1, e2, e3]) == Next(Next(Next(w, e1), e2), e3)
  {
    var w1, w2 := Next(w, e1), Next(Next(w, e1), e2);
    assert [e1, e2, e3][1..] == [e2, e3] && [e2, e3][1..] == [e3] && [e3][1..] == [];
    assert Run(w1, [e2, e3]) == Run(w2, [e3]);
    assert Run(w2, [e3]) == Run(Next(w2, e3), []);
  }

  // ---------------------------------------------------------------- the forest, under every interleaving

  predicate TrueEntry(e: Entry) {
    e.parent == e.id.parent
  }

  predicate QueueOf(pc: Pc, e: Entry) {
    (pc.Deleting? || pc.CleanupStarted? || pc.CleanupItemRead? || pc.CleanupUnclaimed? || pc.CleanupClaimed? || pc.CleanupBodyDone?)
    && e in pc.queue
  }

  ghost predicate TrueEntries(pc: Pc) {
    forall e :: QueueOf(pc, e) ==> TrueEntry(e)
  }

  /** A client that was given an expected pointer version is about to write its successor, and the first pointer has version one. */
  predicate TrueVersion(pc: Pc) {
    pc.PointerRead? ==>
      && (pc.expectedRevision.None? ==> pc.version == 1)
      && (pc.expectedRevision.Some? && pc.expectedVersion.Some? ==> pc.version == pc.expectedVersion.value + 1)
  }

  ghost predicate WorldInvariant(w: World) {
    && Forest(w.store)
    && (forall e <- w.indexed :: TrueEntry(e))
    && (forall client {:trigger PcOf(w, client)} :: TrueEntries(PcOf(w, client)) && TrueVersion(PcOf(w, client)))
  }

  lemma ForestRows(s: Store)
    requires Forest(s)
    ensures forall e <- Rows(s) :: TrueEntry(e)
  {
    forall e | e in Rows(s) ensures TrueEntry(e) {
      assert IsRevision(s, e.id) && RecordInvariant(s, e.id);
    }
  }

  lemma BeginKeepsInvariant(s: Store, indexed: set<Entry>, request: Request)
    requires Forest(s) && forall e <- indexed :: TrueEntry(e)
    ensures Forest(Begin(s, indexed, request).0)
    ensures TrueEntries(Begin(s, indexed, request).1) && TrueVersion(Begin(s, indexed, request).1)
  {
    SameRecords(s, Begin(s, indexed, request).0);
  }

  lemma AdvanceKeepsInvariant(s: Store, pc: Pc)
    requires Forest(s) && TrueEntries(pc) && TrueVersion(pc)
    ensures Forest(Advance(s, pc).0)
    ensures TrueEntries(Advance(s, pc).1) && TrueVersion(Advance(s, pc).1)
  {
    match pc
    case RevisionBodyWritten(id, createdAt) =>
      if CreateRevisionItem(s, id, createdAt).Some? {
        CreateKeepsForest(s, id, createdAt);
      }
    case Deleting(queue) =>
      if queue != [] {
        assert QueueOf(pc, queue[0]);
        if DeleteRevisionItem(s, queue[0].id, queue[0].parent).Some? {
          DeleteKeepsForest(s, queue[0].id);
        }
        assert forall e :: QueueOf(CleanupStarted(queue[0].id, queue[1..]), e) ==> QueueOf(pc, e);
      }
    case CleanupStarted(id, queue) =>
      assert forall e :: QueueOf(Advance(s, pc).1, e) ==> QueueOf(pc, e);
    case CleanupItemRead(id, held, queue) =>
      assert forall e :: QueueOf(Advance(s, pc).1, e) ==> QueueOf(pc, e);
    case CleanupUnclaimed(id, queue) =>
      MarkerKeepsForest(s, id);
      assert forall e :: QueueOf(Advance(s, pc).1, e) ==> QueueOf(pc, e);
    case CleanupClaimed(id, queue) =>
      SameRecords(s, DeleteRevisionBody(s, id));
      assert forall e :: QueueOf(Advance(s, pc).1, e) ==> QueueOf(pc, e);
    case CleanupBodyDone(id, fails, queue) =>
      MarkerKeepsForest(s, id);
      assert forall e :: QueueOf(Advance(s, pc).1, e) ==> QueueOf(pc, e);
    case _ =>
      SameRecords(s, Advance(s, pc).0);
  }

  lemma NextKeepsInvariant(w: World, event: Event)
    requires WorldInvariant(w)
    ensures WorldInvariant(Next(w, event))
  {
    var w' := Next(w, event);
    assert TrueEntries(PcOf(w, event.client)) && TrueVersion(PcOf(w, event.client));
    match event {
      case Start(client, request) => BeginKeepsInvariant(w.store, w.indexed, request);
      case Step(client) => AdvanceKeepsInvariant(w.store, PcOf(w, client));
      case BodyDeleteUnavailable(client) =>
        assert forall e :: QueueOf(PcOf(w', client), e) ==> QueueOf(PcOf(w, client), e);
      case Crash(client) =>
    }
    ForestRows(w'.store);
    forall c ensures TrueEntries(PcOf(w', c)) && TrueVersion(PcOf(w', c)) {
      if c != event.client {
        assert PcOf(w', c) == PcOf(w, c);
      }
    }
  }

  /**
    In every state that any interleaving of calls and crashes reaches, the counts
    are exact, every named parent has a record, and the active pointer refers to a record.
   */
  lemma {:induction false} EveryRunKeepsForest(w: World, events: seq<Event>)
    requires WorldInvariant(w)
    ensures WorldInvariant(Run(w, events))
    decreases |events|
  {
    if events != [] {
      NextKeepsInvariant(w, events[0]);
      EveryRunKeepsForest(Next(w, events[0]), events[1..]);
    }
  }

  lemma ReachableForest(events: seq<Event>)
    ensures WorldInvariant(Run(Initial, events))
  {
    EveryRunKeepsForest(Initial, events);
  }

  /** A retaining client is stopped only by its own record: the parent-side condition never fails alone. */
  lemma DeleteStopsOnlyAtItsOwnRecord(events: seq<Event>, client: nat)
    ensures
      var w := Run(Initial, events);
      var pc := PcOf(w, client);
      pc.Deleting? && pc.queue != [] ==>
        (DeleteRevisionItem(w.store, pc.queue[0].id, pc.queue[0].parent).None? <==> !DeleteAllowed(w.store, pc.queue[0].id))
  {
    ReachableForest(events);
    var w := Run(Initial, events);
    var pc := PcOf(w, client);
    if pc.Deleting? && pc.queue != [] {
      assert QueueOf(pc, pc.queue[0]);
      if DeleteAllowed(w.store, pc.queue[0].id) {
        ParentNeverBlocksDelete(w.store, pc.queue[0].id);
      }
    }
  }
}
