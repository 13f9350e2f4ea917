/**
  Presence of S3 bodies: which interleavings keep the body of every revision
  record and of the draft, and what a crash leaves behind (configuration/aws.py).
 */
module AwsBodies {
  import opened Wrappers
  import opened Revisions
  import opened AwsStore
  import opened AwsClients

  /** Every stored body is the content that its key commits to. */
  ghost predicate BodiesTrue(s: Store) {
    && (forall id <- s.revisionBodies :: s.revisionBodies[id] == id.document)
    && (forall d <- s.draftBodies :: s.draftBodies[d] == d)
  }

  /** The draft, and every draft about to be stored, has its body. */
  ghost predicate DraftsReadable(w: World) {
    && (w.store.draft.Some? ==> w.store.draft.value.bodyKey in w.store.draftBodies)
    && (forall c {:trigger PcOf(w, c)} :: PcOf(w, c).DraftBodyWritten? ==> PcOf(w, c).document in w.store.draftBodies)
  }

  /** Every revision record, and every record about to be created, has its body. */
  ghost predicate RevisionsReadable(w: World) {
    && (forall id {:trigger IsRevision(w.store, id)} :: IsRevision(w.store, id) ==> id in w.store.revisionBodies)
    && (forall c {:trigger PcOf(w, c)} :: PcOf(w, c).RevisionBodyWritten? ==> PcOf(w, c).id in w.store.revisionBodies)
  }

  /** The client has put the body of `id` and is about to create its record. */
  predicate Creating(pc: Pc, id: RevisionId) {
    pc.RevisionBodyWritten? && pc.id == id
  }

  /** The step deletes the body of an existing record, or of one whose creator is between its two writes. */
  ghost predicate HarmfulDelete(w: World, event: Event) {
    var pc := PcOf(w, event.client);
    && event.Step? && pc.CleanupClaimed?
    && (IsRevision(w.store, pc.id) || exists c :: Creating(PcOf(w, c), pc.id))
  }

  predicate DraftReadable(s: Store, pc: Pc) {
    && (s.draft.Some? ==> s.draft.value.bodyKey in s.draftBodies)
    && (pc.DraftBodyWritten? ==> pc.document in s.draftBodies)
  }

  lemma BeginKeepsDrafts(s: Store, indexed: set<Entry>, request: Request)
    requires BodiesTrue(s) && DraftReadable(s, Idle)
    ensures
      var (s', pc') := Begin(s, indexed, request);
      BodiesTrue(s') && DraftReadable(s', pc') && forall d <- s.draftBodies :: d in s'.draftBodies
  {
  }

  lemma AdvanceKeepsDrafts(s: Store, pc: Pc)
    requires BodiesTrue(s) && DraftReadable(s, pc)
    ensures
      var (s', pc') := Advance(s, pc);
      BodiesTrue(s') && DraftReadable(s', pc') && forall d <- s.draftBodies :: d in s'.draftBodies
  {
  }

  /** Draft bodies stay present and true under every interleaving. */
  lemma NextKeepsDrafts(w: World, event: Event)
    requires BodiesTrue(w.store) && DraftsReadable(w)
    ensures BodiesTrue(Next(w, event).store) && DraftsReadable(Next(w, event))
  {
    var w' := Next(w, event);
    assert DraftReadable(w.store, PcOf(w, event.client));
    match event {
      case Start(client, request) => BeginKeepsDrafts(w.store, w.indexed, request);
      case Step(client) => AdvanceKeepsDrafts(w.store, PcOf(w, client));
      case BodyDeleteUnavailable(client) =>
      case Crash(client) =>
    }
    assert DraftReadable(w'.store, PcOf(w', event.client));
    forall c | PcOf(w', c).DraftBodyWritten?
      ensures PcOf(w', c).document in w'.store.draftBodies
    {
      if c != event.client {
        OthersUnchanged(w, event, c);
      }
    }
  }

  lemma {:induction false} EveryRunKeepsDrafts(w: World, events: seq<Event>)
    requires BodiesTrue(w.store) && DraftsReadable(w)
    ensures BodiesTrue(Run(w, events).store) && DraftsReadable(Run(w, events))
    decreases |events|
  {
    if events != [] {
      NextKeepsDrafts(w, events[0]);
      EveryRunKeepsDrafts(Next(w, events[0]), events[1..]);
    }
  }

  /** A step that is not a harmful delete only ever adds needed bodies. */
  lemma HarmlessStepKeepsBodies(w: World, event: Event, id: RevisionId)
    requires RevisionsReadable(w) && !HarmfulDelete(w, event)
    requires IsRevision(w.store, id) || exists c :: Creating(PcOf(w, c), id)
    ensures id in Next(w, event).store.revisionBodies
  {
    assert id in w.store.revisionBodies;
  }

  lemma NewRecordWasWritten(w: World, event: Event, id: RevisionId)
    requires IsRevision(Next(w, event).store, id) && !IsRevision(w.store, id)
    ensures Creating(PcOf(w, event.client), id)
  {
  }

  /**
    From a state where every record has its body, a step keeps it so exactly when
    it is not a harmful delete.
   */
  lemma BodiesKeptIffNoHarmfulDelete(w: World, event: Event)
    requires RevisionsReadable(w) && BodiesTrue(w.store)
    ensures RevisionsReadable(Next(w, event)) <==> !HarmfulDelete(w, event)
  {
    var w' := Next(w, event);
    if HarmfulDelete(w, event) {
      var id := PcOf(w, event.client).id;
      assert id !in w'.store.revisionBodies;
      if IsRevision(w.store, id) {
        assert IsRevision(w'.store, id);
      } else {
        var c :| Creating(PcOf(w, c), id);
        OthersUnchanged(w, event, c);
      }
    } else {
      forall id | IsRevision(w'.store, id) ensures id in w'.store.revisionBodies {
        if !IsRevision(w.store, id) {
          NewRecordWasWritten(w, event, id);
        }
        HarmlessStepKeepsBodies(w, event, id);
      }
      forall c | PcOf(w', c).RevisionBodyWritten? ensures PcOf(w', c).id in w'.store.revisionBodies {
        if c != event.client {
          OthersUnchanged(w, event, c);
          assert Creating(PcOf(w, c), PcOf(w, c).id);
          HarmlessStepKeepsBodies(w, event, PcOf(w, c).id);
        }
      }
    }
  }

  // ---------------------------------------------------------------- creations that do not overlap cleanups

  /** The client has found that `id` has no record, and has not finished removing what is left of it. */
  predicate Cleaning(pc: Pc, id: RevisionId) {
    (pc.CleanupItemRead? || pc.CleanupUnclaimed? || pc.CleanupClaimed? || pc.CleanupBodyDone?) && pc.id == id
  }

  /** No id is both being created and being cleaned up. */
  ghost predicate Apart(w: World) {
    forall c, d, id {:trigger Creating(PcOf(w, c), id), Cleaning(PcOf(w, d), id)} ::
      Creating(PcOf(w, c), id) ==> !Cleaning(PcOf(w, d), id)
  }

  ghost predicate StaysApart(w: World, events: seq<Event>)
    decreases |events|
  {
    Apart(w) && (events == [] || StaysApart(Next(w, events[0]), events[1..]))
  }

  /** Every record has its body, and what is being cleaned up has no record. */
  ghost predicate Separated(w: World) {
    && RevisionsReadable(w) && BodiesTrue(w.store)
    && forall c, id {:trigger Cleaning(PcOf(w, c), id)} :: Cleaning(PcOf(w, c), id) ==> !IsRevision(w.store, id)
  }

  lemma SeparatedIsHarmless(w: World, event: Event)
    requires Separated(w) && Apart(w)
    ensures !HarmfulDelete(w, event)
  {
    var pc := PcOf(w, event.client);
    assert pc.CleanupClaimed? ==> Cleaning(pc, pc.id);
  }

  lemma NoRecordAppears(w: World, event: Event, id: RevisionId)
    requires !IsRevision(w.store, id) && !Creating(PcOf(w, event.client), id)
    ensures !IsRevision(Next(w, event).store, id)
  {
    if IsRevision(Next(w, event).store, id) {
      NewRecordWasWritten(w, event, id);
    }
  }

  lemma CleaningStarted(w: World, event: Event, c: nat, id: RevisionId)
    requires Apart(w) && Cleaning(PcOf(Next(w, event), c), id)
    ensures Cleaning(PcOf(w, c), id) || !IsRevision(w.store, id)
    ensures !Creating(PcOf(w, event.client), id)
  {
    if c != event.client {
      OthersUnchanged(w, event, c);
      assert Cleaning(PcOf(w, c), id);
    }
  }

  lemma NextStaysSeparated(w: World, event: Event)
    requires Separated(w) && Apart(w)
    ensures Separated(Next(w, event))
  {
    var w' := Next(w, event);
    SeparatedIsHarmless(w, event);
    BodiesKeptIffNoHarmfulDelete(w, event);
    NextKeepsTrueBodies(w, event);
    forall c, id | Cleaning(PcOf(w', c), id) ensures !IsRevision(w'.store, id) {
      CleaningStarted(w, event, c, id);
      NoRecordAppears(w, event, id);
    }
  }

  /**
    Under every interleaving in which no creation of an id overlaps a cleanup of
    the same id, every record keeps its body.
   */
  lemma {:induction false} SeparateRunKeepsBodies(w: World, events: seq<Event>)
    requires Separated(w) && StaysApart(w, events)
    ensures Separated(Run(w, events))
    decreases |events|
  {
    if events != [] {
      NextStaysSeparated(w, events[0]);
      SeparateRunKeepsBodies(Next(w, events[0]), events[1..]);
    }
  }

  lemma EveryRecordHasItsBodyUnlessOverlapped(events: seq<Event>)
    requires StaysApart(Initial, events)
    ensures
      var s := Run(Initial, events).store;
      forall id :: IsRevision(s, id) ==> id in s.revisionBodies && s.revisionBodies[id] == id.document
  {
    assert Separated(Initial);
    SeparateRunKeepsBodies(Initial, events);
  }

  // ---------------------------------------------------------------- calls that do not overlap

  /** Calls do not overlap: a call starts only while every client is idle. */
  function NextAlone(w: World, event: Event): World {
    if event.Start? && exists c <- w.clients :: !w.clients[c].Idle? then w else Next(w, event)
  }

  function RunAlone(w: World, events: seq<Event>): World
    decreases |events|
  {
    if events == [] then w else RunAlone(NextAlone(w, events[0]), events[1..])
  }

  /** Only one client is inside a call, and a claimed cleanup owns the marker at its key. */
  ghost predicate AloneInvariant(w: World) {
    && RevisionsReadable(w) && BodiesTrue(w.store)
    && (forall c, d :: !PcOf(w, c).Idle? && !PcOf(w, d).Idle? ==> c == d)
    && (forall c {:trigger PcOf(w, c)} :: OwnsMarker(w.store, PcOf(w, c)))
  }

  predicate OwnsMarker(s: Store, pc: Pc) {
    pc.CleanupClaimed? || pc.CleanupBodyDone? || (pc.CleanupItemRead? && pc.held) ==>
      pc.id in s.items && s.items[pc.id].CleanupMarker?
  }

  lemma AloneIsHarmless(w: World, event: Event)
    requires AloneInvariant(w)
    ensures !HarmfulDelete(w, event)
  {
    assert OwnsMarker(w.store, PcOf(w, event.client));
  }

  lemma AdvanceOwnsMarker(s: Store, pc: Pc)
    requires OwnsMarker(s, pc)
    ensures OwnsMarker(Advance(s, pc).0, Advance(s, pc).1)
  {
  }

  /** Only a client inside a call, or one starting while all are idle, changes the store or enters a call. */
  lemma OnlyOneClientActs(w: World, event: Event)
    requires AloneInvariant(w)
    ensures
      var w' := NextAlone(w, event);
      w'.store != w.store || !PcOf(w', event.client).Idle? ==>
        forall c :: c != event.client ==> PcOf(w, c).Idle?
  {
    var w' := NextAlone(w, event);
    if event.Start? && w' == w {
    } else if event.Start? {
      assert forall c :: PcOf(w, c).Idle?;
    } else if !PcOf(w, event.client).Idle? {
      assert forall c :: c != event.client ==> PcOf(w, c).Idle?;
    }
  }

  lemma NextKeepsTrueBodies(w: World, event: Event)
    requires BodiesTrue(w.store)
    ensures BodiesTrue(Next(w, event).store)
  {
    match event {
      case Start(client, request) => BeginKeepsTrueBodies(w.store, w.indexed, request);
      case Step(client) => AdvanceKeepsTrueBodies(w.store, PcOf(w, client));
      case BodyDeleteUnavailable(client) =>
      case Crash(client) =>
    }
  }

  lemma BeginKeepsTrueBodies(s: Store, indexed: set<Entry>, request: Request)
    requires BodiesTrue(s)
    ensures BodiesTrue(Begin(s, indexed, request).0)
  {
  }

  lemma AdvanceKeepsTrueBodies(s: Store, pc: Pc)
    requires BodiesTrue(s)
    ensures BodiesTrue(Advance(s, pc).0)
  {
  }

  lemma NextAloneKeepsInvariant(w: World, event: Event)
    requires AloneInvariant(w)
    ensures AloneInvariant(NextAlone(w, event))
  {
    var w', client := NextAlone(w, event), event.client;
    if w' != w {
      AloneIsHarmless(w, event);
      BodiesKeptIffNoHarmfulDelete(w, event);
      NextKeepsTrueBodies(w, event);
      OnlyOneClientActs(w, event);
      forall c ensures OwnsMarker(w'.store, PcOf(w', c)) {
        assert OwnsMarker(w.store, PcOf(w, c));
        if c == client {
          AdvanceOwnsMarker(w.store, PcOf(w, client));
        } else {
          OthersUnchanged(w, event, c);
        }
      }
      forall c, d | !PcOf(w', c).Idle? && !PcOf(w', d).Idle? ensures c == d {
        if c != client { OthersUnchanged(w, event, c); }
        if d != client { OthersUnchanged(w, event, d); }
      }
    }
  }

  /** However calls that do not overlap stop and crash, every record keeps its body. */
  lemma {:induction false} RunAloneKeepsBodies(w: World, events: seq<Event>)
    requires AloneInvariant(w)
    ensures AloneInvariant(RunAlone(w, events))
    decreases |events|
  {
    if events != [] {
      NextAloneKeepsInvariant(w, events[0]);
      RunAloneKeepsBodies(NextAlone(w, events[0]), events[1..]);
    }
  }

  lemma EveryRecordHasItsBody(events: seq<Event>)
    ensures
      var s := RunAlone(Initial, events).store;
      && (forall id :: IsRevision(s, id) ==> id in s.revisionBodies && s.revisionBodies[id] == id.document)
    ensures
      var s := Run(Initial, events).store;
      s.draft.Some? ==> s.draft.value.bodyKey in s.draftBodies && s.draftBodies[s.draft.value.bodyKey] == s.draft.value.bodyKey
  {
    RunAloneKeepsBodies(Initial, events);
    EveryRunKeepsDrafts(Initial, events);
  }

  // ---------------------------------------------------------------- leftover markers

  /** A marker left by a crash blocks re-creation until a cleanup has run to its end. */
  lemma LeftoverMarkerBlocksUntilCleanup(s: Store, id: RevisionId, createdAt: int)
    requires Forest(s) && id in s.items && s.items[id].CleanupMarker?
    ensures Advance(s, RevisionBodyWritten(id, createdAt)) == (s, Idle)
    ensures
      var (s1, pc1) := Advance(s, CleanupStarted(id, []));
      var (s2, pc2) := Advance(s1, pc1);
      var (s3, pc3) := Advance(s2, pc2);
      var (s4, pc4) := Advance(s3, pc3);
      && pc4 == Idle && s4 == s.(items := s.items - {id}, revisionBodies := s.revisionBodies - {id})
      && ((id.parent.Some? ==> IsRevision(s, id.parent.value)) ==> CreateRevisionItem(s4, id, createdAt).Some?)
  {
  }

  /**
    The overlap that loses a body, from every state in which a cleanup is about
    to delete: another client re-puts the body before the delete and creates the
    record after the marker is released.
   */
  lemma OverlappingCleanupLosesBody(w: World, cleaner: nat, creator: nat, id: RevisionId, createdAt: int)
    requires cleaner != creator && PcOf(w, creator).Idle?
    requires PcOf(w, cleaner).CleanupClaimed? && PcOf(w, cleaner).id == id
    requires id in w.store.items && w.store.items[id].CleanupMarker? && BodiesTrue(w.store)
    requires id.parent.Some? ==> IsRevision(w.store, id.parent.value)
    ensures
      var s := Run(w, [Start(creator, CreateRevision(id, createdAt)), Step(cleaner), Step(cleaner), Step(creator)]).store;
      IsRevision(s, id) && id !in s.revisionBodies
  {
    var e1, e2, e3, e4 := Start(creator, CreateRevision(id, createdAt)), Step(cleaner), Step(cleaner), Step(creator);
    var w1 := Next(w, e1);
    assert PcOf(w1, creator) == RevisionBodyWritten(id, createdAt) && w1.store.items == w.store.items;
    var w2 := Next(w1, e2);
    assert PcOf(w2, cleaner).CleanupBodyDone? && id !in w2.store.revisionBodies && w2.store.items == w.store.items;
    var w3 := Next(w2, e3);
    assert w3.store.items == w.store.items - {id} && id !in w3.store.revisionBodies;
    assert PcOf(w3, creator) == RevisionBodyWritten(id, createdAt);
    assert CreateRevisionItem(w3.store, id, createdAt).Some?;
    RunFour(w, e1, e2, e3, e4);
  }
}
