/**
  What a failed discard says about the draft (configuration/publication.py).

  A discard swaps the draft before it settles its record, so a record can fail
  although its swap took place: an overlapping attempt with the same key, or a
  crash followed by another draft write, is enough.
 */
module DiscardFailures {
  import opened Wrappers
  import opened Revisions
  import opened Discard

  /** A swap took place, and no attempt has settled the record since. */
  predicate Unsettled(s: Store, key: string) {
    key in s.records && s.records[key].state.Pending? && SwapsOf(s, key) == 1
  }

  predicate InCall(pc: Pc, key: string) {
    !pc.Idle? && !pc.Done? && pc.call.key == key
  }

  /**
    The step keeps calls with the key from overlapping, and leaves the draft
    alone between a swap and the settling of its record.
   */
  ghost predicate Undisturbed(w: World, event: Event, key: string) {
    && (event.Start? && event.call.key == key ==> forall c {:trigger PcOf(w, c)} :: !InCall(PcOf(w, c), key))
    && (Unsettled(w.store, key) ==> Next(w, event).store.draft == w.store.draft)
  }

  ghost predicate UndisturbedRun(w: World, events: seq<Event>, key: string)
    decreases |events|
  {
    events == [] || (Undisturbed(w, events[0], key) && UndisturbedRun(Next(w, events[0]), events[1..], key))
  }

  predicate HoldsRecord(pc: Pc) {
    pc.ReadingDraft? || pc.SwappingDraft? || pc.Completing? || pc.Failing?
  }

  /** A client inside a call with the key holds the stored pending record, and acts on a draft that is still as it was. */
  predicate CalmPc(s: Store, pc: Pc, key: string) {
    InCall(pc, key) && HoldsRecord(pc) ==>
      && key in s.records && s.records[key] == pc.record && pc.record.state.Pending?
      && (pc.SwappingDraft? || pc.Failing? ==> SwapsOf(s, key) == 0)
  }

  ghost predicate CallsApart(w: World, key: string) {
    forall c, d {:trigger PcOf(w, c), PcOf(w, d)} :: InCall(PcOf(w, c), key) && InCall(PcOf(w, d), key) ==> c == d
  }

  ghost predicate Calm(w: World, key: string) {
    && CallsApart(w, key)
    && (forall c {:trigger PcOf(w, c)} :: CalmPc(w.store, PcOf(w, c), key))
    && CalmStore(w.store, key)
  }

  predicate CalmStore(s: Store, key: string) {
    && (Unsettled(s, key) ==>
         s.draft == Some(Draft(s.records[key].expectedDraftVersion + 1, s.records[key].activeDocument)))
    && (key in s.records && s.records[key].state.Failed? ==> SwapsOf(s, key) == 0)
  }

  lemma AdvanceStaysCalm(s: Store, pc: Pc, now: int, key: string)
    requires StoreInvariant(s) && TruePc(s, pc) && CalmStore(s, key) && CalmPc(s, pc, key)
    requires Unsettled(s, key) ==> Advance(s, pc, now).0.draft == s.draft
    ensures CalmStore(Advance(s, pc, now).0, key) && CalmPc(Advance(s, pc, now).0, Advance(s, pc, now).1, key)
  {
    if key in s.records {
      assert TrueRecord(s, s.records[key]) && TrueSwaps(s, key, s.records[key]);
    } else {
      assert SwapsOf(s, key) == 0;
    }
    if !InCall(pc, key) {
      OtherCallKeepsKey(s, pc, now, key);
    } else if pc.SwappingDraft? {
      SwapStaysCalm(s, pc, now, key);
    } else {
      NoSwapStaysCalm(s, pc, now, key);
    }
  }

  lemma SwapStaysCalm(s: Store, pc: Pc, now: int, key: string)
    requires StoreInvariant(s) && TruePc(s, pc) && CalmStore(s, key) && CalmPc(s, pc, key)
    requires InCall(pc, key) && pc.SwappingDraft?
    ensures CalmStore(Advance(s, pc, now).0, key) && CalmPc(Advance(s, pc, now).0, Advance(s, pc, now).1, key)
  {
  }

  lemma NoSwapStaysCalm(s: Store, pc: Pc, now: int, key: string)
    requires StoreInvariant(s) && TruePc(s, pc) && CalmStore(s, key) && CalmPc(s, pc, key)
    requires InCall(pc, key) && !pc.SwappingDraft?
    requires key !in s.records ==> SwapsOf(s, key) == 0
    requires key in s.records ==> TrueRecord(s, s.records[key]) && TrueSwaps(s, key, s.records[key])
    ensures CalmStore(Advance(s, pc, now).0, key) && CalmPc(Advance(s, pc, now).0, Advance(s, pc, now).1, key)
  {
    assert SwapsOf(Advance(s, pc, now).0, key) == SwapsOf(s, key) && Advance(s, pc, now).0.draft == s.draft;
  }

  lemma OtherCallKeepsKey(s: Store, pc: Pc, now: int, key: string)
    requires !InCall(pc, key)
    ensures
      var (s', pc') := Advance(s, pc, now);
      && (key in s.records <==> key in s'.records) && (key in s.records ==> s'.records[key] == s.records[key])
      && SwapsOf(s', key) == SwapsOf(s, key) && !InCall(pc', key)
  {
  }

  lemma NextKeepsCallsApart(w: World, event: Event, key: string)
    requires CallsApart(w, key) && Undisturbed(w, event, key)
    ensures CallsApart(Next(w, event), key)
  {
    var w' := Next(w, event);
    if event.Step? && !InCall(PcOf(w, event.client), key) {
      OtherCallKeepsKey(w.store, PcOf(w, event.client), event.now, key);
    }
    forall c, d | InCall(PcOf(w', c), key) && InCall(PcOf(w', d), key) ensures c == d {
      assert InCall(PcOf(w, c), key) || (event.Start? && c == event.client && event.call.key == key);
      assert InCall(PcOf(w, d), key) || (event.Start? && d == event.client && event.call.key == key);
    }
  }

  lemma NextKeepsCalmStore(w: World, event: Event, key: string)
    requires Invariant(w) && Calm(w, key) && Undisturbed(w, event, key)
    ensures CalmStore(Next(w, event).store, key)
  {
    if event.Step? {
      assert TruePc(w.store, PcOf(w, event.client)) && CalmPc(w.store, PcOf(w, event.client), key);
      AdvanceStaysCalm(w.store, PcOf(w, event.client), event.now, key);
    } else {
      assert SwapsOf(Next(w, event).store, key) == SwapsOf(w.store, key) && Next(w, event).store.records == w.store.records;
    }
  }

  lemma NextKeepsCalmPc(w: World, event: Event, key: string, c: nat)
    requires Invariant(w) && Calm(w, key) && Undisturbed(w, event, key)
    ensures CalmPc(Next(w, event).store, PcOf(Next(w, event), c), key)
  {
    assert CalmPc(w.store, PcOf(w, c), key);
    if event.Step? {
      assert TruePc(w.store, PcOf(w, event.client)) && CalmPc(w.store, PcOf(w, event.client), key);
      if c == event.client {
        AdvanceStaysCalm(w.store, PcOf(w, event.client), event.now, key);
      } else if InCall(PcOf(w, c), key) {
        OtherCallKeepsKey(w.store, PcOf(w, event.client), event.now, key);
      }
    } else {
      assert SwapsOf(Next(w, event).store, key) == SwapsOf(w.store, key) && Next(w, event).store.records == w.store.records;
    }
  }

  lemma NextStaysCalm(w: World, event: Event, key: string)
    requires Invariant(w) && Calm(w, key) && Undisturbed(w, event, key)
    ensures Calm(Next(w, event), key)
  {
    NextKeepsCallsApart(w, event, key);
    NextKeepsCalmStore(w, event, key);
    forall c ensures CalmPc(Next(w, event).store, PcOf(Next(w, event), c), key) {
      NextKeepsCalmPc(w, event, key, c);
    }
  }

  lemma {:induction false} UndisturbedRunStaysCalm(w: World, events: seq<Event>, key: string)
    requires Invariant(w) && Calm(w, key) && UndisturbedRun(w, events, key)
    ensures Calm(Run(w, events), key)
    decreases |events|
  {
    if events != [] {
      NextKeeps(w, events[0]);
      NextStaysCalm(w, events[0], key);
      UndisturbedRunStaysCalm(Next(w, events[0]), events[1..], key);
    }
  }

  /**
    A failed discard left the draft alone, in every run in which calls with the
    key do not overlap and nothing writes the draft between a swap and the
    settling of its record.
   */
  lemma UndisturbedFailureLeavesDraft(events: seq<Event>, key: string)
    requires UndisturbedRun(Initial, events, key)
    ensures
      var s := Run(Initial, events).store;
      key in s.records && s.records[key].state.Failed? ==> SwapsOf(s, key) == 0
  {
    assert forall c :: PcOf(Initial, c) == Idle;
    UndisturbedRunStaysCalm(Initial, events, key);
  }

  /** Whatever disturbed the run, a swap that took place wrote the active document as the next version. */
  lemma SwapWroteActiveDocument(events: seq<Event>, key: string)
    ensures
      var s := Run(Initial, events).store;
      SwapsOf(s, key) == 1 ==>
        && key in s.records
        && var r := s.records[key];
        && r.request.draftVersion + 1 in s.draftHistory
        && s.draftHistory[r.request.draftVersion + 1] == r.request.activeDocument
  {
    EveryRunFollows(Initial, events);
    var s := Run(Initial, events).store;
    if key in s.records {
      assert TrueRecord(s, s.records[key]) && TrueSwaps(s, key, s.records[key]);
    }
  }

  // ---------------------------------------------------------------- what an overwritten swap can still become

  /** The swap is overwritten, and no attempt is about to complete. */
  ghost predicate Overwritten(w: World, key: string) {
    && key in w.store.records && !w.store.records[key].state.Applied?
    && w.store.draft.Some? && w.store.draft.value.version > w.store.records[key].expectedDraftVersion + 1
    && forall c {:trigger PcOf(w, c)} :: InCall(PcOf(w, c), key) ==> !PcOf(w, c).Completing?
  }

  lemma AdvanceStaysOverwritten(s: Store, pc: Pc, now: int, key: string)
    requires StoreInvariant(s) && TruePc(s, pc)
    requires key in s.records && !s.records[key].state.Applied?
    requires s.draft.Some? && s.draft.value.version > s.records[key].expectedDraftVersion + 1
    requires InCall(pc, key) ==> !pc.Completing?
    ensures
      var (s', pc') := Advance(s, pc, now);
      && key in s'.records && !s'.records[key].state.Applied?
      && s'.records[key].expectedDraftVersion == s.records[key].expectedDraftVersion
      && s'.draft.Some? && s'.draft.value.version >= s.draft.value.version
      && (InCall(pc', key) ==> !pc'.Completing?)
  {
    assert TrueRecord(s, s.records[key]);
    if !InCall(pc, key) {
      OtherCallKeepsKey(s, pc, now, key);
    } else if pc.ReadingDraft? || pc.SwappingDraft? {
      LateAttemptCannotComplete(s, pc, now);
    } else {
      assert Advance(s, pc, now).0.draft == s.draft;
    }
  }

  lemma LateAttemptCannotComplete(s: Store, pc: Pc, now: int)
    requires (pc.ReadingDraft? || pc.SwappingDraft?) && s.draft.Some?
    requires s.draft.value.version > pc.record.expectedDraftVersion + 1
    ensures Advance(s, pc, now).0 == s && !Advance(s, pc, now).1.Completing?
  {
  }

  lemma NextStaysOverwritten(w: World, event: Event, key: string)
    requires Invariant(w) && Overwritten(w, key)
    ensures Overwritten(Next(w, event), key)
  {
    var w' := Next(w, event);
    if event.Step? {
      assert TruePc(w.store, PcOf(w, event.client));
      AdvanceStaysOverwritten(w.store, PcOf(w, event.client), event.now, key);
    }
    forall c | InCall(PcOf(w', c), key) ensures !PcOf(w', c).Completing? {
      assert InCall(PcOf(w, c), key) ==> !PcOf(w, c).Completing?;
    }
  }

  lemma {:induction false} OverwrittenSwapIsNeverApplied(w: World, events: seq<Event>, key: string)
    requires Invariant(w) && Overwritten(w, key)
    ensures Overwritten(Run(w, events), key)
    decreases |events|
  {
    if events != [] {
      NextKeeps(w, events[0]);
      NextStaysOverwritten(w, events[0], key);
      OverwrittenSwapIsNeverApplied(Next(w, events[0]), events[1..], key);
    }
  }

  // ---------------------------------------------------------------- concrete runs

  lemma {:induction false} RunNext(w: World, events: seq<Event>, event: Event)
    ensures Run(w, events + [event]) == Next(Run(w, events), event)
    decreases |events|
  {
    if events == [] {
      assert events + [event] == [event] && [event][1..] == [];
      assert Run(Next(w, event), []) == Next(w, event);
    } else {
      assert (events + [event])[1..] == events[1..] + [event];
      RunNext(Next(w, events[0]), events[1..], event);
    }
  }

  /** The steps of one client, with one reading of the clock. */
  function Steps(client: nat, now: int, n: nat): seq<Event> {
    seq(n, _ => Step(client, now))
  }

  function AfterSteps(w: World, client: nat, now: int, n: nat): World
    decreases n
  {
    if n == 0 then w else Next(AfterSteps(w, client, now, n - 1), Step(client, now))
  }

  lemma {:induction false} RunSteps(w: World, client: nat, now: int, n: nat)
    ensures Run(w, Steps(client, now, n)) == AfterSteps(w, client, now, n)
    decreases n
  {
    if n > 0 {
      RunSteps(w, client, now, n - 1);
      assert Steps(client, now, n) == Steps(client, now, n - 1) + [Step(client, now)];
      RunNext(w, Steps(client, now, n - 1), Step(client, now));
    }
  }

  lemma {:induction false} RunJoins(w: World, first: seq<Event>, second: seq<Event>)
    ensures Run(w, first + second) == Run(Run(w, first), second)
    decreases |first|
  {
    if first == [] {
      assert first + second == second;
    } else {
      assert (first + second)[1..] == first[1..] + second;
      RunJoins(Next(w, first[0]), first[1..], second);
    }
  }

  /** The active revision and its source are in place for a call. */
  predicate Ready(s: Store, call: Call) {
    ActiveAuthoring(s).Some? && ActiveAuthoring(s).value.0 == call.activeIdentity
  }

  /** A call is about to start on a record whose swap took place. */
  ghost predicate FreshAttempt(w: World, client: nat, call: Call, now: int) {
    && PcOf(w, client) == Started(call) && Ready(w.store, call)
    && Unsettled(w.store, call.key) && Answers(w.store.records[call.key], call)
    && now >= w.store.records[call.key].createdAt
    && w.store.draft.Some? && w.store.draft.value.document.TenantConfiguration?
  }

  /** A fresh attempt at an unsettled record completes it if the draft is as the swap left it, and fails it otherwise. */
  lemma FreshAttemptSettles(w: World, client: nat, call: Call, now: int)
    requires Invariant(w) && FreshAttempt(w, client, call, now)
    ensures
      var w' := AfterSteps(w, client, now, 4);
      && call.key in w'.store.records && SwapsOf(w'.store, call.key) == 1
      && w'.store.records[call.key].state ==
           (if w.store.draft.value.version == call.draftVersion + 1 then Applied else Failed)
  {
    var s := w.store;
    var r := s.records[call.key];
    assert TrueRecord(s, r) && TrueSwaps(s, call.key, r);
    var w1 := Next(w, Step(client, now));
    assert PcOf(w1, client).Reserving? && w1.store == s && PcOf(w1, client).record.request == r.request;
    var w2 := Next(w1, Step(client, now));
    assert PcOf(w2, client) == ReadingDraft(call, r) && w2.store == s;
    var w3 := Next(w2, Step(client, now));
    assert w3.store == s;
    if s.draft.value.version == call.draftVersion + 1 {
      assert PcOf(w3, client) == Completing(call, r, call.draftVersion + 1);
    } else {
      assert PcOf(w3, client) == Failing(call, r);
    }
    var w4 := Next(w3, Step(client, now));
    assert AfterSteps(w, client, now, 1) == w1 && AfterSteps(w, client, now, 2) == w2;
    assert AfterSteps(w, client, now, 3) == w3 && AfterSteps(w, client, now, 4) == w4;
  }

  lemma AttemptAfter(w: World, setup: seq<Event>, client: nat, call: Call, now: int)
    requires Invariant(w) && FreshAttempt(Run(w, setup), client, call, now)
    ensures
      var s := Run(w, setup + Steps(client, now, 4)).store;
      && call.key in s.records && SwapsOf(s, call.key) == 1
      && s.records[call.key].state ==
           (if Run(w, setup).store.draft.value.version == call.draftVersion + 1 then Applied else Failed)
  {
    EveryRunFollows(w, setup);
    FreshAttemptSettles(Run(w, setup), client, call, now);
    RunSteps(Run(w, setup), client, now, 4);
    RunJoins(w, setup, Steps(client, now, 4));
  }

  /** Another writer of the active pointer can always make the call's active revision the active one again. */
  function Restore(id: RevisionId): Event
    requires id.document.ConfigurationBundle? && id.document.source.Some?
  {
    OtherWriters(Some(id), {id, id.document.source.value})
  }

  lemma RestoredCallIsReady(w: World, call: Call, document: Document)
    requires ResolvedFrom(call.activeIdentity, document)
    ensures
      var w' := Next(Next(Next(w, Restore(call.activeIdentity)), Crash(0)), Start(0, call));
      && Ready(w'.store, call) && PcOf(w', 0) == Started(call)
      && w'.store.records == w.store.records && w'.store.draft == w.store.draft
      && SwapsOf(w'.store, call.key) == SwapsOf(w.store, call.key)
  {
  }

  function RestoreAndStart(call: Call): seq<Event>
    requires call.activeIdentity.document.ConfigurationBundle? && call.activeIdentity.document.source.Some?
  {
    [Restore(call.activeIdentity), Crash(0), Start(0, call)]
  }

  function CallOf(r: Record, key: string): Call {
    Call(key, r.request.draftVersion, r.request.activeIdentity)
  }

  lemma RestoredCallIsFresh(w: World, key: string)
    requires Invariant(w) && Unsettled(w.store, key)
    requires w.store.draft.Some? && w.store.draft.value.version == w.store.records[key].request.draftVersion + 1
    ensures
      var r := w.store.records[key];
      && ResolvedFrom(r.request.activeIdentity, r.activeDocument)
      && FreshAttempt(Run(w, RestoreAndStart(CallOf(r, key))), 0, CallOf(r, key), r.createdAt)
      && Run(w, RestoreAndStart(CallOf(r, key))).store.draft == w.store.draft
  {
    var r := w.store.records[key];
    var call := CallOf(r, key);
    assert TrueRecord(w.store, r) && TrueSwaps(w.store, key, r);
    RunThree(w, Restore(call.activeIdentity), Crash(0), Start(0, call));
    RestoredCallIsReady(w, call, r.activeDocument);
    assert w.store.draft.value.document == r.activeDocument;
  }

  lemma RestoredRetryApplies(w: World, key: string)
    requires Invariant(w) && Unsettled(w.store, key)
    requires w.store.draft.Some? && w.store.draft.value.version == w.store.records[key].request.draftVersion + 1
    ensures exists events :: key in Run(w, events).store.records && Run(w, events).store.records[key].state.Applied?
  {
    var r := w.store.records[key];
    RestoredCallIsFresh(w, key);
    var setup := RestoreAndStart(CallOf(r, key));
    AttemptAfter(w, setup, 0, CallOf(r, key), r.createdAt);
    var events := setup + Steps(0, r.createdAt, 4);
    assert Run(w, events).store.records[key].state.Applied?;
  }

  lemma RunThree(w: World, e1: Event, e2: Event, e3: Event)
    ensures Run(w, [e1, e2, e3]) == Next(Next(Next(w, e1), e2), e3)
  {
    var w1, w2 := Next(w, e1), Next(Next(w, e1), e2);
    assert [e1, e2, e3][1..] == [e2, e3] && [e2, e3][1..] == [e3] && [e3][1..] == [];
    assert Run(w1, [e2, e3]) == Run(w2, [e3]) && Run(w2, [e3]) == Run(Next(w2, e3), []);
  }

  /**
    A swap whose attempts have all stopped can still end applied exactly while
    the draft is at the version that the swap wrote.
   */
  lemma StoppedSwapCanApplyIffDraftIsStill(w: World, key: string)
    requires Invariant(w) && Unsettled(w.store, key) && forall c {:trigger PcOf(w, c)} :: !InCall(PcOf(w, c), key)
    ensures w.store.draft.Some?
    ensures (exists events :: key in Run(w, events).store.records && Run(w, events).store.records[key].state.Applied?) <==>
      w.store.draft.value.version == w.store.records[key].request.draftVersion + 1
  {
    var r := w.store.records[key];
    assert TrueRecord(w.store, r) && TrueSwaps(w.store, key, r);
    if w.store.draft.value.version == r.request.draftVersion + 1 {
      RestoredRetryApplies(w, key);
    } else {
      forall events ensures key in Run(w, events).store.records && !Run(w, events).store.records[key].state.Applied? {
        OverwrittenSwapIsNeverApplied(w, events, key);
      }
    }
  }

  /**
    One client is enough for a failed record whose swap took place: after the
    swap it crashes, someone else writes the draft, and it tries again.
   */
  lemma RetryAfterOverwriteFails(w: World, client: nat, call: Call, now: int, document: Document)
    requires Invariant(w) && Ready(w.store, call) && document.TenantConfiguration?
    requires Unsettled(w.store, call.key) && Answers(w.store.records[call.key], call)
    requires now >= w.store.records[call.key].createdAt
    ensures
      var s := Run(w, [Crash(client), OtherDraftWrite(document), Start(client, call)] + Steps(client, now, 4)).store;
      call.key in s.records && s.records[call.key].state.Failed? && SwapsOf(s, call.key) == 1
  {
    var setup := [Crash(client), OtherDraftWrite(document), Start(client, call)];
    assert TrueRecord(w.store, w.store.records[call.key]) && TrueSwaps(w.store, call.key, w.store.records[call.key]);
    var w1 := Next(w, Crash(client));
    var w2 := Next(w1, OtherDraftWrite(document));
    var w3 := Next(w2, Start(client, call));
    RunThree(w, setup[0], setup[1], setup[2]);
    assert SwapsOf(w3.store, call.key) == SwapsOf(w.store, call.key) && w3.store.records == w.store.records;
    AttemptAfter(w, setup, client, call, now);
  }

  /**
    Two overlapping attempts are enough as well: both read the draft at the
    expected version, one swaps it, and the other then fails the record.
   */
  lemma OverlappingAttemptFailsAfterSwap(w: World, first: nat, second: nat, call: Call, now: int)
    requires Invariant(w) && first != second && call.key in w.store.records
    requires PcOf(w, first) == SwappingDraft(call, w.store.records[call.key])
    requires PcOf(w, second) == SwappingDraft(call, w.store.records[call.key])
    requires w.store.draft.Some? && w.store.draft.value.version == call.draftVersion
    requires now >= w.store.records[call.key].createdAt
    ensures
      var s := Run(w, [Step(first, now), Step(second, now), Step(second, now)]).store;
      call.key in s.records && s.records[call.key].state.Failed? && SwapsOf(s, call.key) == 1
  {
    var r := w.store.records[call.key];
    assert TruePc(w.store, PcOf(w, first)) && TrueSwaps(w.store, call.key, r);
    var events := [Step(first, now), Step(second, now), Step(second, now)];
    var w1 := Next(w, events[0]);
    assert SwapsOf(w1.store, call.key) == 1 && w1.store.records == w.store.records;
    var w2 := Next(w1, events[1]);
    assert PcOf(w2, second) == Failing(call, r) && w2.store == w1.store;
    var w3 := Next(w2, events[2]);
    assert w3.store.records[call.key].state.Failed? && SwapsOf(w3.store, call.key) == 1;
    RunThree(w, events[0], events[1], events[2]);
  }

  /** The runs above do start from the empty store: one call up to its swap, and two calls up to theirs. */
  lemma SwapsAreReachable(document: Document, id: RevisionId, key: string, now: int)
    requires ResolvedFrom(id, document)
    ensures
      var call, setup := Call(key, 1, id), [OtherDraftWrite(document), Restore(id)];
      var w := Run(Initial, setup + [Start(0, call)] + Steps(0, now, 4));
      && Ready(w.store, call) && Unsettled(w.store, key) && Answers(w.store.records[key], call)
      && w.store.records[key].createdAt == now
    ensures
      var call, setup := Call(key, 1, id), [OtherDraftWrite(document), Restore(id)];
      var w := Run(Initial, setup + [Start(0, call)] + Steps(0, now, 3) + [Start(1, call)] + Steps(1, now, 3));
      && key in w.store.records && w.store.records[key].createdAt == now
      && PcOf(w, 0) == SwappingDraft(call, w.store.records[key]) && PcOf(w, 1) == SwappingDraft(call, w.store.records[key])
      && w.store.draft.Some? && w.store.draft.value.version == 1
  {
    var call, setup := Call(key, 1, id), [OtherDraftWrite(document), Restore(id)];
    var w0 := Next(Next(Next(Initial, setup[0]), setup[1]), Start(0, call));
    assert setup + [Start(0, call)] == [setup[0], setup[1], Start(0, call)];
    RunThree(Initial, setup[0], setup[1], Start(0, call));
    var r := Record(RequestDigest(document, id, 1), 1, id, document, None, Pending, false, 1, now, now);
    FirstAttemptSwaps(w0, call, document, r, now);
    var w3 := AfterSteps(w0, 0, now, 3);
    RunSteps(w0, 0, now, 4);
    RunJoins(Initial, setup + [Start(0, call)], Steps(0, now, 4));
    RunSteps(w0, 0, now, 3);
    RunJoins(Initial, setup + [Start(0, call)], Steps(0, now, 3));
    SecondAttemptReachesSwap(w3, call, r, now);
    RunNext(Initial, setup + [Start(0, call)] + Steps(0, now, 3), Start(1, call));
    RunSteps(Next(w3, Start(1, call)), 1, now, 3);
    RunJoins(Initial, setup + [Start(0, call)] + Steps(0, now, 3) + [Start(1, call)], Steps(1, now, 3));
  }

  lemma FirstAttemptSwaps(w: World, call: Call, document: Document, r: Record, now: int)
    requires PcOf(w, 0) == Started(call) && ActiveAuthoring(w.store) == Some((call.activeIdentity, document))
    requires w.store.records == map[] && w.store.swaps == map[] && w.store.draft == Some(Draft(call.draftVersion, document))
    requires document.TenantConfiguration?
    requires r == Record(RequestDigest(document, call.activeIdentity, call.draftVersion), call.draftVersion,
                         call.activeIdentity, document, None, Pending, false, 1, now, now)
    ensures
      var w3 := AfterSteps(w, 0, now, 3);
      && PcOf(w3, 0) == SwappingDraft(call, r) && w3.store == w.store.(records := map[call.key := r])
      && forall c :: c != 0 ==> PcOf(w3, c) == PcOf(w, c)
    ensures
      var s := AfterSteps(w, 0, now, 4).store;
      && s.records == map[call.key := r] && SwapsOf(s, call.key) == 1 && s.active == w.store.active && s.live == w.store.live
  {
    var w1 := Next(w, Step(0, now));
    assert PcOf(w1, 0) == Reserving(call, r) && w1.store == w.store;
    var w2 := Next(w1, Step(0, now));
    assert PcOf(w2, 0) == ReadingDraft(call, r) && w2.store == w.store.(records := map[call.key := r]);
    AfterFour(w, 0, now);
  }

  lemma AfterFour(w: World, client: nat, now: int)
    ensures
      var step := Step(client, now);
      && AfterSteps(w, client, now, 3) == Next(Next(Next(w, step), step), step)
      && AfterSteps(w, client, now, 4) == Next(AfterSteps(w, client, now, 3), step)
  {
    assert AfterSteps(w, client, now, 1) == Next(w, Step(client, now));
    assert AfterSteps(w, client, now, 2) == Next(AfterSteps(w, client, now, 1), Step(client, now));
  }

  lemma SecondAttemptReachesSwap(w: World, call: Call, r: Record, now: int)
    requires Ready(w.store, call) && PcOf(w, 0) == SwappingDraft(call, r) && PcOf(w, 1).Idle?
    requires call.key in w.store.records && w.store.records[call.key] == r && r.state.Pending?
    requires r.request == RequestDigest(ActiveAuthoring(w.store).value.1, call.activeIdentity, call.draftVersion)
    requires w.store.draft.Some? && w.store.draft.value.version == r.expectedDraftVersion
    requires w.store.draft.value.document.TenantConfiguration?
    ensures
      var w' := AfterSteps(Next(w, Start(1, call)), 1, now, 3);
      w'.store == w.store && PcOf(w', 0) == SwappingDraft(call, r) && PcOf(w', 1) == SwappingDraft(call, r)
  {
    var w0 := Next(w, Start(1, call));
    var w1 := Next(w0, Step(1, now));
    assert PcOf(w1, 1).Reserving? && PcOf(w1, 1).record.request == r.request && w1.store == w.store;
    var w2 := Next(w1, Step(1, now));
    assert PcOf(w2, 1) == ReadingDraft(call, r) && w2.store == w.store;
    AfterFour(w0, 1, now);
  }

  /**
    So "a failed discard left the draft untouched" is false of runs from the
    empty store: for one client that crashes after its swap and is overwritten,
    and for two clients that overlap.
   */
  lemma FailedDiscardMayHaveSwapped(document: Document, id: RevisionId, key: string, now: int)
    requires ResolvedFrom(id, document)
    ensures
      var call, setup := Call(key, 1, id), [OtherDraftWrite(document), Restore(id)];
      var swapped := setup + [Start(0, call)] + Steps(0, now, 4);
      var s := Run(Initial, swapped + ([Crash(0), OtherDraftWrite(document), Start(0, call)] + Steps(0, now, 4))).store;
      key in s.records && s.records[key].state.Failed? && SwapsOf(s, key) == 1
    ensures
      var call, setup := Call(key, 1, id), [OtherDraftWrite(document), Restore(id)];
      var both := setup + [Start(0, call)] + Steps(0, now, 3) + [Start(1, call)] + Steps(1, now, 3);
      var s := Run(Initial, both + [Step(0, now), Step(1, now), Step(1, now)]).store;
      key in s.records && s.records[key].state.Failed? && SwapsOf(s, key) == 1
  {
    var call, setup := Call(key, 1, id), [OtherDraftWrite(document), Restore(id)];
    var swapped := setup + [Start(0, call)] + Steps(0, now, 4);
    var both := setup + [Start(0, call)] + Steps(0, now, 3) + [Start(1, call)] + Steps(1, now, 3);
    SwapsAreReachable(document, id, key, now);
    EveryRunFollows(Initial, swapped);
    EveryRunFollows(Initial, both);
    OneClientFails(swapped, call, now, document);
    TwoClientsFail(both, call, now);
  }

  lemma OneClientFails(swapped: seq<Event>, call: Call, now: int, document: Document)
    requires Invariant(Run(Initial, swapped)) && Ready(Run(Initial, swapped).store, call) && document.TenantConfiguration?
    requires Unsettled(Run(Initial, swapped).store, call.key) && Answers(Run(Initial, swapped).store.records[call.key], call)
    requires Run(Initial, swapped).store.records[call.key].createdAt == now
    ensures
      var s := Run(Initial, swapped + ([Crash(0), OtherDraftWrite(document), Start(0, call)] + Steps(0, now, 4))).store;
      call.key in s.records && s.records[call.key].state.Failed? && SwapsOf(s, call.key) == 1
  {
    RetryAfterOverwriteFails(Run(Initial, swapped), 0, call, now, document);
    RunJoins(Initial, swapped, [Crash(0), OtherDraftWrite(document), Start(0, call)] + Steps(0, now, 4));
  }

  lemma TwoClientsFail(both: seq<Event>, call: Call, now: int)
    requires
      var w := Run(Initial, both);
      && Invariant(w) && call.key in w.store.records && w.store.records[call.key].createdAt == now
      && PcOf(w, 0) == SwappingDraft(call, w.store.records[call.key])
      && PcOf(w, 1) == SwappingDraft(call, w.store.records[call.key])
      && w.store.draft.Some? && w.store.draft.value.version == call.draftVersion
    ensures
      var s := Run(Initial, both + [Step(0, now), Step(1, now), Step(1, now)]).store;
      call.key in s.records && s.records[call.key].state.Failed? && SwapsOf(s, call.key) == 1
  {
    OverlappingAttemptFailsAfterSwap(Run(Initial, both), 0, 1, call, now);
    RunJoins(Initial, both, [Step(0, now), Step(1, now), Step(1, now)]);
  }
}
