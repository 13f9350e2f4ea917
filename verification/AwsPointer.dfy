/**
  When the version of the active pointer counts its changes (configuration/aws.py).

  A swap reads the pointer and writes it later, under the condition that the
  expected revision is still active; the expected version is part of that
  condition only when the caller supplies one.
 */
module AwsPointer {
  import opened Wrappers
  import opened Revisions
  import opened AwsStore
  import opened AwsClients

  /** If the pointer changes, its version is the next one, the first being one. */
  predicate StepsByOne(s: Store, s': Store) {
    s'.active != s.active ==>
      s'.active.Some? && s'.active.value.version == if s.active.Some? then s.active.value.version + 1 else 1
  }

  predicate StepsBack(s: Store, s': Store) {
    s.active.Some? && s'.active.Some? && s'.active.value.version < s.active.value.version
  }

  /** The condition of the write settles which pointer it replaces. */
  predicate Checked(pc: Pc) {
    pc.PointerRead? && (pc.expectedRevision.None? || pc.expectedVersion.Some?)
  }

  /** With an expected version, or where no pointer is expected, a swap that is stored steps the version by exactly one. */
  lemma CheckedSwapIncrementsVersion(events: seq<Event>, client: nat)
    ensures
      var w := Run(Initial, events);
      Checked(PcOf(w, client)) ==> StepsByOne(w.store, Advance(w.store, PcOf(w, client)).0)
  {
    ReachableForest(events);
    assert TrueVersion(PcOf(Run(Initial, events), client));
  }

  predicate NotBy(events: seq<Event>, client: nat) {
    forall i :: 0 <= i < |events| ==> events[i].client != client
  }

  lemma {:induction false} WaitingKeepsPc(w: World, events: seq<Event>, client: nat)
    requires NotBy(events, client)
    ensures PcOf(Run(w, events), client) == PcOf(w, client)
    decreases |events|
  {
    if events != [] {
      OthersUnchanged(w, events[0], client);
      WaitingKeepsPc(Next(w, events[0]), events[1..], client);
    }
  }

  lemma {:induction false} RunJoins(w: World, first: seq<Event>, second: seq<Event>)
    ensures Run(w, first + second) == Run(Run(w, first), second)
    decreases |first|
  {
    if first == [] {
      assert first + second == second;
    } else {
      assert (first + second)[1..] == first[1..] + second;
      RunJoins(Next(w, first[0]), first[1..], second);
    }
  }

  /** Some client is idle and is not `client`. */
  lemma IdleClientExists(w: World, client: nat)
    ensures exists other: nat :: other != client && PcOf(w, other).Idle?
  {
    var top := Largest(w.clients.Keys + {client});
    assert PcOf(w, top + 1).Idle? && top + 1 != client;
  }

  ghost function Largest(numbers: set<nat>): (top: nat)
    ensures forall n <- numbers :: n <= top
  {
    if numbers == {} then 0
    else
      var n :| n in numbers;
      var rest := Largest(numbers - {n});
      assert forall m <- numbers :: m == n || m in numbers - {n};
      if n < rest then rest else n
  }

  /** A swap of the active revision for itself, by a client that supplies no version. */
  function SelfSwap(client: nat, id: RevisionId): seq<Event> {
    [Start(client, SwapActive(id, Some(id), None)), Step(client), Step(client)]
  }

  lemma SelfSwapIncrements(w: World, other: nat, id: RevisionId, version: int)
    requires WorldInvariant(w) && PcOf(w, other).Idle? && w.store.active == Some(Pointer(id, version))
    ensures
      var w' := Run(w, SelfSwap(other, id));
      && w'.store == w.store.(active := Some(Pointer(id, version + 1))) && PcOf(w', other).Idle?
      && WorldInvariant(w')
  {
    var e := SelfSwap(other, id);
    RunThree(w, e[0], e[1], e[2]);
    EveryRunKeepsForest(w, e);
    var w1 := Next(w, e[0]);
    assert PcOf(w1, other) == TargetRead(id, Some(id), None) && w1.store == w.store;
    var w2 := Next(w1, e[1]);
    assert PcOf(w2, other) == PointerRead(id, Some(id), None, version + 1) && w2.store == w.store;
  }

  /**
    Without an expected version two swaps that read the same pointer can store
    the same version: while one waits between its read and its write, another
    swaps the active revision for itself.
   */
  lemma UncheckedSwapRepeatsVersion(w: World, slow: nat, other: nat, id: RevisionId, active: RevisionId, version: int)
    requires WorldInvariant(w) && other != slow && PcOf(w, other).Idle?
    requires w.store.active == Some(Pointer(active, version)) && IsRevision(w.store, id)
    requires PcOf(w, slow) == PointerRead(id, Some(active), None, version + 1)
    ensures
      var w' := Run(w, SelfSwap(other, active));
      && w'.store.active == Some(Pointer(active, version + 1))
      && Next(w', Step(slow)).store.active == Some(Pointer(id, version + 1))
  {
    SelfSwapIncrements(w, other, active, version);
    WaitingKeepsPc(w, SelfSwap(other, active), slow);
  }

  lemma TwoSelfSwaps(w: World, other: nat, id: RevisionId, version: int)
    requires WorldInvariant(w) && PcOf(w, other).Idle? && w.store.active == Some(Pointer(id, version))
    ensures Run(w, SelfSwap(other, id) + SelfSwap(other, id)).store == w.store.(active := Some(Pointer(id, version + 2)))
  {
    SelfSwapIncrements(w, other, id, version);
    SelfSwapIncrements(Run(w, SelfSwap(other, id)), other, id, version + 1);
    RunJoins(w, SelfSwap(other, id), SelfSwap(other, id));
  }

  /** Two such swaps in between, and the version even goes back. */
  lemma UncheckedSwapCanStepBack(w: World, client: nat)
    requires WorldInvariant(w) && PcOf(w, client).PointerRead? && !Checked(PcOf(w, client))
    requires IsRevision(w.store, PcOf(w, client).id)
    requires w.store.active == Some(Pointer(PcOf(w, client).expectedRevision.value, PcOf(w, client).version - 1))
    ensures exists events :: (
      NotBy(events, client) && StepsBack(Run(w, events).store, Advance(Run(w, events).store, PcOf(w, client)).0))
  {
    var pc := PcOf(w, client);
    var active := pc.expectedRevision.value;
    IdleClientExists(w, client);
    var other: nat :| other != client && PcOf(w, other).Idle?;
    var twice := SelfSwap(other, active) + SelfSwap(other, active);
    TwoSelfSwaps(w, other, active, pc.version - 1);
    assert NotBy(twice, client);
    assert Advance(Run(w, twice).store, pc).0.active == Some(Pointer(pc.id, pc.version));
  }

  /**
    A client has read the pointer that it expects and is about to write.  Its
    write steps the version by one after every continuation of the others exactly
    when the caller supplied the expected version, or expects no pointer.
   */
  lemma VersionStepsByOneIffChecked(before: seq<Event>, client: nat)
    requires
      var w := Run(Initial, before);
      var pc := PcOf(w, client);
      && pc.PointerRead? && IsRevision(w.store, pc.id)
      && (pc.expectedRevision.Some? ==> w.store.active == Some(Pointer(pc.expectedRevision.value, pc.version - 1)))
    ensures
      var w := Run(Initial, before);
      var pc := PcOf(w, client);
      (forall events :: NotBy(events, client) ==> StepsByOne(Run(w, events).store, Advance(Run(w, events).store, pc).0))
      <==> Checked(pc)
  {
    var w := Run(Initial, before);
    var pc := PcOf(w, client);
    ReachableForest(before);
    if Checked(pc) {
      forall events | NotBy(events, client) ensures StepsByOne(Run(w, events).store, Advance(Run(w, events).store, pc).0) {
        WaitingKeepsPc(w, events, client);
        RunJoins(Initial, before, events);
        CheckedSwapIncrementsVersion(before + events, client);
      }
    } else {
      UncheckedSwapCanStepBack(w, client);
      var events :| NotBy(events, client) && StepsBack(Run(w, events).store, Advance(Run(w, events).store, pc).0);
      assert !StepsByOne(Run(w, events).store, Advance(Run(w, events).store, pc).0);
    }
  }
}
