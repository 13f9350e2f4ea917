/**
  The immutable definition catalog under concurrent publication
  (definitions/catalog.py over the conditional writes of definitions/s3.py).

  Manifests are write-once objects; one alias document is replaced by
  compare-and-swap.  The backend assigns an opaque version to every alias object;
  all that is assumed of versions is that one version never names two documents.
 */
module CatalogStore {
  import opened Wrappers
  import opened MerkleDag
  import opened DefinitionManifests
  import opened PreparedDefinitions

  type Aliases = map<string, Digest>
  type Version = int

  datatype AliasObject = AliasObject(document: Aliases, version: Version)

  /** `issued` is every version handed out so far with the document it names. */
  datatype Backend = Backend(
    manifests: map<Key, Manifest<Header>>,
    aliases: Option<AliasObject>,
    issued: map<Version, Aliases>)

  const Empty := Backend(map[], None, map[])

  predicate Covers(keys: set<Key>, aliases: Aliases) {
    forall n <- aliases :: (n, aliases[n]) in keys
  }

  // ---------------------------------------------------------------- the atomic requests

  /** A put with If-None-Match; an existing equal object counts as success. */
  function CreateImmutable(b: Backend, m: Manifest<Header>): Option<Backend> {
    if KeyOf(m) !in b.manifests then Some(b.(manifests := b.manifests[KeyOf(m) := m]))
    else if b.manifests[KeyOf(m)] == m then Some(b)
    else None
  }

  /** A version is either new or the one that already names this very document. */
  predicate Issuable(b: Backend, version: Version, document: Aliases) {
    version in b.issued ==> b.issued[version] == document
  }

  /** A put with If-Match, or with If-None-Match when no version is expected. */
  function SwapAliases(b: Backend, document: Aliases, expected: Option<Version>, version: Version): Option<Backend> {
    if (if expected.None? then b.aliases.None? else b.aliases.Some? && b.aliases.value.version == expected.value)
    then Some(b.(aliases := Some(AliasObject(document, version)), issued := b.issued[version := document]))
    else None
  }

  // ---------------------------------------------------------------- the clients

  datatype Request =
    | Publish(manifests: map<string, Manifest<Header>>)
    | ReplaceAliases(aliases: Aliases, expected: Option<Version>)

  /**
    What a write of the aliases rests on: a publisher on the alias object it
    read, a replacement on the version that its caller names.
   */
  datatype Basis =
    | Publishing(manifests: map<string, Manifest<Header>>, seen: Option<AliasObject>)
    | Replacing(expected: Option<Version>)

  function Expected(basis: Basis): Option<Version> {
    match basis
    case Publishing(_, seen) => VersionOf(seen)
    case Replacing(expected) => expected
  }

  function DigestsOf(manifests: map<string, Manifest<Header>>): Aliases {
    map n | n in manifests :: manifests[n].digest
  }

  datatype Outcome = Succeeded | Conflicted | Dangling

  datatype Pc =
    | Idle
    | Started(request: Request)
    | Listing(request: Request, read: Option<AliasObject>, lower: set<Key>)
    | Storing(manifests: map<string, Manifest<Header>>, seen: Option<AliasObject>, known: set<Key>, todo: seq<Manifest<Header>>)
    | Comparing(aliases: Aliases, basis: Basis)
    | Writing(aliases: Aliases, basis: Basis)
    | ReadingBack(aliases: Aliases)
    | Done(outcome: Outcome)

  /** What a step sees of the outside: which manifests a listing returned, and the version a write was given. */
  datatype Input = Input(listed: set<Key>, version: Version, order: seq<Manifest<Header>>)

  function VersionOf(read: Option<AliasObject>): Option<Version> {
    if read.Some? then Some(read.value.version) else None
  }

  function DocumentOf(read: Option<AliasObject>): Aliases {
    if read.Some? then read.value.document else map[]
  }

  /** A listing is not atomic: it shows everything stored when it began and maybe some of what came later. */
  predicate PossibleListing(b: Backend, lower: set<Key>, listed: set<Key>) {
    lower <= listed <= b.manifests.Keys
  }

  predicate Enumerates(order: seq<Manifest<Header>>, manifests: map<string, Manifest<Header>>) {
    (forall m <- order :: m in manifests.Values) && forall n <- manifests :: manifests[n] in order
  }

  function Advance(b: Backend, pc: Pc, input: Input): (Backend, Pc) {
    match pc
    case Idle => (b, Idle)
    case Started(request) => (b, Listing(request, b.aliases, b.manifests.Keys))
    case Listing(request, read, lower) =>
      if !PossibleListing(b, lower, input.listed) then (b, pc)
      else if !Covers(input.listed, DocumentOf(read)) then (b, Done(Dangling))
      else
        (match request
         case Publish(manifests) =>
           if Enumerates(input.order, manifests) then
             (b, Storing(manifests, read, input.listed, input.order))
           else
             (b, pc)
         case ReplaceAliases(aliases, expected) =>
           (b, if Covers(input.listed, aliases) then Comparing(aliases, Replacing(expected)) else Done(Dangling)))
    case Storing(manifests, seen, known, todo) =>
      if todo == [] then
        (b, if Covers(known, DigestsOf(manifests)) then Comparing(DigestsOf(manifests), Publishing(manifests, seen))
            else Done(Dangling))
      else
        var stored := CreateImmutable(b, todo[0]);
        if stored.None? then (b, Done(Conflicted))
        else (stored.value, Storing(manifests, seen, known + {KeyOf(todo[0])}, todo[1..]))
    case Comparing(aliases, basis) =>
      (b, if b.aliases.Some? && b.aliases.value.document == aliases then Done(Succeeded) else Writing(aliases, basis))
    case Writing(aliases, basis) =>
      if !Issuable(b, input.version, aliases) then (b, pc)
      else
        var swapped := SwapAliases(b, aliases, Expected(basis), input.version);
        if swapped.Some? then (swapped.value, Done(Succeeded)) else (b, ReadingBack(aliases))
    case ReadingBack(aliases) =>
      (b, if b.aliases.Some? && b.aliases.value.document == aliases then Done(Succeeded) else Done(Conflicted))
    case Done(_) => (b, pc)
  }

  datatype Event = Start(client: nat, request: Request) | Step(client: nat, input: Input) | Crash(client: nat)

  datatype World = World(backend: Backend, clients: map<nat, Pc>)

  const Initial := World(Empty, map[])

  function PcOf(w: World, client: nat): Pc {
    if client in w.clients then w.clients[client] else Idle
  }

  function Next(w: World, event: Event): World {
    match event
    case Start(client, request) =>
      if PcOf(w, client).Idle? || PcOf(w, client).Done? then w.(clients := w.clients[client := Started(request)]) else w
    case Step(client, input) =>
      var (backend, pc) := Advance(w.backend, PcOf(w, client), input);
      World(backend, w.clients[client := pc])
    case Crash(client) => w.(clients := w.clients[client := Idle])
  }

  function Run(w: World, events: seq<Event>): World
    decreases |events|
  {
    if events == [] then w else Run(Next(w, events[0]), events[1..])
  }

  // ---------------------------------------------------------------- the invariant

  ghost predicate BackendInvariant(b: Backend) {
    && (forall k {:trigger b.manifests[k]} :: k in b.manifests ==> KeyOf(b.manifests[k]) == k)
    && (b.aliases.Some? ==>
         && Covers(b.manifests.Keys, b.aliases.value.document)
         && b.aliases.value.version in b.issued && b.issued[b.aliases.value.version] == b.aliases.value.document)
  }

  /** The version of an object that was once read still names the document that was read. */
  predicate OnceStored(b: Backend, seen: Option<AliasObject>) {
    seen.Some? ==> seen.value.version in b.issued && b.issued[seen.value.version] == seen.value.document
  }

  predicate HoldsManifest(b: Backend, m: Manifest<Header>) {
    KeyOf(m) in b.manifests && b.manifests[KeyOf(m)] == m
  }

  predicate TrueBasis(b: Backend, aliases: Aliases, basis: Basis) {
    basis.Publishing? ==>
      && OnceStored(b, basis.seen)
      && aliases == DigestsOf(basis.manifests)
      && forall n <- basis.manifests :: HoldsManifest(b, basis.manifests[n])
  }

  predicate TruePc(b: Backend, pc: Pc) {
    match pc
    case Listing(_, read, lower) => lower <= b.manifests.Keys && Covers(lower, DocumentOf(read)) && OnceStored(b, read)
    case Storing(manifests, seen, known, todo) =>
      && known <= b.manifests.Keys && OnceStored(b, seen)
      && forall n <- manifests :: manifests[n] in todo || HoldsManifest(b, manifests[n])
    case Comparing(aliases, basis) => Covers(b.manifests.Keys, aliases) && TrueBasis(b, aliases, basis)
    case Writing(aliases, basis) => Covers(b.manifests.Keys, aliases) && TrueBasis(b, aliases, basis)
    case _ => true
  }

  ghost predicate Invariant(w: World) {
    BackendInvariant(w.backend) && forall c {:trigger PcOf(w, c)} :: TruePc(w.backend, PcOf(w, c))
  }

  /** Stored manifests and issued versions stay exactly as they are. */
  predicate Extends(b: Backend, b': Backend) {
    && (forall k <- b.manifests :: k in b'.manifests && b'.manifests[k] == b.manifests[k])
    && (forall v <- b.issued :: v in b'.issued && b'.issued[v] == b.issued[v])
  }

  ghost predicate StepKeeps(b: Backend, pc: Pc, input: Input) {
    var (b', pc') := Advance(b, pc, input);
    BackendInvariant(b') && TruePc(b', pc') && Extends(b, b')
  }

  lemma CreateKeeps(b: Backend, m: Manifest<Header>)
    requires BackendInvariant(b) && CreateImmutable(b, m).Some?
    ensures
      var b' := CreateImmutable(b, m).value;
      && BackendInvariant(b') && Extends(b, b') && HoldsManifest(b', m)
      && b'.manifests.Keys == b.manifests.Keys + {KeyOf(m)} && b'.issued == b.issued
  {
  }

  lemma StoringKeeps(b: Backend, pc: Pc, input: Input)
    requires BackendInvariant(b) && TruePc(b, pc) && pc.Storing?
    ensures StepKeeps(b, pc, input)
  {
    if pc.todo == [] {
      assert Advance(b, pc, input).0 == b;
    } else if CreateImmutable(b, pc.todo[0]).Some? {
      CreateKeeps(b, pc.todo[0]);
      var b' := CreateImmutable(b, pc.todo[0]).value;
      forall n | n in pc.manifests ensures pc.manifests[n] in pc.todo[1..] || HoldsManifest(b', pc.manifests[n]) {
        assert pc.todo == [pc.todo[0]] + pc.todo[1..];
      }
    }
  }

  lemma WritingKeeps(b: Backend, pc: Pc, input: Input)
    requires BackendInvariant(b) && TruePc(b, pc) && pc.Writing?
    ensures StepKeeps(b, pc, input)
  {
  }

  lemma AdvanceKeeps(b: Backend, pc: Pc, input: Input)
    requires BackendInvariant(b) && TruePc(b, pc)
    ensures StepKeeps(b, pc, input)
  {
    if pc.Storing? {
      StoringKeeps(b, pc, input);
    } else if pc.Writing? {
      WritingKeeps(b, pc, input);
    } else {
      assert Advance(b, pc, input).0 == b;
    }
  }

  lemma ExtensionKeepsPc(b: Backend, b': Backend, pc: Pc)
    requires Extends(b, b') && TruePc(b, pc)
    ensures TruePc(b', pc)
  {
    assert b.manifests.Keys <= b'.manifests.Keys;
  }

  lemma NextKeeps(w: World, event: Event)
    requires Invariant(w)
    ensures Invariant(Next(w, event)) && Extends(w.backend, Next(w, event).backend)
  {
    var w' := Next(w, event);
    if event.Step? {
      assert TruePc(w.backend, PcOf(w, event.client));
      AdvanceKeeps(w.backend, PcOf(w, event.client), event.input);
    }
    forall c ensures TruePc(w'.backend, PcOf(w', c)) {
      assert TruePc(w.backend, PcOf(w, c));
      if PcOf(w', c) == PcOf(w, c) {
        ExtensionKeepsPc(w.backend, w'.backend, PcOf(w, c));
      }
    }
  }

  /** At every point of every run, aliases point to stored manifests, and stored manifests never change. */
  lemma {:induction false} EveryRunKeeps(w: World, events: seq<Event>)
    requires Invariant(w)
    ensures Invariant(Run(w, events)) && Extends(w.backend, Run(w, events).backend)
    decreases |events|
  {
    if events != [] {
      NextKeeps(w, events[0]);
      EveryRunKeeps(Next(w, events[0]), events[1..]);
    }
  }

  lemma AliasesNeverDangle(events: seq<Event>)
    ensures
      var b := Run(Initial, events).backend;
      b.aliases.Some? ==> forall n <- b.aliases.value.document ::
        var k := (n, b.aliases.value.document[n]);
        k in b.manifests && KeyOf(b.manifests[k]) == k
  {
    EveryRunKeeps(Initial, events);
  }

  /**
    Reading the alias document before listing the manifests is what makes every
    load succeed: whatever happens in between, the listing covers the aliases.
   */
  lemma LoadNeverSeesDanglingAliases(events: seq<Event>, client: nat, listed: set<Key>)
    ensures
      var w := Run(Initial, events);
      var pc := PcOf(w, client);
      pc.Listing? && PossibleListing(w.backend, pc.lower, listed) ==> Covers(listed, DocumentOf(pc.read))
  {
    EveryRunKeeps(Initial, events);
    assert TruePc(Run(Initial, events).backend, PcOf(Run(Initial, events), client));
  }

  // ---------------------------------------------------------------- no lost updates

  ghost predicate ChangesAliases(w: World, event: Event) {
    Next(w, event).backend.aliases != w.backend.aliases
  }

  /** Only a client about to write changes the aliases, and only over the version that it expects. */
  lemma WriterFindsExpectedVersion(w: World, event: Event)
    requires Invariant(w) && ChangesAliases(w, event)
    ensures event.Step? && PcOf(w, event.client).Writing?
    ensures VersionOf(w.backend.aliases) == Expected(PcOf(w, event.client).basis)
    ensures
      var b' := Next(w, event).backend;
      b'.aliases.Some? && b'.aliases.value.document == PcOf(w, event.client).aliases && b'.manifests == w.backend.manifests
  {
  }

  /** A version names one document, so a publisher that finds the version it read finds what it read. */
  lemma SameVersionIsSameObject(b: Backend, seen: Option<AliasObject>)
    requires BackendInvariant(b) && OnceStored(b, seen) && VersionOf(b.aliases) == VersionOf(seen)
    ensures b.aliases == seen
  {
  }

  /**
    A publication that changes the aliases replaces the very object that it read
    before, however long ago, by the digests of its own manifests, all of them
    stored.
   */
  lemma PublisherExpectsWhatItRead(events: seq<Event>, event: Event)
    requires ChangesAliases(Run(Initial, events), event)
    ensures
      var w, b' := Run(Initial, events), Next(Run(Initial, events), event).backend;
      && PcOf(w, event.client).Writing?
      && var basis := PcOf(w, event.client).basis;
      && (basis.Publishing? ==>
           && w.backend.aliases == basis.seen
           && b'.aliases.Some? && b'.aliases.value.document == DigestsOf(basis.manifests)
           && forall n <- basis.manifests :: HoldsManifest(b', basis.manifests[n]))
  {
    EveryRunKeeps(Initial, events);
    var w := Run(Initial, events);
    WriterFindsExpectedVersion(w, event);
    var pc := PcOf(w, event.client);
    assert TruePc(w.backend, pc);
    if pc.basis.Publishing? {
      SameVersionIsSameObject(w.backend, pc.basis.seen);
    }
  }

  /**
    No update is lost.  Only a client about to write changes the aliases.  A
    publisher replaces exactly what it read.  A replacement that names a version
    replaces exactly the document which that version named at any earlier point
    of the run, and one that names none finds no aliases.
   */
  lemma NoLostUpdate(before: seq<Event>, after: seq<Event>, event: Event)
    requires ChangesAliases(Run(Run(Initial, before), after), event)
    ensures
      var earlier, w := Run(Initial, before).backend, Run(Run(Initial, before), after);
      && event.Step? && PcOf(w, event.client).Writing?
      && match PcOf(w, event.client).basis
         case Publishing(_, seen) => w.backend.aliases == seen
         case Replacing(None) => w.backend.aliases == None
         case Replacing(Some(version)) =>
           version in earlier.issued ==> w.backend.aliases == Some(AliasObject(earlier.issued[version], version))
  {
    EveryRunKeeps(Initial, before);
    EveryRunKeeps(Run(Initial, before), after);
    var earlier, w := Run(Initial, before).backend, Run(Run(Initial, before), after);
    WriterFindsExpectedVersion(w, event);
    var pc := PcOf(w, event.client);
    assert TruePc(w.backend, pc);
    if pc.basis.Publishing? {
      SameVersionIsSameObject(w.backend, pc.basis.seen);
    } else if pc.basis.expected.Some? && pc.basis.expected.value in earlier.issued {
      var version := pc.basis.expected.value;
      SameVersionIsSameObject(w.backend, Some(AliasObject(earlier.issued[version], version)));
    }
  }
}
