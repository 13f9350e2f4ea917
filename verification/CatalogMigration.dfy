/**
  Moving a definition catalog between stores (definitions/migration.py): what an
  import plans and writes, and what an export returns.

  One importer works on the destination at a time, and may stop between any two
  writes.  The version of an alias object is represented by the document it names.
 */
module CatalogMigration {
  import opened Wrappers
  import opened MerkleDag
  import opened DefinitionManifests
  import opened PreparedDefinitions
  import opened Ordering

  type Entry = Manifest<Header>
  type Aliases = map<string, Digest>

  datatype Snapshot = Snapshot(digest: string, body: string)

  datatype Bundle = Bundle(aliases: Aliases, manifests: seq<Entry>, snapshots: seq<Snapshot>)

  /** The stored objects of one catalog. */
  datatype Objects = Objects(
    manifests: map<Key, Entry>, snapshots: map<string, Snapshot>, aliases: Option<Aliases>) {

    function Document(): Aliases {
      if aliases.Some? then aliases.value else map[]
    }

    /** Objects are stored under the key computed from their content. */
    predicate Keyed() {
      && (forall k <- manifests :: KeyOf(manifests[k]) == k)
      && (forall d <- snapshots :: snapshots[d].digest == d)
    }

    predicate Covers(document: Aliases) {
      forall n <- document :: (n, document[n]) in manifests
    }
  }

  const Empty := Objects(map[], map[], None)

  ghost predicate DistinctDigests(snapshots: seq<Snapshot>) {
    forall i, j :: 0 <= i < j < |snapshots| ==> snapshots[i].digest != snapshots[j].digest
  }

  ghost function ManifestIndex(manifests: seq<Entry>): (index: map<Key, Entry>)
    requires DistinctKeys(manifests)
    ensures forall k <- index :: KeyOf(index[k]) == k && index[k] in manifests
    ensures forall m <- manifests :: KeyOf(m) in index && index[KeyOf(m)] == m
  {
    map m | m in manifests :: KeyOf(m) := m
  }

  ghost function SnapshotIndex(snapshots: seq<Snapshot>): (index: map<string, Snapshot>)
    requires DistinctDigests(snapshots)
    ensures forall d <- index :: index[d].digest == d && index[d] in snapshots
    ensures forall s <- snapshots :: s.digest in index && index[s.digest] == s
  {
    map s | s in snapshots :: s.digest := s
  }

  /** The validator of a bundle. */
  ghost predicate ValidBundle(b: Bundle) {
    && DistinctKeys(b.manifests)
    && DistinctDigests(b.snapshots)
    && forall n <- b.aliases :: (n, b.aliases[n]) in ManifestIndex(b.manifests)
  }

  datatype Conflict =
    | ManifestConflict(key: Key)
    | SnapshotConflict(digest: string)
    | AliasConflict(name: string, destination: Digest, incoming: Digest)
    | DestinationAlias(name: string, destination: Digest)

  datatype MigrationError =
    | Unpublished
    | Dangling
    | ImportConflicts(conflicts: seq<Conflict>)
    | WriteConflict
    | BothHaveAliases

  // ---------------------------------------------------------------- planning

  datatype Plan = Plan(
    expected: Option<Aliases>,
    manifestsToCreate: seq<Entry>,
    snapshotsToCreate: seq<Snapshot>,
    aliasesToCreate: seq<string>,
    aliasesUnchanged: seq<string>,
    conflicts: seq<Conflict>)
  {
    predicate HasChanges() {
      manifestsToCreate != [] || snapshotsToCreate != [] || aliasesToCreate != []
    }
  }

  /** The items kept by `f`, in order. */
  function Collect<T, U>(f: T -> Option<U>, items: seq<T>): seq<U>
    decreases |items|
  {
    if items == [] then []
    else
      var last := f(items[|items| - 1]);
      Collect(f, items[..|items| - 1]) + if last.Some? then [last.value] else []
  }

  lemma CollectNext<T, U>(f: T -> Option<U>, items: seq<T>, i: nat)
    requires i < |items|
    ensures
      var next := f(items[i]);
      Collect(f, items[..i + 1]) == Collect(f, items[..i]) + if next.Some? then [next.value] else []
  {
    assert items[..i + 1][..i] == items[..i];
  }

  lemma {:induction false} CollectHas<T, U>(f: T -> Option<U>, items: seq<T>, u: U)
    ensures u in Collect(f, items) <==> exists t <- items :: f(t) == Some(u)
    decreases |items|
  {
    if items != [] {
      var front, last := items[..|items| - 1], items[|items| - 1];
      CollectHas(f, front, u);
      assert items == front + [last];
    }
  }

  lemma {:induction false} CollectIsEmpty<T, U>(f: T -> Option<U>, items: seq<T>)
    ensures Collect(f, items) == [] <==> forall t <- items :: f(t).None?
    decreases |items|
  {
    if items != [] {
      var front, last := items[..|items| - 1], items[|items| - 1];
      CollectIsEmpty(f, front);
      assert items == front + [last];
    }
  }

  function NewManifest(o: Objects): Entry -> Option<Entry> {
    (m: Entry) => if KeyOf(m) in o.manifests then None else Some(m)
  }

  function ManifestClash(o: Objects): Entry -> Option<Conflict> {
    (m: Entry) => if KeyOf(m) in o.manifests && o.manifests[KeyOf(m)] != m then Some(ManifestConflict(KeyOf(m))) else None
  }

  function NewSnapshot(o: Objects): Snapshot -> Option<Snapshot> {
    (s: Snapshot) => if s.digest in o.snapshots then None else Some(s)
  }

  function SnapshotClash(o: Objects): Snapshot -> Option<Conflict> {
    (s: Snapshot) => if s.digest in o.snapshots && o.snapshots[s.digest] != s then Some(SnapshotConflict(s.digest)) else None
  }

  function NewAlias(current: Aliases): string -> Option<string> {
    n => if n in current then None else Some(n)
  }

  function SameAlias(current: Aliases, incoming: Aliases): string -> Option<string> {
    n => if n in current && n in incoming && current[n] == incoming[n] then Some(n) else None
  }

  function AliasClash(current: Aliases, incoming: Aliases): string -> Option<Conflict> {
    n => if n in current && n in incoming && current[n] != incoming[n]
         then Some(AliasConflict(n, current[n], incoming[n])) else None
  }

  function ForeignAlias(current: Aliases): string -> Option<Conflict> {
    n => if n in current then Some(DestinationAlias(n, current[n])) else None
  }

  /** What planning an import into readable objects returns. */
  ghost function PlanOf(o: Objects, b: Bundle): Plan {
    var names := SortedNames(b.aliases.Keys);
    var foreign := SortedNames(o.Document().Keys - b.aliases.Keys);
    Plan(
      o.aliases,
      Collect(NewManifest(o), b.manifests),
      Collect(NewSnapshot(o), b.snapshots),
      Collect(NewAlias(o.Document()), names),
      Collect(SameAlias(o.Document(), b.aliases), names),
      Collect(ManifestClash(o), b.manifests) + Collect(SnapshotClash(o), b.snapshots)
        + Collect(AliasClash(o.Document(), b.aliases), names) + Collect(ForeignAlias(o.Document()), foreign))
  }

  predicate Submap<K, V(==)>(small: map<K, V>, large: map<K, V>) {
    forall k <- small :: k in large && large[k] == small[k]
  }

  /** Nothing stored contradicts the bundle, and no stored alias is missing from it. */
  ghost predicate Compatible(o: Objects, b: Bundle) {
    && (forall m <- b.manifests :: KeyOf(m) in o.manifests ==> o.manifests[KeyOf(m)] == m)
    && (forall s <- b.snapshots :: s.digest in o.snapshots ==> o.snapshots[s.digest] == s)
    && Submap(o.Document(), b.aliases)
  }

  lemma NoForeignIffContained(current: Aliases, incoming: Aliases)
    ensures Collect(ForeignAlias(current), SortedNames(current.Keys - incoming.Keys)) == [] <==> current.Keys <= incoming.Keys
  {
    var foreign := SortedNames(current.Keys - incoming.Keys);
    CollectIsEmpty(ForeignAlias(current), foreign);
    assert forall n :: n in foreign <==> n in current && n !in incoming;
    assert forall n <- foreign :: ForeignAlias(current)(n).Some?;
  }

  lemma NoClashIffAgree(current: Aliases, incoming: Aliases)
    ensures Collect(AliasClash(current, incoming), SortedNames(incoming.Keys)) == [] <==>
      forall n <- current :: n in incoming ==> incoming[n] == current[n]
  {
    var names := SortedNames(incoming.Keys);
    CollectIsEmpty(AliasClash(current, incoming), names);
    if Collect(AliasClash(current, incoming), names) == [] {
      forall n | n in current && n in incoming ensures incoming[n] == current[n] {
        assert n in names && AliasClash(current, incoming)(n).None?;
      }
    }
  }

  lemma AliasesAgreeIffNoClash(current: Aliases, incoming: Aliases)
    ensures
      && Collect(AliasClash(current, incoming), SortedNames(incoming.Keys)) == []
      && Collect(ForeignAlias(current), SortedNames(current.Keys - incoming.Keys)) == []
      <==> Submap(current, incoming)
  {
    NoForeignIffContained(current, incoming);
    NoClashIffAgree(current, incoming);
  }

  lemma PlanHasNoConflictIffCompatible(o: Objects, b: Bundle)
    ensures PlanOf(o, b).conflicts == [] <==> Compatible(o, b)
  {
    CollectIsEmpty(ManifestClash(o), b.manifests);
    CollectIsEmpty(SnapshotClash(o), b.snapshots);
    AliasesAgreeIffNoClash(o.Document(), b.aliases);
  }

  lemma PlanHasNoChangesIffContained(o: Objects, b: Bundle)
    ensures !PlanOf(o, b).HasChanges() <==>
      && (forall m <- b.manifests :: KeyOf(m) in o.manifests)
      && (forall s <- b.snapshots :: s.digest in o.snapshots)
      && b.aliases.Keys <= o.Document().Keys
  {
    CollectIsEmpty(NewManifest(o), b.manifests);
    CollectIsEmpty(NewSnapshot(o), b.snapshots);
    NoNewAliasIffContained(o, b);
  }

  lemma NoNewAliasIffContained(o: Objects, b: Bundle)
    ensures PlanOf(o, b).aliasesToCreate == [] <==> b.aliases.Keys <= o.Document().Keys
  {
    CollectIsEmpty(NewAlias(o.Document()), SortedNames(b.aliases.Keys));
  }

  // ---------------------------------------------------------------- the writes of an import

  datatype Write =
    | StoreManifest(manifest: Entry)
    | StoreSnapshot(snapshot: Snapshot)
    | ReplaceAliases(aliases: Aliases, expected: Option<Aliases>)

  function Perform(o: Objects, w: Write): Result<Objects, MigrationError> {
    match w
    case StoreManifest(m) =>
      if KeyOf(m) !in o.manifests then Success(o.(manifests := o.manifests[KeyOf(m) := m]))
      else if o.manifests[KeyOf(m)] == m then Success(o)
      else Failure(WriteConflict)
    case StoreSnapshot(s) =>
      if s.digest !in o.snapshots then Success(o.(snapshots := o.snapshots[s.digest := s]))
      else if o.snapshots[s.digest] == s then Success(o)
      else Failure(WriteConflict)
    case ReplaceAliases(aliases, expected) =>
      if !o.Covers(o.Document()) || !o.Covers(aliases) then Failure(Dangling)
      else if o.aliases == Some(aliases) then Success(o)
      else if o.aliases == expected then Success(o.(aliases := Some(aliases)))
      else Failure(WriteConflict)
  }

  /** The state after a sequence of writes, or the error of the first that fails. */
  function Run(o: Objects, writes: seq<Write>): Result<Objects, MigrationError>
    decreases |writes|
  {
    if writes == [] then Success(o)
    else
      var before := Run(o, writes[..|writes| - 1]);
      if before.Failure? then before else Perform(before.value, writes[|writes| - 1])
  }

  lemma RunNext(o: Objects, writes: seq<Write>, i: nat)
    requires i < |writes|
    ensures
      var before := Run(o, writes[..i]);
      Run(o, writes[..i + 1]) == if before.Failure? then before else Perform(before.value, writes[i])
  {
    assert writes[..i + 1][..i] == writes[..i];
  }

  /** The writes that carry out a plan, in order. */
  function Writes(plan: Plan, b: Bundle): seq<Write> {
    seq(|plan.manifestsToCreate|, i requires 0 <= i < |plan.manifestsToCreate| => StoreManifest(plan.manifestsToCreate[i]))
    + seq(|plan.snapshotsToCreate|, i requires 0 <= i < |plan.snapshotsToCreate| => StoreSnapshot(plan.snapshotsToCreate[i]))
    + if plan.aliasesToCreate == [] then [] else [ReplaceAliases(b.aliases, plan.expected)]
  }

  predicate Agree<K, V(==)>(a: map<K, V>, b: map<K, V>) {
    forall k <- a :: k in b ==> b[k] == a[k]
  }

  lemma UnionStaysOnCourse<K, V>(a: map<K, V>, s: map<K, V>, c: map<K, V>)
    requires Agree(a, c) && Submap(a, s) && Submap(s, a + c)
    ensures Agree(s, c) && s + c == a + c
  {
  }

  /** The stored objects joined with those of the bundle, under the bundle's aliases. */
  ghost function Merged(o: Objects, b: Bundle): Objects
    requires ValidBundle(b)
  {
    Objects(o.manifests + ManifestIndex(b.manifests), o.snapshots + SnapshotIndex(b.snapshots), FinalAliases(o, b))
  }

  function FinalAliases(o: Objects, b: Bundle): Option<Aliases> {
    if b.aliases.Keys <= o.Document().Keys then o.aliases else Some(b.aliases)
  }

  ghost predicate Importable(o: Objects, b: Bundle) {
    ValidBundle(b) && o.Keyed() && o.Covers(o.Document()) && Compatible(o, b)
  }

  lemma CompatibleIndexesAgree(o: Objects, b: Bundle)
    requires ValidBundle(b) && Compatible(o, b)
    ensures Agree(o.manifests, ManifestIndex(b.manifests)) && Agree(o.snapshots, SnapshotIndex(b.snapshots))
  {
  }

  lemma CompatibleAliases(o: Objects, b: Bundle)
    requires Submap(o.Document(), b.aliases)
    ensures FinalAliases(o, b) == o.aliases ==> o.Document() == b.aliases
    ensures FinalAliases(o, b) != o.aliases ==> FinalAliases(o, b) == Some(b.aliases)
  {
  }

  /** What the destination may hold at any point of an import of `b` that began in `o`. */
  ghost predicate Between(o: Objects, b: Bundle, s: Objects)
    requires ValidBundle(b)
  {
    && Submap(o.manifests, s.manifests) && Submap(s.manifests, o.manifests + ManifestIndex(b.manifests))
    && Submap(o.snapshots, s.snapshots) && Submap(s.snapshots, o.snapshots + SnapshotIndex(b.snapshots))
    && (s.aliases == o.aliases || s.aliases == FinalAliases(o, b))
    && s.Covers(s.Document())
  }

  /** From every intermediate state the import is still free of conflicts and heads for the same result. */
  lemma BetweenStaysOnCourse(o: Objects, b: Bundle, s: Objects)
    requires Importable(o, b) && Between(o, b, s)
    ensures Importable(s, b) && Merged(s, b) == Merged(o, b)
  {
    CompatibleIndexesAgree(o, b);
    UnionStaysOnCourse(o.manifests, s.manifests, ManifestIndex(b.manifests));
    UnionStaysOnCourse(o.snapshots, s.snapshots, SnapshotIndex(b.snapshots));
    AliasesStayOnCourse(o, b, s);
    AgreeingIndexesAreCompatible(s, b);
    MergedIsKeyed(o, b);
  }

  lemma AliasesStayOnCourse(o: Objects, b: Bundle, s: Objects)
    requires Submap(o.Document(), b.aliases) && (s.aliases == o.aliases || s.aliases == FinalAliases(o, b))
    ensures Submap(s.Document(), b.aliases) && FinalAliases(s, b) == FinalAliases(o, b)
  {
  }

  lemma AgreeingIndexesAreCompatible(s: Objects, b: Bundle)
    requires ValidBundle(b) && Submap(s.Document(), b.aliases)
    requires Agree(s.manifests, ManifestIndex(b.manifests)) && Agree(s.snapshots, SnapshotIndex(b.snapshots))
    ensures Compatible(s, b)
  {
  }

  /** What matters about the writes of a plan: they come from the bundle, are complete, and end with the aliases. */
  ghost predicate CarriesOut(o: Objects, b: Bundle, writes: seq<Write>) {
    && (forall w <- writes :: w.StoreManifest? ==> w.manifest in b.manifests)
    && (forall w <- writes :: w.StoreSnapshot? ==> w.snapshot in b.snapshots)
    && (forall m <- b.manifests :: KeyOf(m) in o.manifests || StoreManifest(m) in writes)
    && (forall s <- b.snapshots :: s.digest in o.snapshots || StoreSnapshot(s) in writes)
    && (forall i :: 0 <= i < |writes| && writes[i].ReplaceAliases? ==>
          i == |writes| - 1 && writes[i] == ReplaceAliases(b.aliases, o.aliases) && FinalAliases(o, b) == Some(b.aliases))
    && (FinalAliases(o, b) != o.aliases ==> ReplaceAliases(b.aliases, o.aliases) in writes)
  }

  lemma StoresFromPlan(plan: Plan, b: Bundle, w: Write)
    ensures w.StoreManifest? ==> (w in Writes(plan, b) <==> w.manifest in plan.manifestsToCreate)
    ensures w.StoreSnapshot? ==> (w in Writes(plan, b) <==> w.snapshot in plan.snapshotsToCreate)
  {
    var ms, ss := plan.manifestsToCreate, plan.snapshotsToCreate;
    var writes := Writes(plan, b);
    if w.StoreManifest? && w.manifest in ms {
      var i :| 0 <= i < |ms| && ms[i] == w.manifest;
      assert writes[i] == w;
    }
    if w.StoreSnapshot? && w.snapshot in ss {
      var i :| 0 <= i < |ss| && ss[i] == w.snapshot;
      assert writes[|ms| + i] == w;
    }
  }

  lemma PlanCarriesOut(o: Objects, b: Bundle)
    ensures CarriesOut(o, b, Writes(PlanOf(o, b), b))
  {
    var plan := PlanOf(o, b);
    var writes := Writes(plan, b);
    forall w: Write ensures
        && (w.StoreManifest? ==> (w in writes <==> w.manifest in b.manifests && KeyOf(w.manifest) !in o.manifests))
        && (w.StoreSnapshot? ==> (w in writes <==> w.snapshot in b.snapshots && w.snapshot.digest !in o.snapshots))
    {
      StoresFromPlan(plan, b, w);
      if w.StoreManifest? {
        CollectHas(NewManifest(o), b.manifests, w.manifest);
      }
      if w.StoreSnapshot? {
        CollectHas(NewSnapshot(o), b.snapshots, w.snapshot);
      }
    }
    AliasWriteIsLast(o, b);
  }

  lemma AliasWriteIsLast(o: Objects, b: Bundle)
    ensures
      var writes := Writes(PlanOf(o, b), b);
      && (forall i :: 0 <= i < |writes| && writes[i].ReplaceAliases? ==>
            i == |writes| - 1 && writes[i] == ReplaceAliases(b.aliases, o.aliases) && FinalAliases(o, b) == Some(b.aliases))
      && (FinalAliases(o, b) != o.aliases ==> ReplaceAliases(b.aliases, o.aliases) in writes)
  {
    NoNewAliasIffContained(o, b);
  }

  /** How far the first `k` writes have brought the destination. */
  ghost predicate Progress(o: Objects, b: Bundle, writes: seq<Write>, k: nat, s: Objects)
    requires ValidBundle(b) && k <= |writes|
  {
    && Between(o, b, s)
    && (forall i :: 0 <= i < k && writes[i].StoreManifest? ==> KeyOf(writes[i].manifest) in s.manifests)
    && (forall i :: 0 <= i < k && writes[i].StoreSnapshot? ==> writes[i].snapshot.digest in s.snapshots)
    && s.aliases == (if k > 0 && writes[k - 1].ReplaceAliases? then FinalAliases(o, b) else o.aliases)
  }

  lemma PutStaysBelow<K, V>(a: map<K, V>, s: map<K, V>, c: map<K, V>, k: K)
    requires Agree(a, c) && Submap(a, s) && Submap(s, a + c) && k in c
    ensures k in s ==> s[k] == c[k]
    ensures Submap(a, s[k := c[k]]) && Submap(s[k := c[k]], a + c)
  {
  }

  lemma CoversGrows(s: Objects, s': Objects, document: Aliases)
    requires s.Covers(document) && Submap(s.manifests, s'.manifests)
    ensures s'.Covers(document)
  {
  }

  lemma ManifestWriteStays(o: Objects, b: Bundle, s: Objects, m: Entry)
    requires Importable(o, b) && Between(o, b, s) && m in b.manifests
    ensures
      var r := Perform(s, StoreManifest(m));
      && r.Success? && Between(o, b, r.value)
      && r.value == s.(manifests := s.manifests[KeyOf(m) := m])
  {
    CompatibleIndexesAgree(o, b);
    PutStaysBelow(o.manifests, s.manifests, ManifestIndex(b.manifests), KeyOf(m));
    var s' := s.(manifests := s.manifests[KeyOf(m) := m]);
    CoversGrows(s, s', s.Document());
    assert KeyOf(m) in s.manifests ==> s.manifests[KeyOf(m) := m] == s.manifests;
  }

  lemma SnapshotWriteStays(o: Objects, b: Bundle, s: Objects, x: Snapshot)
    requires Importable(o, b) && Between(o, b, s) && x in b.snapshots
    ensures
      var r := Perform(s, StoreSnapshot(x));
      && r.Success? && Between(o, b, r.value)
      && r.value == s.(snapshots := s.snapshots[x.digest := x])
  {
    CompatibleIndexesAgree(o, b);
    PutStaysBelow(o.snapshots, s.snapshots, SnapshotIndex(b.snapshots), x.digest);
    assert x.digest in s.snapshots ==> s.snapshots[x.digest := x] == s.snapshots;
  }

  lemma AllManifestsStored(o: Objects, b: Bundle, writes: seq<Write>, k: nat, s: Objects)
    requires ValidBundle(b) && CarriesOut(o, b, writes) && k <= |writes| && Progress(o, b, writes, k, s)
    requires forall i :: k <= i < |writes| ==> writes[i].ReplaceAliases?
    ensures forall m <- b.manifests :: KeyOf(m) in s.manifests
    ensures forall x <- b.snapshots :: x.digest in s.snapshots
  {
    forall m | m in b.manifests ensures KeyOf(m) in s.manifests {
      if KeyOf(m) !in o.manifests {
        var i :| 0 <= i < |writes| && writes[i] == StoreManifest(m);
      }
    }
    forall x | x in b.snapshots ensures x.digest in s.snapshots {
      if x.digest !in o.snapshots {
        var i :| 0 <= i < |writes| && writes[i] == StoreSnapshot(x);
      }
    }
  }

  lemma AliasWriteStays(o: Objects, b: Bundle, s: Objects)
    requires ValidBundle(b) && Between(o, b, s) && s.aliases == o.aliases && FinalAliases(o, b) == Some(b.aliases)
    requires forall m <- b.manifests :: KeyOf(m) in s.manifests
    ensures
      var r := Perform(s, ReplaceAliases(b.aliases, o.aliases));
      r.Success? && Between(o, b, r.value) && r.value == s.(aliases := Some(b.aliases))
  {
    forall n | n in b.aliases ensures (n, b.aliases[n]) in s.manifests {
      var m := ManifestIndex(b.manifests)[(n, b.aliases[n])];
      assert KeyOf(m) == (n, b.aliases[n]) && m in b.manifests;
    }
  }

  lemma WriteProgresses(o: Objects, b: Bundle, writes: seq<Write>, k: nat, s: Objects)
    requires Importable(o, b) && CarriesOut(o, b, writes) && k < |writes| && Progress(o, b, writes, k, s)
    ensures Perform(s, writes[k]).Success? && Progress(o, b, writes, k + 1, Perform(s, writes[k]).value)
  {
    var w := writes[k];
    assert w in writes;
    match w {
      case StoreManifest(m) =>
        ManifestWriteStays(o, b, s, m);
      case StoreSnapshot(x) =>
        SnapshotWriteStays(o, b, s, x);
      case ReplaceAliases(_, _) =>
        AllManifestsStored(o, b, writes, k, s);
        AliasWriteStays(o, b, s);
    }
  }

  /** Every prefix of the writes succeeds. */
  lemma {:induction false} ImportProgresses(o: Objects, b: Bundle, writes: seq<Write>, k: nat)
    requires Importable(o, b) && CarriesOut(o, b, writes) && k <= |writes|
    ensures Run(o, writes[..k]).Success? && Progress(o, b, writes, k, Run(o, writes[..k]).value)
    decreases k
  {
    if k > 0 {
      ImportProgresses(o, b, writes, k - 1);
      ImportAdvances(o, b, writes, k - 1, Run(o, writes[..k - 1]).value);
    }
  }

  lemma ImportAdvances(o: Objects, b: Bundle, writes: seq<Write>, k: nat, s: Objects)
    requires Importable(o, b) && CarriesOut(o, b, writes) && k < |writes|
    requires Run(o, writes[..k]) == Success(s) && Progress(o, b, writes, k, s)
    ensures Run(o, writes[..k + 1]).Success? && Progress(o, b, writes, k + 1, Run(o, writes[..k + 1]).value)
  {
    RunNext(o, writes, k);
    WriteProgresses(o, b, writes, k, s);
  }

  lemma UnionIsReached<K, V>(a: map<K, V>, s: map<K, V>, c: map<K, V>)
    requires Submap(a, s) && Submap(s, a + c) && c.Keys <= s.Keys
    ensures s == a + c
  {
  }

  lemma AllWritesReachMerged(o: Objects, b: Bundle, writes: seq<Write>, s: Objects)
    requires ValidBundle(b) && CarriesOut(o, b, writes) && Progress(o, b, writes, |writes|, s)
    ensures s == Merged(o, b)
  {
    AllManifestsStored(o, b, writes, |writes|, s);
    UnionIsReached(o.manifests, s.manifests, ManifestIndex(b.manifests));
    UnionIsReached(o.snapshots, s.snapshots, SnapshotIndex(b.snapshots));
    LastAliases(o, b, writes, s);
  }

  lemma LastAliases(o: Objects, b: Bundle, writes: seq<Write>, s: Objects)
    requires ValidBundle(b) && CarriesOut(o, b, writes) && Progress(o, b, writes, |writes|, s)
    ensures s.aliases == FinalAliases(o, b)
  {
    if FinalAliases(o, b) != o.aliases {
      var i :| 0 <= i < |writes| && writes[i] == ReplaceAliases(b.aliases, o.aliases);
    }
  }

  lemma MergedIsKeyed(o: Objects, b: Bundle)
    requires ValidBundle(b) && o.Keyed()
    ensures Merged(o, b).Keyed()
  {
  }

  /**
    An import free of conflicts joins the manifests and the snapshots, and
    leaves exactly the aliases of the bundle.
   */
  lemma ImportReachesMerged(o: Objects, b: Bundle)
    requires Importable(o, b)
    ensures Run(o, Writes(PlanOf(o, b), b)) == Success(Merged(o, b))
    ensures Merged(o, b).Document() == b.aliases && Merged(o, b).Keyed() && Between(o, b, Merged(o, b))
  {
    var writes := Writes(PlanOf(o, b), b);
    PlanCarriesOut(o, b);
    ImportProgresses(o, b, writes, |writes|);
    assert writes[..|writes|] == writes;
    AllWritesReachMerged(o, b, writes, Run(o, writes).value);
    CompatibleAliases(o, b);
    MergedIsKeyed(o, b);
  }

  /**
    An import that stopped after any of its writes can be run again: the second
    run has no conflict and reaches the state the first was heading for, and
    planning once more finds nothing to change.
   */
  lemma InterruptedImportConverges(o: Objects, b: Bundle, k: nat)
    requires Importable(o, b) && k <= |Writes(PlanOf(o, b), b)|
    ensures Run(o, Writes(PlanOf(o, b), b)[..k]).Success?
    ensures
      var s := Run(o, Writes(PlanOf(o, b), b)[..k]).value;
      PlanOf(s, b).conflicts == [] && Run(s, Writes(PlanOf(s, b), b)) == Success(Merged(o, b))
    ensures PlanOf(Merged(o, b), b).conflicts == [] && !PlanOf(Merged(o, b), b).HasChanges()
  {
    var writes := Writes(PlanOf(o, b), b);
    PlanCarriesOut(o, b);
    ImportProgresses(o, b, writes, k);
    var s := Run(o, writes[..k]).value;
    BetweenStaysOnCourse(o, b, s);
    PlanHasNoConflictIffCompatible(s, b);
    ImportReachesMerged(s, b);
    ImportReachesMerged(o, b);
    BetweenStaysOnCourse(o, b, Merged(o, b));
    PlanHasNoConflictIffCompatible(Merged(o, b), b);
    PlanHasNoChangesIffContained(Merged(o, b), b);
  }

  // ---------------------------------------------------------------- exporting

  predicate KeyLess(a: Key, b: Key) {
    TextLess(a.0, b.0) || (a.0 == b.0 && a.1 < b.1)
  }

  lemma KeysAreOrdered()
    ensures StrictOrder(KeyLess)
  {
    TextIsOrdered();
  }

  function SortedKeys(keys: set<Key>): (sorted: seq<Key>)
    ensures Ascending(sorted, KeyLess) && forall k :: k in sorted <==> k in keys
  {
    KeysAreOrdered();
    SortedIsAscending(keys, KeyLess);
    Sorted(keys, KeyLess)
  }

  function KeysOf(manifests: seq<Entry>): seq<Key> {
    seq(|manifests|, i requires 0 <= i < |manifests| => KeyOf(manifests[i]))
  }

  function DigestsOf(snapshots: seq<Snapshot>): seq<string> {
    seq(|snapshots|, i requires 0 <= i < |snapshots| => snapshots[i].digest)
  }

  /** The form that CatalogBundle.create gives every bundle. */
  predicate Canonical(b: Bundle) {
    Ascending(KeysOf(b.manifests), KeyLess) && Ascending(DigestsOf(b.snapshots), TextLess)
  }

  /** The stored values in the order of their keys. */
  function InOrder<K, V>(keys: seq<K>, stored: map<K, V>): seq<V>
    requires forall k <- keys :: k in stored
  {
    seq(|keys|, i requires 0 <= i < |keys| => assert keys[i] in keys; stored[keys[i]])
  }

  function Export(o: Objects): Result<Bundle, MigrationError> {
    if o.aliases.None? then Failure(Unpublished)
    else if !o.Covers(o.Document()) then Failure(Dangling)
    else Success(Bundle(
      o.aliases.value,
      InOrder(SortedKeys(o.manifests.Keys), o.manifests),
      InOrder(SortedNames(o.snapshots.Keys), o.snapshots)))
  }

  lemma InOrderHas<K, V>(keys: seq<K>, stored: map<K, V>, k: K)
    requires (forall k <- keys :: k in stored) && k in keys
    ensures stored[k] in InOrder(keys, stored)
  {
    var i :| 0 <= i < |keys| && keys[i] == k;
    assert InOrder(keys, stored)[i] == stored[k];
  }

  lemma InOrderOnlyHas<K, V>(keys: seq<K>, stored: map<K, V>, v: V) returns (k: K)
    requires (forall k <- keys :: k in stored) && v in InOrder(keys, stored)
    ensures k in keys && stored[k] == v
  {
    var i :| 0 <= i < |keys| && InOrder(keys, stored)[i] == v;
    k := keys[i];
  }

  lemma KeysInOrder(keys: seq<Key>, stored: map<Key, Entry>)
    requires (forall k <- keys :: k in stored && KeyOf(stored[k]) == k) && Ascending(keys, KeyLess)
    ensures KeysOf(InOrder(keys, stored)) == keys && DistinctKeys(InOrder(keys, stored))
  {
    var ms := InOrder(keys, stored);
    forall i | 0 <= i < |ms| ensures KeyOf(ms[i]) == keys[i] {
      assert keys[i] in keys;
    }
    AscendingKeysAreDistinct(ms, keys);
  }

  lemma AscendingKeysAreDistinct(ms: seq<Entry>, keys: seq<Key>)
    requires |ms| == |keys| && Ascending(keys, KeyLess) && forall i :: 0 <= i < |ms| ==> KeyOf(ms[i]) == keys[i]
    ensures DistinctKeys(ms)
  {
    KeysAreOrdered();
    forall i, j | 0 <= i < j < |ms| ensures KeyOf(ms[i]) != KeyOf(ms[j]) {
      assert KeyLess(keys[i], keys[j]) && !KeyLess(keys[i], keys[i]);
    }
  }

  lemma StoredManifestIsIndexed(keys: seq<Key>, stored: map<Key, Entry>, ms: seq<Entry>, k: Key)
    requires (forall k <- keys :: k in stored) && ms == InOrder(keys, stored) && DistinctKeys(ms)
    requires k in keys && KeyOf(stored[k]) == k
    ensures k in ManifestIndex(ms) && ManifestIndex(ms)[k] == stored[k]
  {
    InOrderHas(keys, stored, k);
  }

  lemma IndexedManifestIsStored(keys: seq<Key>, stored: map<Key, Entry>, ms: seq<Entry>, k: Key)
    requires (forall k <- keys :: k in stored && KeyOf(stored[k]) == k) && ms == InOrder(keys, stored) && DistinctKeys(ms)
    requires k in ManifestIndex(ms)
    ensures k in keys
  {
    var found := InOrderOnlyHas(keys, stored, ManifestIndex(ms)[k]);
    assert KeyOf(stored[found]) == found;
  }

  lemma IndexRestoresManifests(keys: seq<Key>, stored: map<Key, Entry>, ms: seq<Entry>)
    requires (forall k <- stored :: KeyOf(stored[k]) == k) && forall k :: k in keys <==> k in stored
    requires ms == InOrder(keys, stored) && DistinctKeys(ms)
    ensures ManifestIndex(ms) == stored
  {
    var index := ManifestIndex(ms);
    forall k | k in stored ensures k in index && index[k] == stored[k] {
      StoredManifestIsIndexed(keys, stored, ms, k);
    }
    forall k | k in index ensures k in stored {
      IndexedManifestIsStored(keys, stored, ms, k);
    }
  }

  lemma ExportedManifests(o: Objects)
    requires o.Keyed() && Export(o).Success?
    ensures
      var ms := Export(o).value.manifests;
      && KeysOf(ms) == SortedKeys(o.manifests.Keys)
      && DistinctKeys(ms) && ManifestIndex(ms) == o.manifests
  {
    KeysInOrder(SortedKeys(o.manifests.Keys), o.manifests);
    IndexRestoresManifests(SortedKeys(o.manifests.Keys), o.manifests, Export(o).value.manifests);
  }

  lemma DigestsInOrder(digests: seq<string>, stored: map<string, Snapshot>)
    requires (forall d <- digests :: d in stored && stored[d].digest == d) && Ascending(digests, TextLess)
    ensures DigestsOf(InOrder(digests, stored)) == digests && DistinctDigests(InOrder(digests, stored))
  {
    var ss := InOrder(digests, stored);
    forall i | 0 <= i < |ss| ensures ss[i].digest == digests[i] {
      assert digests[i] in digests;
    }
    AscendingDigestsAreDistinct(ss, digests);
  }

  lemma AscendingDigestsAreDistinct(ss: seq<Snapshot>, digests: seq<string>)
    requires |ss| == |digests| && Ascending(digests, TextLess) && forall i :: 0 <= i < |ss| ==> ss[i].digest == digests[i]
    ensures DistinctDigests(ss)
  {
    forall i, j | 0 <= i < j < |ss| ensures ss[i].digest != ss[j].digest {
      assert TextLess(digests[i], digests[j]);
      TextIsTotal(digests[i], digests[i]);
    }
  }

  lemma StoredSnapshotIsIndexed(digests: seq<string>, stored: map<string, Snapshot>, ss: seq<Snapshot>, d: string)
    requires (forall d <- digests :: d in stored) && ss == InOrder(digests, stored) && DistinctDigests(ss)
    requires d in digests && stored[d].digest == d
    ensures d in SnapshotIndex(ss) && SnapshotIndex(ss)[d] == stored[d]
  {
    InOrderHas(digests, stored, d);
  }

  lemma IndexedSnapshotIsStored(digests: seq<string>, stored: map<string, Snapshot>, ss: seq<Snapshot>, d: string)
    requires (forall d <- digests :: d in stored && stored[d].digest == d)
    requires ss == InOrder(digests, stored) && DistinctDigests(ss) && d in SnapshotIndex(ss)
    ensures d in digests
  {
    var found := InOrderOnlyHas(digests, stored, SnapshotIndex(ss)[d]);
    assert stored[found].digest == found;
  }

  lemma IndexRestoresSnapshots(digests: seq<string>, stored: map<string, Snapshot>, ss: seq<Snapshot>)
    requires (forall d <- stored :: stored[d].digest == d) && forall d :: d in digests <==> d in stored
    requires ss == InOrder(digests, stored) && DistinctDigests(ss)
    ensures SnapshotIndex(ss) == stored
  {
    var index := SnapshotIndex(ss);
    forall d | d in stored ensures d in index && index[d] == stored[d] {
      StoredSnapshotIsIndexed(digests, stored, ss, d);
    }
    forall d | d in index ensures d in stored {
      IndexedSnapshotIsStored(digests, stored, ss, d);
    }
  }

  lemma ExportedSnapshots(o: Objects)
    requires o.Keyed() && Export(o).Success?
    ensures
      var ss := Export(o).value.snapshots;
      && DigestsOf(ss) == SortedNames(o.snapshots.Keys)
      && DistinctDigests(ss) && SnapshotIndex(ss) == o.snapshots
  {
    DigestsInOrder(SortedNames(o.snapshots.Keys), o.snapshots);
    IndexRestoresSnapshots(SortedNames(o.snapshots.Keys), o.snapshots, Export(o).value.snapshots);
  }

  lemma ExportIsCanonical(o: Objects)
    requires o.Keyed() && Export(o).Success?
    ensures ValidBundle(Export(o).value) && Canonical(Export(o).value)
  {
    ExportedManifests(o);
    ExportedSnapshots(o);
  }

  /** What importing a bundle leaves in an empty store. */
  lemma ImportIntoEmpty(b: Bundle)
    requires ValidBundle(b)
    ensures Importable(Empty, b)
    ensures Merged(Empty, b) == Objects(
      ManifestIndex(b.manifests), SnapshotIndex(b.snapshots), if b.aliases == map[] then None else Some(b.aliases))
  {
    AddedToNothing(ManifestIndex(b.manifests));
    AddedToNothing(SnapshotIndex(b.snapshots));
    NothingIsCompatible(b);
    assert b.aliases.Keys <= Empty.Document().Keys <==> b.aliases == map[];
  }

  lemma AddedToNothing<K, V>(m: map<K, V>)
    ensures map[] + m == m
  {
  }

  lemma NothingIsCompatible(b: Bundle)
    ensures Compatible(Empty, b) && Empty.Keyed() && Empty.Covers(Empty.Document())
  {
  }

  lemma CanonicalManifestsAreExported(ms: seq<Entry>, exported: seq<Entry>)
    requires DistinctKeys(ms) && DistinctKeys(exported) && ManifestIndex(exported) == ManifestIndex(ms)
    requires Ascending(KeysOf(ms), KeyLess) && Ascending(KeysOf(exported), KeyLess)
    ensures exported == ms
  {
    KeysAreOrdered();
    var index := ManifestIndex(ms);
    forall k ensures (k in KeysOf(ms) <==> k in index) && (k in KeysOf(exported) <==> k in index) {
      KeysAreIndexed(ms, k);
      KeysAreIndexed(exported, k);
    }
    AscendingIsUnique(KeysOf(ms), KeysOf(exported), KeyLess);
    forall i | 0 <= i < |ms| ensures exported[i] == ms[i] {
      assert KeysOf(ms)[i] == KeysOf(exported)[i];
      assert ms[i] in ms && exported[i] in exported;
    }
  }

  lemma KeysAreIndexed(ms: seq<Entry>, k: Key)
    requires DistinctKeys(ms)
    ensures k in KeysOf(ms) <==> k in ManifestIndex(ms)
  {
    if k in ManifestIndex(ms) {
      var i :| 0 <= i < |ms| && ms[i] == ManifestIndex(ms)[k];
      assert KeysOf(ms)[i] == k;
    }
    if k in KeysOf(ms) {
      var i :| 0 <= i < |ms| && KeysOf(ms)[i] == k;
      assert ms[i] in ms;
    }
  }

  lemma CanonicalSnapshotsAreExported(ss: seq<Snapshot>, exported: seq<Snapshot>)
    requires DistinctDigests(ss) && DistinctDigests(exported) && SnapshotIndex(exported) == SnapshotIndex(ss)
    requires Ascending(DigestsOf(ss), TextLess) && Ascending(DigestsOf(exported), TextLess)
    ensures exported == ss
  {
    TextIsOrdered();
    var index := SnapshotIndex(ss);
    forall d ensures (d in DigestsOf(ss) <==> d in index) && (d in DigestsOf(exported) <==> d in index) {
      DigestsAreIndexed(ss, d);
      DigestsAreIndexed(exported, d);
    }
    AscendingIsUnique(DigestsOf(ss), DigestsOf(exported), TextLess);
    forall i | 0 <= i < |ss| ensures exported[i] == ss[i] {
      assert DigestsOf(ss)[i] == DigestsOf(exported)[i];
      assert ss[i] in ss && exported[i] in exported;
    }
  }

  lemma DigestsAreIndexed(ss: seq<Snapshot>, d: string)
    requires DistinctDigests(ss)
    ensures d in DigestsOf(ss) <==> d in SnapshotIndex(ss)
  {
    if d in SnapshotIndex(ss) {
      var i :| 0 <= i < |ss| && ss[i] == SnapshotIndex(ss)[d];
      assert DigestsOf(ss)[i] == d;
    }
    if d in DigestsOf(ss) {
      var i :| 0 <= i < |ss| && DigestsOf(ss)[i] == d;
      assert ss[i] in ss;
    }
  }

  /**
    Importing a bundle into an empty store and exporting the store gives the
    bundle back exactly when the bundle is in canonical order and names at
    least one alias: an import of no aliases never writes the alias document,
    and a store without that document refuses to be exported.
   */
  lemma ImportThenExportIffCanonical(b: Bundle)
    requires ValidBundle(b)
    ensures Run(Empty, Writes(PlanOf(Empty, b), b)).Success?
    ensures
      var imported := Run(Empty, Writes(PlanOf(Empty, b), b)).value;
      Export(imported) == Success(b) <==> b.aliases != map[] && Canonical(b)
  {
    ImportIntoEmpty(b);
    ImportReachesMerged(Empty, b);
    var imported := Merged(Empty, b);
    if b.aliases != map[] {
      assert Export(imported).Success?;
      ExportedManifests(imported);
      ExportedSnapshots(imported);
      var exported := Export(imported).value;
      if Canonical(b) {
        CanonicalManifestsAreExported(b.manifests, exported.manifests);
        CanonicalSnapshotsAreExported(b.snapshots, exported.snapshots);
      }
    }
  }

  /** Exporting a store and importing the bundle into an empty one copies the store, unless its alias document is empty. */
  lemma ExportThenImportCopies(o: Objects)
    requires o.Keyed() && Export(o).Success?
    ensures ValidBundle(Export(o).value)
    ensures
      var b := Export(o).value;
      Run(Empty, Writes(PlanOf(Empty, b), b)) == Success(if o.Document() == map[] then o.(aliases := None) else o)
  {
    ExportIsCanonical(o);
    ExportedManifests(o);
    ExportedSnapshots(o);
    ImportIntoEmpty(Export(o).value);
    ImportReachesMerged(Empty, Export(o).value);
  }
}
