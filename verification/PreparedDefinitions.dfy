/**
  The loaded definition catalog and the assembly of runnable definitions
  (DefinitionCatalog in definitions/catalog.py, and definitions/runtime.py).
 */
module PreparedDefinitions {
  import opened Wrappers
  import opened MerkleDag
  import opened DefinitionManifests

  type Key = (string, Digest)

  function KeyOf(m: Manifest<Header>): Key {
    (m.content.header.logicalName, m.digest)
  }

  datatype CatalogError =
    | DuplicateDefinition(key: Key)
    | DanglingAlias(name: string)

  datatype Catalog = Catalog(manifests: map<Key, Manifest<Header>>, aliases: map<string, Digest>) {

    /** What the constructor establishes. */
    ghost predicate WellFormed() {
      && (forall k {:trigger KeyOf(manifests[k])} :: k in manifests ==> KeyOf(manifests[k]) == k)
      && (forall n {:trigger Resolve(n)} :: n in aliases ==> (n, aliases[n]) in manifests)
    }

    function Get(name: string, digest: Digest): Option<Manifest<Header>> {
      if (name, digest) in manifests then Some(manifests[(name, digest)]) else None
    }

    function Resolve(name: string): Option<Manifest<Header>> {
      if name in aliases then Get(name, aliases[name]) else None
    }

    /** The published aliases name exactly the authored workflows, each at its authored manifest. */
    predicate Verifies(authored: map<string, Manifest<Header>>) {
      authored.Keys == aliases.Keys && forall n {:trigger Resolve(n)} :: n in authored ==> Resolve(n) == Some(authored[n])
    }
  }

  ghost predicate DistinctKeys(manifests: seq<Manifest<Header>>) {
    forall i, j :: 0 <= i < j < |manifests| ==> KeyOf(manifests[i]) != KeyOf(manifests[j])
  }

  ghost predicate Indexes(indexed: map<Key, Manifest<Header>>, manifests: seq<Manifest<Header>>) {
    && (forall k <- indexed :: KeyOf(indexed[k]) == k && indexed[k] in manifests)
    && (forall m <- manifests :: KeyOf(m) in indexed && indexed[KeyOf(m)] == m)
  }

  method IndexManifests(manifests: seq<Manifest<Header>>) returns (r: Result<map<Key, Manifest<Header>>, CatalogError>)
    ensures r.Success? <==> DistinctKeys(manifests)
    ensures r.Success? ==> Indexes(r.value, manifests)
  {
    var indexed: map<Key, Manifest<Header>> := map[];
    for i := 0 to |manifests|
      invariant Indexes(indexed, manifests[..i])
      invariant DistinctKeys(manifests[..i])
    {
      var m := manifests[i];
      assert manifests[..i + 1] == manifests[..i] + [m];
      if KeyOf(m) in indexed {
        var j :| 0 <= j < i && manifests[j] == indexed[KeyOf(m)];
        return Failure(DuplicateDefinition(KeyOf(m)));
      }
      indexed := indexed[KeyOf(m) := m];
    }
    assert manifests[..|manifests|] == manifests;
    r := Success(indexed);
  }

  /** Indexes stored manifests and checks that no alias dangles. */
  method NewCatalog(manifests: seq<Manifest<Header>>, aliases: map<string, Digest>)
    returns (r: Result<Catalog, CatalogError>)
    ensures r.Success? <==>
      DistinctKeys(manifests) && forall n <- aliases :: exists m <- manifests :: KeyOf(m) == (n, aliases[n])
    ensures r.Success? ==> r.value.WellFormed() && r.value.aliases == aliases && Indexes(r.value.manifests, manifests)
  {
    var indexed := IndexManifests(manifests);
    if indexed.Failure? {
      return Failure(indexed.error);
    }
    var dangling := set n | n in aliases && (n, aliases[n]) !in indexed.value;
    if dangling != {} {
      var n :| n in dangling;
      return Failure(DanglingAlias(n));
    }
    forall n | n in aliases ensures (n, aliases[n]) in indexed.value {
      assert n !in dangling;
    }
    r := Success(Catalog(indexed.value, aliases));
  }

  datatype StartTarget = StartTarget(
    manifest: Manifest<Header>,
    children: map<string, Manifest<Header>>,
    snapshot: string,
    childSnapshots: map<string, string>)

  datatype PrepareError =
    | BuildFailed(error: BuildError)
    | CatalogDrift
    | SnapshotMismatch
    | NotInCatalog(name: string)
    | SnapshotMissing(name: string)

  /** A manifest set is keyed by logical name, and its child identities stay inside it. */
  ghost predicate Authored(authored: map<string, Manifest<Header>>) {
    forall n {:trigger AuthoredManifest(authored, n, authored[n])} ::
      n in authored ==> AuthoredManifest(authored, n, authored[n])
  }

  ghost predicate AuthoredManifest(authored: map<string, Manifest<Header>>, n: string, m: Manifest<Header>) {
    && KeyOf(m) == (n, m.digest)
    && forall c <- m.content.children :: c in authored && m.content.children[c] == authored[c].digest
  }

  lemma BuiltIsAuthored(inputs: Inputs, authored: map<string, Manifest<Header>>, name: string)
    requires authored.Keys == inputs.workflows.Keys && name in authored
    requires forall n <- authored :: ManifestOf(DagOf(inputs), n, {}) == Some(authored[n])
    ensures AuthoredManifest(authored, name, authored[name])
  {
    var dag := DagOf(inputs);
    assert ManifestOf(dag, name, {}) == Some(authored[name]);
    assert dag.nodes[name] == NodeOf(inputs, name, inputs.workflows[name]);
    forall c | c in authored[name].content.children
      ensures c in authored && authored[name].content.children[c] == authored[c].digest
    {
      ChildIdentities(dag, name, c);
      assert c in dag.nodes;
    }
  }

  ghost predicate PreparedAs(
    authored: map<string, Manifest<Header>>, snapshots: map<string, string>, n: string, target: StartTarget)
  {
    && n in authored && target.manifest == authored[n]
    && n in snapshots && target.snapshot == snapshots[n]
    && ChildrenPrepared(authored, snapshots, authored[n].content.children.Keys, target.children, target.childSnapshots)
  }

  ghost predicate ChildrenPrepared(
    authored: map<string, Manifest<Header>>, snapshots: map<string, string>, names: set<string>,
    children: map<string, Manifest<Header>>, childSnapshots: map<string, string>)
  {
    && (forall c :: c in names <==> c in children)
    && (forall c :: c in names <==> c in childSnapshots)
    && (forall c <- children :: c in authored && children[c] == authored[c])
    && (forall c <- childSnapshots :: c in snapshots && childSnapshots[c] == snapshots[c])
  }

  /**
    The manifest, child manifests and snapshots handed to the compiler of one
    workflow; none of these lookups fails once the catalog is verified.
   */
  method PrepareTarget(
    catalog: Catalog, name: string, snapshots: map<string, string>, ghost authored: map<string, Manifest<Header>>)
    returns (r: Result<StartTarget, PrepareError>)
    requires catalog.WellFormed() && catalog.Verifies(authored) && Authored(authored)
    requires authored.Keys == snapshots.Keys && name in authored
    ensures r.Success? && PreparedAs(authored, snapshots, name, r.value)
  {
    assert AuthoredManifest(authored, name, authored[name]);
    var manifest := catalog.Resolve(name);
    assert manifest == Some(authored[name]);
    if manifest.None? {
      return Failure(NotInCatalog(name));
    }
    var identities := manifest.value.content.children;
    var rest := identities.Keys;
    var children: map<string, Manifest<Header>>, childSnapshots: map<string, string> := map[], map[];
    while rest != {}
      invariant rest <= identities.Keys
      invariant forall c :: c in identities <==> c in rest || c in children
      invariant forall c :: c in children <==> c in childSnapshots
      invariant forall c <- children :: c in authored && children[c] == authored[c]
      invariant forall c <- childSnapshots :: c in snapshots && childSnapshots[c] == snapshots[c]
      decreases |rest|
    {
      var c :| c in rest;
      rest := rest - {c};
      var child := catalog.Get(c, identities[c]);
      assert child == Some(authored[c]) by {
        assert AuthoredManifest(authored, c, authored[c]) && catalog.Resolve(c) == Some(authored[c]);
        ResolvedDigest(catalog, authored, c);
      }
      if child.None? {
        return Failure(NotInCatalog(c));
      }
      if c !in snapshots {
        return Failure(SnapshotMissing(c));
      }
      children := children[c := child.value];
      childSnapshots := childSnapshots[c := snapshots[c]];
    }
    r := Success(StartTarget(manifest.value, children, snapshots[name], childSnapshots));
  }

  lemma ResolvedDigest(catalog: Catalog, authored: map<string, Manifest<Header>>, c: string)
    requires catalog.WellFormed() && catalog.Verifies(authored) && c in authored
    ensures catalog.Get(c, authored[c].digest) == Some(authored[c])
  {
    assert catalog.Resolve(c) == Some(authored[c]);
    assert KeyOf(catalog.manifests[(c, catalog.aliases[c])]) == (c, catalog.aliases[c]);
  }

  method PrepareTargets(
    catalog: Catalog, names: set<string>, snapshots: map<string, string>, ghost authored: map<string, Manifest<Header>>)
    returns (targets: map<string, StartTarget>)
    requires catalog.WellFormed() && catalog.Verifies(authored) && Authored(authored)
    requires authored.Keys == snapshots.Keys == names
    ensures forall n :: n in targets <==> n in names
    ensures forall n <- targets :: PreparedAs(authored, snapshots, n, targets[n])
  {
    var rest := names;
    targets := map[];
    while rest != {}
      invariant rest <= names
      invariant forall n :: n in names <==> n in rest || n in targets
      invariant forall n <- targets :: PreparedAs(authored, snapshots, n, targets[n])
      decreases |rest|
    {
      var name :| name in rest;
      rest := rest - {name};
      var target := PrepareTarget(catalog, name, snapshots, authored);
      targets := targets[name := target.value];
    }
  }

  lemma BuiltIsManifestSet(inputs: Inputs, built: map<string, Manifest<Header>>)
    requires built.Keys == inputs.workflows.Keys
    requires forall n <- built :: ManifestOf(DagOf(inputs), n, {}) == Some(built[n])
    ensures built == ManifestSet(inputs)
  {
    forall n ensures n in built <==> n in ManifestSet(inputs) {
      if n in inputs.workflows {
        assert n in built;
      }
    }
  }

  /** The manifests that the authored workflows of a buildable set have. */
  ghost function ManifestSet(inputs: Inputs): map<string, Manifest<Header>> {
    map n | n in inputs.workflows && ManifestOf(DagOf(inputs), n, {}).Some? :: ManifestOf(DagOf(inputs), n, {}).value
  }

  /**
    Preparation succeeds exactly when the workflows can be built, the published
    aliases are exactly their manifests, and there is a snapshot for each; each
    failure says which of the three is missing first.  No catalog or snapshot
    lookup after these checks can fail, and every workflow starts with the
    manifests and snapshots of exactly its own children.
   */
  method PrepareDefinitions(inputs: Inputs, catalog: Catalog, snapshots: map<string, string>)
    returns (r: Result<map<string, StartTarget>, PrepareError>)
    requires catalog.WellFormed()
    ensures r.Success? <==>
      && Buildable(DagOf(inputs)) && catalog.Verifies(ManifestSet(inputs)) && snapshots.Keys == inputs.workflows.Keys
    ensures r.Failure? ==> (match r.error
      case BuildFailed(error) => Justified(inputs, DagOf(inputs), error) && !Buildable(DagOf(inputs))
      case CatalogDrift => Buildable(DagOf(inputs)) && !catalog.Verifies(ManifestSet(inputs))
      case SnapshotMismatch =>
        Buildable(DagOf(inputs)) && catalog.Verifies(ManifestSet(inputs)) && snapshots.Keys != inputs.workflows.Keys
      case _ => false)
    ensures r.Success? ==> forall n :: n in r.value <==> n in inputs.workflows
    ensures r.Success? ==> forall n <- r.value :: PreparedAs(ManifestSet(inputs), snapshots, n, r.value[n])
  {
    var built := BuildDefinitionManifests(inputs);
    if built.Failure? {
      return Failure(BuildFailed(built.error));
    }
    ghost var authored := ManifestSet(inputs);
    BuiltIsManifestSet(inputs, built.value);
    if !catalog.Verifies(built.value) {
      return Failure(CatalogDrift);
    }
    if snapshots.Keys != inputs.workflows.Keys {
      return Failure(SnapshotMismatch);
    }
    forall n | n in authored ensures AuthoredManifest(authored, n, authored[n]) {
      BuiltIsAuthored(inputs, authored, n);
    }
    var targets := PrepareTargets(catalog, inputs.workflows.Keys, snapshots, authored);
    r := Success(targets);
  }
}
