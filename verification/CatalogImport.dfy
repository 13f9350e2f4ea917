/**
  The destination store of a catalog import, updated write by write
  (definitions/migration.py and DefinitionCatalogStore in definitions/catalog.py).
 */
module CatalogImport {
  import opened Wrappers
  import opened MerkleDag
  import opened DefinitionManifests
  import opened PreparedDefinitions
  import opened Ordering
  import opened CatalogMigration

  // ---------------------------------------------------------------- the store and its operations

  class DefinitionCatalogStore {
    var manifests: map<Key, Entry>
    var snapshots: map<string, Snapshot>
    var aliases: Option<Aliases>

    function State(): Objects
      reads this
    {
      Objects(manifests, snapshots, aliases)
    }

    constructor ()
      ensures State() == Empty
    {
      manifests, snapshots, aliases := map[], map[], None;
    }

    method StoreDefinitionManifest(m: Entry) returns (r: Result<(), MigrationError>)
      modifies this
      ensures
        var after := Perform(old(State()), StoreManifest(m));
        if after.Success? then r.Success? && State() == after.value
        else r == Failure(after.error) && State() == old(State())
    {
      if KeyOf(m) in manifests && manifests[KeyOf(m)] != m {
        return Failure(WriteConflict);
      }
      manifests := manifests[KeyOf(m) := m];
      r := Success(());
    }

    method StoreEnvironmentSnapshot(s: Snapshot) returns (r: Result<(), MigrationError>)
      modifies this
      ensures
        var after := Perform(old(State()), StoreSnapshot(s));
        if after.Success? then r.Success? && State() == after.value
        else r == Failure(after.error) && State() == old(State())
    {
      if s.digest in snapshots && snapshots[s.digest] != s {
        return Failure(WriteConflict);
      }
      snapshots := snapshots[s.digest := s];
      r := Success(());
    }

    method ReplaceCatalogAliases(document: Aliases, expected: Option<Aliases>) returns (r: Result<(), MigrationError>)
      modifies this
      ensures
        var after := Perform(old(State()), ReplaceAliases(document, expected));
        if after.Success? then r.Success? && State() == after.value
        else r == Failure(after.error) && State() == old(State())
    {
      if !State().Covers(State().Document()) || !State().Covers(document) {
        return Failure(Dangling);
      }
      if aliases != Some(document) {
        if aliases != expected {
          return Failure(WriteConflict);
        }
        aliases := Some(document);
      }
      r := Success(());
    }

    method PlanManifests(b: Bundle) returns (toCreate: seq<Entry>, conflicts: seq<Conflict>)
      ensures toCreate == Collect(NewManifest(State()), b.manifests)
      ensures conflicts == Collect(ManifestClash(State()), b.manifests)
    {
      toCreate, conflicts := [], [];
      for i := 0 to |b.manifests|
        invariant toCreate == Collect(NewManifest(State()), b.manifests[..i])
        invariant conflicts == Collect(ManifestClash(State()), b.manifests[..i])
      {
        var m := b.manifests[i];
        CollectNext(NewManifest(State()), b.manifests, i);
        CollectNext(ManifestClash(State()), b.manifests, i);
        if KeyOf(m) !in manifests {
          toCreate := toCreate + [m];
        } else if manifests[KeyOf(m)] != m {
          conflicts := conflicts + [ManifestConflict(KeyOf(m))];
        }
      }
      assert b.manifests[..|b.manifests|] == b.manifests;
    }

    method PlanSnapshots(b: Bundle) returns (toCreate: seq<Snapshot>, conflicts: seq<Conflict>)
      ensures toCreate == Collect(NewSnapshot(State()), b.snapshots)
      ensures conflicts == Collect(SnapshotClash(State()), b.snapshots)
    {
      toCreate, conflicts := [], [];
      for i := 0 to |b.snapshots|
        invariant toCreate == Collect(NewSnapshot(State()), b.snapshots[..i])
        invariant conflicts == Collect(SnapshotClash(State()), b.snapshots[..i])
      {
        var s := b.snapshots[i];
        CollectNext(NewSnapshot(State()), b.snapshots, i);
        CollectNext(SnapshotClash(State()), b.snapshots, i);
        if s.digest !in snapshots {
          toCreate := toCreate + [s];
        } else if snapshots[s.digest] != s {
          conflicts := conflicts + [SnapshotConflict(s.digest)];
        }
      }
      assert b.snapshots[..|b.snapshots|] == b.snapshots;
    }

    method PlanAliases(b: Bundle) returns (toCreate: seq<string>, same: seq<string>, conflicts: seq<Conflict>)
      ensures
        var names, current := SortedNames(b.aliases.Keys), State().Document();
        && toCreate == Collect(NewAlias(current), names)
        && same == Collect(SameAlias(current, b.aliases), names)
        && conflicts == Collect(AliasClash(current, b.aliases), names)
    {
      var names, current := SortedNames(b.aliases.Keys), State().Document();
      toCreate, same, conflicts := [], [], [];
      for i := 0 to |names|
        invariant toCreate == Collect(NewAlias(current), names[..i])
        invariant same == Collect(SameAlias(current, b.aliases), names[..i])
        invariant conflicts == Collect(AliasClash(current, b.aliases), names[..i])
      {
        var n := names[i];
        assert n in names;
        CollectNext(NewAlias(current), names, i);
        CollectNext(SameAlias(current, b.aliases), names, i);
        CollectNext(AliasClash(current, b.aliases), names, i);
        if n !in current {
          toCreate := toCreate + [n];
        } else if current[n] == b.aliases[n] {
          same := same + [n];
        } else {
          conflicts := conflicts + [AliasConflict(n, current[n], b.aliases[n])];
        }
      }
      assert names[..|names|] == names;
    }

    method PlanForeignAliases(b: Bundle) returns (conflicts: seq<Conflict>)
      ensures conflicts ==
        Collect(ForeignAlias(State().Document()), SortedNames(State().Document().Keys - b.aliases.Keys))
    {
      var current := State().Document();
      var names := SortedNames(current.Keys - b.aliases.Keys);
      conflicts := [];
      for i := 0 to |names|
        invariant conflicts == Collect(ForeignAlias(current), names[..i])
      {
        assert names[i] in names;
        CollectNext(ForeignAlias(current), names, i);
        conflicts := conflicts + [DestinationAlias(names[i], current[names[i]])];
      }
      assert names[..|names|] == names;
    }

    method PlanCatalogImport(b: Bundle) returns (r: Result<Plan, MigrationError>)
      ensures r == if State().Covers(State().Document()) then Success(PlanOf(State(), b)) else Failure(Dangling)
    {
      if !State().Covers(State().Document()) {
        return Failure(Dangling);
      }
      var manifestsToCreate, manifestConflicts := PlanManifests(b);
      var snapshotsToCreate, snapshotConflicts := PlanSnapshots(b);
      var aliasesToCreate, same, aliasConflicts := PlanAliases(b);
      var foreign := PlanForeignAliases(b);
      r := Success(Plan(aliases, manifestsToCreate, snapshotsToCreate, aliasesToCreate, same,
        manifestConflicts + snapshotConflicts + aliasConflicts + foreign));
    }

    method StoreMissingManifests(ghost o: Objects, ghost writes: seq<Write>, manifests: seq<Entry>)
      requires AllAdvance(o, writes) && Reached(o, writes, 0, State())
      requires forall i {:trigger manifests[i]} :: 0 <= i < |manifests| ==> i < |writes| && writes[i] == StoreManifest(manifests[i])
      modifies this
      ensures Reached(o, writes, |manifests|, State())
    {
      for i := 0 to |manifests|
        invariant Reached(o, writes, i, State())
      {
        var manifest := manifests[i];
        assert Advances(o, writes, i);
        var stored := StoreDefinitionManifest(manifest);
      }
    }

    method StoreMissingSnapshots(ghost o: Objects, ghost writes: seq<Write>, ghost done: nat, snapshots: seq<Snapshot>)
      requires AllAdvance(o, writes) && Reached(o, writes, done, State())
      requires forall i {:trigger snapshots[i]} :: 0 <= i < |snapshots| ==>
        done + i < |writes| && writes[done + i] == StoreSnapshot(snapshots[i])
      modifies this
      ensures Reached(o, writes, done + |snapshots|, State())
    {
      for i := 0 to |snapshots|
        invariant Reached(o, writes, done + i, State())
      {
        var snapshot := snapshots[i];
        assert Advances(o, writes, done + i);
        var stored := StoreEnvironmentSnapshot(snapshot);
      }
    }

    /** Makes the writes of a plan, in order. */
    method CarryOut(ghost o: Objects, b: Bundle, plan: Plan, ghost writes: seq<Write>)
      requires AllAdvance(o, writes) && AreWritesOf(writes, plan, b) && Reached(o, writes, 0, State())
      modifies this
      ensures Reached(o, writes, |writes|, State())
    {
      StoreMissingManifests(o, writes, plan.manifestsToCreate);
      StoreMissingSnapshots(o, writes, |plan.manifestsToCreate|, plan.snapshotsToCreate);
      if plan.aliasesToCreate != [] {
        assert Advances(o, writes, |writes| - 1);
        var replaced := ReplaceCatalogAliases(b.aliases, plan.expected);
      }
    }

    /** Refuses a bundle that contradicts the store without writing anything; otherwise joins it into the store. */
    method ImportCatalog(b: Bundle) returns (r: Result<Plan, MigrationError>)
      requires ValidBundle(b) && State().Keyed()
      modifies this
      ensures State().Keyed()
      ensures r.Success? <==> old(State().Covers(State().Document())) && Compatible(old(State()), b)
      ensures r.Success? ==> r.value == PlanOf(old(State()), b) && State() == Merged(old(State()), b)
      ensures r.Failure? ==> State() == old(State())
    {
      r := PlanCatalogImport(b);
      if r.Failure? {
        return;
      }
      ghost var o := State();
      PlanHasNoConflictIffCompatible(o, b);
      if r.value.conflicts != [] {
        return Failure(ImportConflicts(r.value.conflicts));
      }
      ghost var writes := Writes(r.value, b);
      EveryWriteAdvances(o, b, r.value);
      WritesOfPlan(r.value, b);
      CarryOut(o, b, r.value, writes);
      assert writes[..|writes|] == writes;
      ImportReachesMerged(o, b);
    }
  }

  ghost predicate AreWritesOf(writes: seq<Write>, plan: Plan, b: Bundle) {
    var stored := |plan.manifestsToCreate|;
    && |writes| == stored + |plan.snapshotsToCreate| + (if plan.aliasesToCreate == [] then 0 else 1)
    && (forall i {:trigger plan.manifestsToCreate[i]} :: 0 <= i < stored ==>
         writes[i] == StoreManifest(plan.manifestsToCreate[i]))
    && (forall i {:trigger plan.snapshotsToCreate[i]} :: 0 <= i < |plan.snapshotsToCreate| ==>
         writes[stored + i] == StoreSnapshot(plan.snapshotsToCreate[i]))
    && (plan.aliasesToCreate != [] ==> writes[|writes| - 1] == ReplaceAliases(b.aliases, plan.expected))
  }

  lemma WritesOfPlan(plan: Plan, b: Bundle)
    ensures AreWritesOf(Writes(plan, b), plan, b)
  {
  }

  /** The first `k` writes of the import have brought the store to `s`. */
  ghost predicate Reached(o: Objects, writes: seq<Write>, k: nat, s: Objects) {
    k <= |writes| && Run(o, writes[..k]) == Success(s)
  }

  ghost predicate Advances(o: Objects, writes: seq<Write>, k: nat)
    requires k < |writes|
  {
    forall s {:trigger Reached(o, writes, k, s)} :: Reached(o, writes, k, s) ==>
      Perform(s, writes[k]).Success? && Reached(o, writes, k + 1, Perform(s, writes[k]).value)
  }

  /** Each write succeeds where the writes before it lead. */
  ghost predicate AllAdvance(o: Objects, writes: seq<Write>) {
    forall k: nat {:trigger Advances(o, writes, k)} :: k < |writes| ==> Advances(o, writes, k)
  }

  lemma EveryWriteAdvances(o: Objects, b: Bundle, plan: Plan)
    requires Importable(o, b) && plan == PlanOf(o, b)
    ensures AllAdvance(o, Writes(plan, b))
  {
    var writes := Writes(plan, b);
    PlanCarriesOut(o, b);
    forall k: nat, s | k < |writes| && Reached(o, writes, k, s)
      ensures Perform(s, writes[k]).Success? && Reached(o, writes, k + 1, Perform(s, writes[k]).value)
    {
      ImportProgresses(o, b, writes, k);
      ImportAdvances(o, b, writes, k, s);
      RunNext(o, writes, k);
    }
  }

  // ---------------------------------------------------------------- moving the unscoped catalog

  lemma ExportedBundle(o: Objects)
    requires o.Keyed() && Export(o).Success?
    ensures
      var b := Export(o).value;
      && ValidBundle(b) && b.aliases == o.Document()
      && ManifestIndex(b.manifests) == o.manifests && SnapshotIndex(b.snapshots) == o.snapshots
  {
    ExportIsCanonical(o);
    ExportedManifests(o);
    ExportedSnapshots(o);
  }

  /** The guard of a migration: aliases on both sides, and not the same ones. */
  method AliasesCollide(unscoped: Aliases, scoped: Aliases) returns (clash: bool)
    ensures clash <==> scoped != map[] && scoped != unscoped
  {
    var collisions := set n | n in unscoped && n in scoped && unscoped[n] != scoped[n];
    clash := collisions != {} || (scoped != map[] && scoped.Keys != unscoped.Keys);
    if scoped.Keys == unscoped.Keys && scoped != unscoped {
      var n :| n in scoped && n in unscoped && scoped[n] != unscoped[n];
      assert n in collisions;
    }
    if collisions != {} {
      var n :| n in collisions;
      assert unscoped[n] != scoped[n];
    }
  }

  method MigrateUnscopedCatalog(unscoped: DefinitionCatalogStore, scoped: DefinitionCatalogStore, keepScoped: bool)
    returns (r: Result<(), MigrationError>)
    requires unscoped != scoped && unscoped.State().Keyed() && scoped.State().Keyed()
    modifies scoped
    ensures
      var u, s, s' := unscoped.State(), old(scoped.State()), scoped.State();
      && (r.Failure? || keepScoped || u.Document() == map[] ==> s' == s)
      && (r.Success? && !keepScoped && u.Document() != map[] ==>
           && s'.Document() == u.Document()
           && s'.manifests == s.manifests + u.manifests && s'.snapshots == s.snapshots + u.snapshots)
      && (r.Success? <==>
           && u.Covers(u.Document()) && s.Covers(s.Document())
           && (keepScoped || u.Document() == map[] || (
                && (s.Document() == map[] || s.Document() == u.Document())
                && Agree(s.manifests, u.manifests) && Agree(s.snapshots, u.snapshots))))
  {
    var u, s := unscoped.State(), scoped.State();
    if !u.Covers(u.Document()) || !s.Covers(s.Document()) {
      return Failure(Dangling);
    }
    if keepScoped || u.Document() == map[] {
      return Success(());
    }
    var clash := AliasesCollide(u.Document(), s.Document());
    if clash {
      return Failure(BothHaveAliases);
    }
    var exported := Export(u).value;
    ExportedBundle(u);
    CompatibleIffAgree(s, exported);
    CompatibleAliases(s, exported);
    var imported := scoped.ImportCatalog(exported);
    r := if imported.Success? then Success(()) else Failure(imported.error);
  }

  lemma CompatibleIffAgree(o: Objects, b: Bundle)
    requires ValidBundle(b) && Submap(o.Document(), b.aliases)
    ensures Compatible(o, b) <==>
      Agree(o.manifests, ManifestIndex(b.manifests)) && Agree(o.snapshots, SnapshotIndex(b.snapshots))
  {
    if Compatible(o, b) {
      CompatibleIndexesAgree(o, b);
    }
  }
}
