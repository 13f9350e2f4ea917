/**
  Retention in the production configuration store while no other writer is
  active (configuration/aws.py): the reference-count audit, the per-record
  deletes and the body cleanup refine the same collector as the local store.
 */
module AwsRetention {
  import opened Wrappers
  import opened Revisions
  import opened Pagination
  import opened Retention
  import opened AwsStore

  const AWS_CONFIGURATION_STORE_MAX_QUERY_ITEMS := 10_000
  const MAX_RETENTION_DELETE_COUNT := 100

  datatype IndexRow = IndexRow(id: RevisionId, parent: Option<RevisionId>, children: int)

  datatype RetentionError = LimitExceeded | IntegrityDisagrees | Conflict

  function CountChildren(rows: seq<IndexRow>, id: RevisionId): nat {
    if rows == [] then 0
    else CountChildren(rows[..|rows| - 1], id) + (if rows[|rows| - 1].parent == Some(id) then 1 else 0)
  }

  predicate Listed(rows: seq<IndexRow>, id: RevisionId) {
    exists row <- rows :: row.id == id
  }

  ghost predicate CountsAgree(rows: seq<IndexRow>) {
    forall row <- rows ::
      && (row.parent.Some? ==> Listed(rows, row.parent.value))
      && row.children == CountChildren(rows, row.id)
  }

  lemma {:induction false} CountedIffParent(rows: seq<IndexRow>, id: RevisionId)
    ensures CountChildren(rows, id) > 0 <==> exists row <- rows :: row.parent == Some(id)
  {
    if rows != [] {
      CountedIffParent(rows[..|rows| - 1], id);
      assert rows == rows[..|rows| - 1] + [rows[|rows| - 1]];
    }
  }

  /** Recounts the children of every listed revision. */
  method CountReferences(rows: seq<IndexRow>) returns (r: Result<map<RevisionId, nat>, RetentionError>)
    ensures r.Success? <==> forall row <- rows :: row.parent.Some? ==> Listed(rows, row.parent.value)
    ensures r.Failure? ==> r.error == IntegrityDisagrees
    ensures r.Success? ==> forall id :: id in r.value <==> Listed(rows, id)
    ensures r.Success? ==> forall id <- r.value :: r.value[id] == CountChildren(rows, id)
  {
    var ids := set row | row in rows :: row.id;
    var counts: map<RevisionId, nat> := map id | id in ids :: 0;
    for i := 0 to |rows|
      invariant counts.Keys == ids
      invariant forall id <- counts :: counts[id] == CountChildren(rows[..i], id)
      invariant forall j :: 0 <= j < i && rows[j].parent.Some? ==> Listed(rows, rows[j].parent.value)
    {
      assert rows[..i + 1][..i] == rows[..i];
      if rows[i].parent.Some? {
        if rows[i].parent.value !in counts {
          return Failure(IntegrityDisagrees);
        }
        counts := counts[rows[i].parent.value := counts[rows[i].parent.value] + 1];
      }
    }
    assert rows[..|rows|] == rows;
    r := Success(counts);
  }

  /** The audit succeeds exactly when every stored count is right, and returns the referenced revisions. */
  method ValidateChildReferenceCounts(rows: seq<IndexRow>) returns (r: Result<set<RevisionId>, RetentionError>)
    ensures r.Success? <==> CountsAgree(rows)
    ensures r.Failure? ==> r.error == IntegrityDisagrees
    ensures r.Success? ==> forall id :: id in r.value <==> exists row <- rows :: row.parent == Some(id)
  {
    var counts := CountReferences(rows);
    if counts.Failure? {
      return Failure(counts.error);
    }
    for i := 0 to |rows|
      invariant forall j :: 0 <= j < i ==> rows[j].children == CountChildren(rows, rows[j].id)
    {
      assert Listed(rows, rows[i].id);
      if rows[i].children != counts.value[rows[i].id] {
        return Failure(IntegrityDisagrees);
      }
    }
    forall id ensures CountChildren(rows, id) > 0 <==> exists row <- rows :: row.parent == Some(id) {
      CountedIffParent(rows, id);
    }
    r := Success(set id | id in counts.value && counts.value[id] > 0);
  }

  // ---------------------------------------------------------------- the store while nobody else writes

  /** The sort key of the revision index; `rank` is the position of an identity's digest in text order. */
  function IndexKey(rank: RevisionId -> int, s: Store, id: RevisionId): Key {
    (if IsRevision(s, id) then s.items[id].createdAt else 0, rank(id))
  }

  ghost predicate NewestFirst(rank: RevisionId -> int, s: Store, listing: seq<RevisionId>) {
    forall i, j :: 0 <= i < j < |listing| ==> Before(IndexKey(rank, s, listing[j]), IndexKey(rank, s, listing[i]))
  }

  lemma {:induction false} OutsideKeepsOrder(rank: RevisionId -> int, s: Store, listing: seq<RevisionId>, excluded: set<RevisionId>)
    requires NewestFirst(rank, s, listing)
    ensures NewestFirst(rank, s, Outside(listing, excluded))
    decreases |listing|
  {
    if listing != [] {
      OutsideKeepsOrder(rank, s, listing[1..], excluded);
      var rest := Outside(listing[1..], excluded);
      forall j | 0 <= j < |rest| ensures Before(IndexKey(rank, s, rest[j]), IndexKey(rank, s, listing[0])) {
        assert rest[j] in listing[1..];
      }
    }
  }

  lemma SameTimesSameOrder(rank: RevisionId -> int, s: Store, s': Store, listing: seq<RevisionId>)
    requires NewestFirst(rank, s, listing) && forall id <- listing :: IndexKey(rank, s', id) == IndexKey(rank, s, id)
    ensures NewestFirst(rank, s', listing)
  {
    assert forall i :: 0 <= i < |listing| ==> listing[i] in listing;
  }

  /** `listing` is what a current index query returns. */
  ghost predicate Lists(s: Store, listing: seq<RevisionId>) {
    Distinct(listing) && forall id :: id in listing <==> IsRevision(s, id)
  }

  lemma ListsValid(s: Store, listing: seq<RevisionId>)
    requires Forest(s) && Lists(s, listing)
    ensures ValidListing(listing) && (s.active.Some? ==> s.active.value.revision in listing)
  {
    forall id | id in listing && id.parent.Some? ensures id.parent.value in listing {
      assert RecordInvariant(s, id);
    }
  }

  function RowOf(s: Store, id: RevisionId): IndexRow {
    if IsRevision(s, id) then IndexRow(id, s.items[id].parent, s.items[id].children) else IndexRow(id, None, 0)
  }

  function IndexRows(s: Store, listing: seq<RevisionId>): seq<IndexRow> {
    seq(|listing|, i requires 0 <= i < |listing| => RowOf(s, listing[i]))
  }

  function ListedChildren(s: Store, listing: seq<RevisionId>, p: RevisionId): set<RevisionId> {
    set c | c in listing && RowOf(s, c).parent == Some(p)
  }

  lemma {:induction false} CountIsCardinality(s: Store, listing: seq<RevisionId>, p: RevisionId)
    requires Distinct(listing)
    ensures CountChildren(IndexRows(s, listing), p) == |ListedChildren(s, listing, p)|
  {
    if listing != [] {
      var n := |listing| - 1;
      var last := listing[n];
      CountIsCardinality(s, listing[..n], p);
      assert IndexRows(s, listing)[..n] == IndexRows(s, listing[..n]);
      var before, after := ListedChildren(s, listing[..n], p), ListedChildren(s, listing, p);
      assert listing == listing[..n] + [last] && last !in listing[..n];
      if RowOf(s, last).parent == Some(p) {
        assert after == before + {last};
      } else {
        assert after == before;
      }
    }
  }

  /** In a reachable store the audit always passes. */
  lemma ForestCountsAgree(s: Store, listing: seq<RevisionId>)
    requires Forest(s) && Lists(s, listing)
    ensures CountsAgree(IndexRows(s, listing))
  {
    var rows := IndexRows(s, listing);
    forall row | row in rows
      ensures row.parent.Some? ==> Listed(rows, row.parent.value)
      ensures row.children == CountChildren(rows, row.id)
    {
      assert IsRevision(s, row.id) && RecordInvariant(s, row.id);
      if row.parent.Some? {
        assert row.parent.value in listing;
        var k :| 0 <= k < |listing| && listing[k] == row.parent.value;
        assert rows[k] in rows;
      }
      CountIsCardinality(s, listing, row.id);
      assert ChildrenOf(s.items, row.id) == ListedChildren(s, listing, row.id) by {
        assert forall c :: c in listing <==> IsRevision(s, c);
      }
    }
  }

  lemma DeleteKeepsTimes(s: Store, s': Store, id: RevisionId)
    requires DeleteRevisionItem(s, id, id.parent) == Some(s')
    ensures s'.draft == s.draft && s'.draftBodies == s.draftBodies
    ensures forall r :: IsRevision(s', r) ==> IsRevision(s, r) && s'.items[r].createdAt == s.items[r].createdAt
  {
  }

  /** Deleting a record takes it out of the listing. */
  lemma DeleteKeepsLists(s: Store, s': Store, listing: seq<RevisionId>, id: RevisionId)
    requires Forest(s) && Lists(s, listing) && DeleteRevisionItem(s, id, id.parent) == Some(s')
    ensures Forest(s') && Lists(s', Outside(listing, {id})) && id !in s'.items
    ensures s'.active == s.active && s'.revisionBodies == s.revisionBodies
  {
    DeleteKeepsForest(s, id);
    DeleteDropsRecord(s, s', id);
    OutsideDistinct(listing, {id});
  }

  class AwsConfigurationStore {
    const rank: RevisionId -> int
    var store: Store
    var listing: seq<RevisionId>

    constructor (rank: RevisionId -> int)
      ensures this.rank == rank && Valid() && store == Empty && listing == []
    {
      this.rank := rank;
      store, listing := Empty, [];
    }

    ghost predicate Valid()
      reads this
    {
      Forest(store) && Lists(store, listing) && NewestFirst(rank, store, listing)
    }

    function Active(): Option<RevisionId>
      reads this
    {
      if store.active.Some? then Some(store.active.value.revision) else None
    }

    /** Removes the body of a deleted revision under a marker that keeps it from being re-created meanwhile. */
    method CleanupOrphanedRevisionBody(id: RevisionId) returns (r: Result<bool, RetentionError>)
      requires Valid()
      modifies this`store
      ensures Valid()
      ensures r.Failure? <==> old(IsRevision(store, id))
      ensures r.Failure? ==> store == old(store) && r.error == IntegrityDisagrees
      ensures r.Success? ==> r.value && store == old(store).(
        items := old(store).items - {id}, revisionBodies := old(store).revisionBodies - {id})
    {
      if IsRevision(store, id) {
        return Failure(IntegrityDisagrees);
      }
      var held := id in store.items;
      if IsActive(store, id) {
        return Success(false);
      }
      ghost var before := store;
      if !held {
        var acquired := AcquireCleanupMarker(store, id);
        if acquired.None? {
          return Success(false);
        }
        store := acquired.value;
      }
      store := DeleteRevisionBody(store, id);
      var released := ReleaseCleanupMarker(store, id);
      store := released.value;
      assert store.items == before.items - {id};
      SameRecords(before, store);
      SameTimesSameOrder(rank, before, store, listing);
      r := Success(true);
    }

    method RetainRevisions(keepLatest: int, deleteLimit: int) returns (r: Result<seq<RevisionId>, RetentionError>)
      requires Valid()
      modifies this
      ensures Valid()
      ensures r.Failure? <==>
        keepLatest < 1 || !(1 <= deleteLimit <= MAX_RETENTION_DELETE_COUNT)
        || |old(listing)| > AWS_CONFIGURATION_STORE_MAX_QUERY_ITEMS
      ensures r.Failure? ==> r.error == LimitExceeded && store == old(store) && listing == old(listing)
      ensures r.Success? ==>
        && r.value == Candidates(old(listing), old(Active()), keepLatest, deleteLimit)
        && listing == Retained(old(listing), old(Active()), keepLatest, deleteLimit)
        && store.active == old(store).active
        && store.draft == old(store).draft && store.draftBodies == old(store).draftBodies
        && store.revisionBodies == old(store).revisionBodies - Elements(r.value)
    {
      if keepLatest < 1 || !(1 <= deleteLimit <= MAX_RETENTION_DELETE_COUNT) {
        return Failure(LimitExceeded);
      }
      if |listing| > AWS_CONFIGURATION_STORE_MAX_QUERY_ITEMS {
        return Failure(LimitExceeded);
      }
      ListsValid(store, listing);
      ForestCountsAgree(store, listing);
      var rows := IndexRows(store, listing);
      var referenced := ValidateChildReferenceCounts(rows);
      var excluded := referenced.value + (if Active().Some? then {Active().value} else {});
      var unprotected := Outside(Older(listing, keepLatest), excluded);
      var candidates := if deleteLimit <= |unprotected| then unprotected[..deleteLimit] else unprotected;
      AuditIsParents(store, listing, referenced.value);
      assert candidates == Candidates(listing, Active(), keepLatest, deleteLimit);
      CandidateFacts(listing, Active(), keepLatest, deleteLimit);
      DeleteCandidates(candidates);
      r := Success(candidates);
    }

    /** Deletes one record and then cleans up its body; neither step can conflict here. */
    method DeleteCandidate(id: RevisionId)
      requires Valid() && id in listing && Active() != Some(id) && forall x <- listing :: x.parent != Some(id)
      modifies this
      ensures Valid() && listing == Outside(old(listing), {id})
      ensures store.active == old(store).active
      ensures store.draft == old(store).draft && store.draftBodies == old(store).draftBodies
      ensures store.revisionBodies == old(store).revisionBodies - {id}
    {
      ChildlessIsDeletable(store, listing, id);
      var deleted := DeleteRevisionItem(store, id, id.parent);
      DeleteKeepsLists(store, deleted.value, listing, id);
      DeleteKeepsTimes(store, deleted.value, id);
      OutsideKeepsOrder(rank, store, listing, {id});
      SameTimesSameOrder(rank, store, deleted.value, Outside(listing, {id}));
      store := deleted.value;
      listing := Outside(listing, {id});
      var cleaned := CleanupOrphanedRevisionBody(id);
    }

    method DeleteCandidates(candidates: seq<RevisionId>)
      requires Valid() && Distinct(candidates)
      requires forall d <- candidates :: d in listing && Active() != Some(d) && forall x <- listing :: x.parent != Some(d)
      modifies this
      ensures Valid()
      ensures listing == Outside(old(listing), Elements(candidates))
      ensures store.active == old(store).active
      ensures store.draft == old(store).draft && store.draftBodies == old(store).draftBodies
      ensures store.revisionBodies == old(store).revisionBodies - Elements(candidates)
    {
      OutsideNothing(listing, Elements(candidates[..0]));
      for i := 0 to |candidates|
        invariant Valid()
        invariant listing == Outside(old(listing), Elements(candidates[..i]))
        invariant store.active == old(store).active
        invariant store.draft == old(store).draft && store.draftBodies == old(store).draftBodies
        invariant store.revisionBodies == old(store).revisionBodies - Elements(candidates[..i])
      {
        assert candidates[i] in listing;
        OutsideTwice(old(listing), Elements(candidates[..i]), {candidates[i]});
        ElementsNext(candidates, i);
        DeleteCandidate(candidates[i]);
        MinusMinus(old(store).revisionBodies, Elements(candidates[..i]), {candidates[i]});
      }
      assert candidates[..|candidates|] == candidates;
    }
  }

  lemma ElementsNext(rows: seq<RevisionId>, i: nat)
    requires i < |rows|
    ensures Elements(rows[..i + 1]) == Elements(rows[..i]) + {rows[i]}
  {
  }

  lemma MinusMinus<K, V>(m: map<K, V>, a: set<K>, b: set<K>)
    ensures m - a - b == m - (a + b)
  {
  }

  lemma ChildlessIsDeletable(s: Store, listing: seq<RevisionId>, id: RevisionId)
    requires Forest(s) && Lists(s, listing) && id in listing && !IsActive(s, id)
    requires forall x <- listing :: x.parent != Some(id)
    ensures DeleteRevisionItem(s, id, id.parent).Some?
  {
    assert RecordInvariant(s, id);
    if c :| c in ChildrenOf(s.items, id) {
      assert IsRevision(s, c);
    } else {
      assert ChildrenOf(s.items, id) == {};
    }
    ParentNeverBlocksDelete(s, id);
  }

  lemma AuditIsParents(s: Store, listing: seq<RevisionId>, referenced: set<RevisionId>)
    requires Forest(s) && Lists(s, listing)
    requires forall id :: id in referenced <==> exists row <- IndexRows(s, listing) :: row.parent == Some(id)
    ensures referenced == Parents(listing)
  {
    var rows := IndexRows(s, listing);
    forall i | 0 <= i < |listing| ensures rows[i] in rows && rows[i].parent == listing[i].parent {
      assert IsRevision(s, listing[i]) && RecordInvariant(s, listing[i]);
    }
    forall id ensures id in referenced <==> id in Parents(listing) {
      if id in Parents(listing) {
        var c :| c in listing && c.parent == Some(id);
        var i :| 0 <= i < |listing| && listing[i] == c;
        assert rows[i].parent == Some(id);
      }
    }
  }
}
