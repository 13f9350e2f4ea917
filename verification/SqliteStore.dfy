/**
  The single-host configuration store (configuration/sqlite.py), one scope.

  Every method is one call under the store's lock, so each is atomic.  The
  revisions table is kept in the order of its (created_at, revision_id) index,
  newest first; `rank` is the position of an identity's digest in text order.
 */
module SqliteStore {
  import opened Wrappers
  import opened Revisions
  import opened Pagination
  import opened Retention

  const MAX_RETENTION_SCAN_COUNT := 10_000
  const MAX_RETENTION_DELETE_COUNT := 100
  const MAX_REVISION_PAGE_SIZE := 100

  datatype Row = Row(key: Key, id: RevisionId)

  datatype StoreError = NotFound | Conflict | LimitExceeded

  function Ids(rows: seq<Row>): seq<RevisionId> {
    seq(|rows|, i requires 0 <= i < |rows| => rows[i].id)
  }

  function Keys(rows: seq<Row>): seq<Key> {
    seq(|rows|, i requires 0 <= i < |rows| => rows[i].key)
  }

  /** DELETE ... WHERE revision_id = `id`. */
  function DeleteRow(rows: seq<Row>, id: RevisionId): (kept: seq<Row>)
    ensures |kept| <= |rows| && forall r <- kept :: r in rows
  {
    if rows == [] then []
    else (if rows[0].id == id then [] else [rows[0]]) + DeleteRow(rows[1..], id)
  }

  lemma {:induction false} DeleteRowIds(rows: seq<Row>, id: RevisionId)
    ensures Ids(DeleteRow(rows, id)) == Outside(Ids(rows), {id})
  {
    if rows != [] {
      DeleteRowIds(rows[1..], id);
      assert Ids(rows)[1..] == Ids(rows[1..]);
    }
  }

  ghost predicate Ordered(rows: seq<Row>) {
    forall i, j :: 0 <= i < j < |rows| ==> Before(rows[j].key, rows[i].key)
  }

  lemma OrderedIsDescending(rows: seq<Row>)
    requires Ordered(rows)
    ensures Descending(Keys(rows))
  {
  }

  lemma {:induction false} DeleteRowOrder(rows: seq<Row>, id: RevisionId)
    requires Ordered(rows)
    ensures Ordered(DeleteRow(rows, id))
  {
    if rows != [] {
      DeleteRowOrder(rows[1..], id);
      var rest := DeleteRow(rows[1..], id);
      forall j | 0 <= j < |rest| ensures Before(rest[j].key, rows[0].key) {
        assert rest[j] in rows[1..];
      }
    }
  }

  lemma InsertRowOrder(rows: seq<Row>, at: nat, row: Row)
    requires Ordered(rows) && at <= |rows|
    requires forall i :: 0 <= i < at ==> Before(row.key, rows[i].key)
    requires forall i :: at <= i < |rows| ==> Before(rows[i].key, row.key)
    ensures Ordered(rows[..at] + [row] + rows[at..])
  {
  }

  /** The index order, the primary key and the parent foreign key. */
  ghost predicate ValidRows(rank: RevisionId -> int, rows: seq<Row>) {
    Ordered(rows) && (forall r <- rows :: r.key.1 == rank(r.id)) && ValidListing(Ids(rows))
  }

  lemma DeletionKeepsRows(rank: RevisionId -> int, rows: seq<Row>, id: RevisionId)
    requires ValidRows(rank, rows) && forall r <- Ids(rows) :: r.parent != Some(id)
    ensures ValidRows(rank, DeleteRow(rows, id)) && Ids(DeleteRow(rows, id)) == Outside(Ids(rows), {id})
  {
    DeleteRowIds(rows, id);
    DeleteRowOrder(rows, id);
    OutsideDistinct(Ids(rows), {id});
  }

  class SqliteConfigurationStore {
    const rank: RevisionId -> int
    var draft: Option<Draft>
    var rows: seq<Row>
    var active: Option<Pointer>

    constructor (rank: RevisionId -> int)
      requires forall a, b :: rank(a) == rank(b) ==> a == b
      ensures this.rank == rank && Valid() && draft == None && rows == [] && active == None
    {
      this.rank := rank;
      draft, rows, active := None, [], None;
    }

    /** The index order, the primary key, and both foreign keys of the schema. */
    ghost predicate Valid()
      reads this
    {
      && (forall a, b :: rank(a) == rank(b) ==> a == b)
      && ValidRows(rank, rows)
      && (active.Some? ==> active.value.revision in Ids(rows))
    }

    /** The draft changes exactly when the caller names its current version, and then by one version. */
    method CompareAndSwapDraft(document: Document, expected: Option<int>) returns (r: Result<Draft, StoreError>)
      modifies this`draft
      ensures
        var current := if old(draft).Some? then Some(old(draft).value.version) else None;
        if current == expected then
          draft == Some(Draft(if expected.Some? then expected.value + 1 else 1, document)) && r == Success(draft.value)
        else
          draft == old(draft) && r == Failure(Conflict)
    {
      var current := if draft.Some? then Some(draft.value.version) else None;
      if current != expected {
        return Failure(Conflict);
      }
      var version := if current.None? then 1 else current.value + 1;
      draft := Some(Draft(version, document));
      r := Success(Draft(version, document));
    }

    method FindRow(id: RevisionId) returns (index: nat)
      ensures index <= |rows|
      ensures index < |rows| ==> rows[index].id == id
      ensures index == |rows| ==> id !in Ids(rows)
    {
      index := 0;
      while index < |rows| && rows[index].id != id
        invariant index <= |rows|
        invariant forall i :: 0 <= i < index ==> rows[i].id != id
      {
        index := index + 1;
      }
    }

    /** Creating a revision is idempotent: an existing one keeps its row and creation time. */
    method CreateRevision(id: RevisionId, createdAt: int) returns (r: Result<Row, StoreError>)
      requires Valid()
      modifies this`rows
      ensures Valid()
      ensures r.Failure? <==> id.parent.Some? && id.parent.value !in old(Ids(rows))
      ensures r.Failure? ==> r.error == NotFound && rows == old(rows)
      ensures r.Success? ==> r.value.id == id && r.value in rows
      ensures r.Success? && id in old(Ids(rows)) ==> rows == old(rows)
      ensures r.Success? && id !in old(Ids(rows)) ==>
        && r.value.key == (createdAt, rank(id))
        && exists at :: 0 <= at <= |old(rows)| && rows == old(rows)[..at] + [r.value] + old(rows)[at..]
    {
      if id.parent.Some? {
        var parentRow := FindRow(id.parent.value);
        if parentRow == |rows| {
          return Failure(NotFound);
        }
        assert Ids(rows)[parentRow] == id.parent.value;
      }
      var existing := FindRow(id);
      if existing < |rows| {
        assert Ids(rows)[existing] == id;
        return Success(rows[existing]);
      }
      var row := Row((createdAt, rank(id)), id);
      var at := 0;
      while at < |rows| && Before(row.key, rows[at].key)
        invariant at <= |rows|
        invariant forall i :: 0 <= i < at ==> Before(row.key, rows[i].key)
      {
        at := at + 1;
      }
      InsertKeepsValid(rank, rows, at, row);
      rows := rows[..at] + [row] + rows[at..];
      r := Success(row);
    }

    method CompareAndSwapActive(id: RevisionId, expectedRevision: Option<RevisionId>, expectedVersion: Option<int>)
      returns (r: Result<Pointer, StoreError>)
      requires Valid()
      modifies this`active
      ensures Valid()
      ensures
        var current := if old(active).Some? then Some(old(active).value.revision) else None;
        var version := if old(active).Some? then Some(old(active).value.version) else None;
        if id !in Ids(rows) then
          active == old(active) && r == Failure(NotFound)
        else if current != expectedRevision || (expectedVersion.Some? && version != expectedVersion) then
          active == old(active) && r == Failure(Conflict)
        else
          active == Some(Pointer(id, if version.Some? then version.value + 1 else 1)) && r == Success(active.value)
    {
      var index := FindRow(id);
      if index == |rows| {
        return Failure(NotFound);
      }
      assert Ids(rows)[index] == id;
      var current := if active.Some? then Some(active.value.revision) else None;
      var currentVersion := if active.Some? then Some(active.value.version) else None;
      if current != expectedRevision || (expectedVersion.Some? && currentVersion != expectedVersion) {
        return Failure(Conflict);
      }
      active := Some(Pointer(id, if currentVersion.None? then 1 else currentVersion.value + 1));
      r := Success(active.value);
    }

    /** Where the rows that a cursor admits begin. */
    method FirstAdmitted(cursor: Option<Key>) returns (from: nat)
      ensures from == Skip(Keys(rows), cursor)
    {
      from := 0;
      while from < |rows| && !Admits(cursor, rows[from].key)
        invariant from <= |rows|
        invariant forall i :: 0 <= i < from ==> !Admits(cursor, rows[i].key)
      {
        from := from + 1;
      }
      SkipIs(Keys(rows), cursor, from);
    }

    /** One query for a page of the listing, and the cursor of the next one. */
    method ListRevisions(limit: int, cursor: Option<Key>) returns (r: Result<(seq<Row>, Option<Key>), StoreError>)
      ensures r.Success? <==> 1 <= limit <= MAX_REVISION_PAGE_SIZE
      ensures r.Failure? ==> r.error == LimitExceeded
      ensures r.Success? ==>
        var p := PageOf(Keys(rows), cursor, limit);
        r.value == (rows[p.from..p.to], p.next)
    {
      if !(1 <= limit <= MAX_REVISION_PAGE_SIZE) {
        return Failure(LimitExceeded);
      }
      var from := FirstAdmitted(cursor);
      var fetched := if from + limit + 1 <= |rows| then rows[from..from + limit + 1] else rows[from..];
      var page := if limit <= |fetched| then fetched[..limit] else fetched;
      assert page == rows[from..PageOf(Keys(rows), cursor, limit).to];
      var next := if |fetched| > limit && page != [] then Some(page[|page| - 1].key) else None;
      r := Success((page, next));
    }

    /** One retention call deletes exactly the candidates, oldest constraints intact after every row. */
    method RetainRevisions(keepLatest: int, deleteLimit: int) returns (r: Result<seq<RevisionId>, StoreError>)
      requires Valid()
      modifies this`rows
      ensures Valid()
      ensures r.Failure? <==>
        keepLatest < 1 || !(1 <= deleteLimit <= MAX_RETENTION_DELETE_COUNT) || |old(rows)| > MAX_RETENTION_SCAN_COUNT
      ensures r.Failure? ==> r.error == LimitExceeded && rows == old(rows)
      ensures r.Success? ==>
        var current := if active.Some? then Some(active.value.revision) else None;
        && r.value == Candidates(old(Ids(rows)), current, keepLatest, deleteLimit)
        && Ids(rows) == Retained(old(Ids(rows)), current, keepLatest, deleteLimit)
        && forall row <- rows :: row in old(rows)
    {
      if keepLatest < 1 || !(1 <= deleteLimit <= MAX_RETENTION_DELETE_COUNT) {
        return Failure(LimitExceeded);
      }
      if |rows| > MAX_RETENTION_SCAN_COUNT {
        return Failure(LimitExceeded);
      }
      var current := if active.Some? then Some(active.value.revision) else None;
      var candidates := Candidates(Ids(rows), current, keepLatest, deleteLimit);
      CandidateFacts(Ids(rows), current, keepLatest, deleteLimit);
      DeleteRevisions(candidates);
      r := Success(candidates);
    }

    /** Deletes rows one by one; no deletion ever meets a row that still refers to it. */
    method DeleteRevisions(candidates: seq<RevisionId>)
      requires Valid()
      requires forall d <- candidates :: forall r <- Ids(rows) :: r.parent != Some(d)
      requires active.Some? ==> active.value.revision !in candidates
      modifies this`rows
      ensures Valid() && Ids(rows) == Outside(old(Ids(rows)), Elements(candidates))
      ensures forall row <- rows :: row in old(rows)
    {
      ghost var ids := Ids(rows);
      OutsideNothing(ids, Elements(candidates[..0]));
      for i := 0 to |candidates|
        invariant Valid()
        invariant Ids(rows) == Outside(ids, Elements(candidates[..i]))
        invariant forall row <- rows :: row in old(rows)
      {
        DeletionKeepsRows(rank, rows, candidates[i]);
        OutsideTwice(ids, Elements(candidates[..i]), {candidates[i]});
        assert Elements(candidates[..i + 1]) == Elements(candidates[..i]) + {candidates[i]};
        rows := DeleteRow(rows, candidates[i]);
      }
      assert candidates[..|candidates|] == candidates;
    }
  }

  lemma InsertKeepsValid(rank: RevisionId -> int, rows: seq<Row>, at: nat, row: Row)
    requires forall a, b :: rank(a) == rank(b) ==> a == b
    requires ValidRows(rank, rows)
    requires row.key.1 == rank(row.id) && row.id !in Ids(rows)
    requires row.id.parent.Some? ==> row.id.parent.value in Ids(rows)
    requires at <= |rows| && forall i :: 0 <= i < at ==> Before(row.key, rows[i].key)
    requires at < |rows| ==> !Before(row.key, rows[at].key)
    ensures
      var inserted := rows[..at] + [row] + rows[at..];
      ValidRows(rank, inserted) && forall id :: id in Ids(inserted) <==> id == row.id || id in Ids(rows)
  {
    if at < |rows| {
      assert Ids(rows)[at] != row.id && rows[at] in rows;
      assert Before(rows[at].key, row.key);
    }
    InsertRowOrder(rows, at, row);
    var ids := Ids(rows);
    var inserted := rows[..at] + [row] + rows[at..];
    assert Ids(inserted) == ids[..at] + [row.id] + ids[at..];
    InsertedListing(ids, at, row.id);
  }

  lemma InsertedListing(ids: seq<RevisionId>, at: nat, id: RevisionId)
    requires ValidListing(ids) && at <= |ids| && id !in ids
    requires id.parent.Some? ==> id.parent.value in ids
    ensures ValidListing(ids[..at] + [id] + ids[at..])
    ensures forall x :: x in ids[..at] + [id] + ids[at..] <==> x == id || x in ids
  {
    var inserted := ids[..at] + [id] + ids[at..];
    assert ids == ids[..at] + ids[at..];
    forall i, j | 0 <= i < j < |inserted| ensures inserted[i] != inserted[j] {
      assert i < at ==> inserted[i] == ids[i];
      assert j < at ==> inserted[j] == ids[j];
      assert i > at ==> inserted[i] == ids[i - 1];
      assert j > at ==> inserted[j] == ids[j - 1];
    }
  }

  lemma SkipIs(keys: seq<Key>, cursor: Option<Key>, n: nat)
    requires n <= |keys| && (forall i :: 0 <= i < n ==> !Admits(cursor, keys[i]))
    requires n < |keys| ==> Admits(cursor, keys[n])
    ensures Skip(keys, cursor) == n
  {
    var k := Skip(keys, cursor);
    assert k < |keys| ==> k >= n;
    assert n < |keys| ==> k <= n;
  }

  // ---------------------------------------------------------------- following the pages of the store

  function KeyTables(tables: seq<seq<Row>>): seq<seq<Key>> {
    seq(|tables|, i requires 0 <= i < |tables| => Keys(tables[i]))
  }

  /**
    Following the pages of a store that is valid at every request, whatever is
    created or retired in between: keys come in strictly descending order, each
    is the key of a listed row, and a row listed throughout is among them once
    the reader has finished.
   */
  lemma StorePagesAreExact(rank: RevisionId -> int, tables: seq<seq<Row>>, limit: nat, row: Row)
    requires limit >= 1 && forall i :: 0 <= i < |tables| ==> ValidRows(rank, tables[i])
    ensures
      var (keys, finished) := Follow(KeyTables(tables), None, limit);
      && Descending(keys)
      && (row.key in keys ==> exists i, r :: 0 <= i < |tables| && r in tables[i] && r.key == row.key)
      && (finished && (forall i :: 0 <= i < |tables| ==> row in tables[i]) ==> row.key in keys)
  {
    var keyTables := KeyTables(tables);
    forall i | 0 <= i < |tables| ensures Descending(keyTables[i]) && (row in tables[i] ==> row.key in keyTables[i]) {
      OrderedIsDescending(tables[i]);
      RowKeys(tables[i], row);
    }
    ConcurrentPagingIsExact(keyTables, None, limit, row.key);
    var (keys, finished) := Follow(keyTables, None, limit);
    if row.key in keys {
      var table :| table in keyTables && row.key in table;
      var i :| 0 <= i < |keyTables| && keyTables[i] == table;
      var k :| 0 <= k < |Keys(tables[i])| && Keys(tables[i])[k] == row.key;
      assert tables[i][k] in tables[i];
    }
  }

  lemma RowKeys(rows: seq<Row>, row: Row)
    ensures row in rows ==> row.key in Keys(rows)
  {
    if row in rows {
      var k :| 0 <= k < |rows| && rows[k] == row;
      assert Keys(rows)[k] == row.key;
    }
  }

  /** On a store that does not change, the pages together are its whole listing. */
  lemma StorePagesAreTheListing(rank: RevisionId -> int, rows: seq<Row>, tables: seq<seq<Row>>, limit: nat)
    requires ValidRows(rank, rows) && limit >= 1 && |tables| > |rows|
    requires forall i :: 0 <= i < |tables| ==> tables[i] == rows
    ensures Follow(KeyTables(tables), None, limit) == (Keys(rows), true)
  {
    OrderedIsDescending(rows);
    PagingRefinesFullListing(Keys(rows), KeyTables(tables), None, limit);
    assert Keys(rows)[Skip(Keys(rows), None)..] == Keys(rows);
  }
}
