/**
  Keyset pagination of a table in descending (created_at, id) order
  (configuration/sqlite.py and configuration/activation_sqlite.py).

  A key is a creation time and the rank of an id in text order.  A table is its
  keys in index order, so that a page is a contiguous stretch of it.
 */
module Pagination {
  import opened Wrappers

  type Key = (int, int)

  predicate Before(a: Key, b: Key) {
    a.0 < b.0 || (a.0 == b.0 && a.1 < b.1)
  }

  ghost predicate Descending(keys: seq<Key>) {
    forall i, j :: 0 <= i < j < |keys| ==> Before(keys[j], keys[i])
  }

  /** The rows that a cursor admits: those strictly after it in listing order. */
  predicate Admits(cursor: Option<Key>, key: Key) {
    cursor.None? || Before(key, cursor.value)
  }

  function Skip(table: seq<Key>, cursor: Option<Key>): (n: nat)
    ensures n <= |table|
    ensures forall i :: 0 <= i < n ==> !Admits(cursor, table[i])
    ensures n < |table| ==> Admits(cursor, table[n])
  {
    if table == [] || Admits(cursor, table[0]) then 0 else 1 + Skip(table[1..], cursor)
  }

  datatype Page = Page(from: nat, to: nat, next: Option<Key>)

  /** One query with LIMIT `limit` + 1, of which the extra row only says that there is more. */
  function PageOf(table: seq<Key>, cursor: Option<Key>, limit: nat): (p: Page)
    ensures p.from <= p.to <= |table| && p.to - p.from <= limit
  {
    var from := Skip(table, cursor);
    var to := if from + limit < |table| then from + limit else |table|;
    Page(from, to, if to < |table| && from < to then Some(table[to - 1]) else None)
  }

  /** A reader that follows cursors; the i-th page is read from the i-th table. */
  function Follow(tables: seq<seq<Key>>, cursor: Option<Key>, limit: nat): (seq<Key>, bool)
    decreases |tables|
  {
    if tables == [] then
      ([], false)
    else
      var p := PageOf(tables[0], cursor, limit);
      var page := tables[0][p.from..p.to];
      if p.next.None? then
        (page, true)
      else
        var (rest, finished) := Follow(tables[1..], p.next, limit);
        (page + rest, finished)
  }

  lemma PageFacts(table: seq<Key>, cursor: Option<Key>, limit: nat, key: Key)
    requires Descending(table) && limit >= 1
    ensures
      var p := PageOf(table, cursor, limit);
      var page := table[p.from..p.to];
      && Descending(page)
      && (key in page ==> key in table && Admits(cursor, key) && (p.next.Some? ==> !Admits(p.next, key)))
      && (key in table && Admits(cursor, key) ==> key in page || (p.next.Some? && Admits(p.next, key)))
      && (p.next.Some? && Admits(p.next, key) ==> Admits(cursor, key) && forall k <- page :: Before(key, k))
  {
    var p := PageOf(table, cursor, limit);
    if key in table {
      var i :| 0 <= i < |table| && table[i] == key;
      if i < p.from {
        assert !Admits(cursor, key);
      } else if i < p.to {
        assert table[p.from..p.to][i - p.from] == key;
        assert Admits(cursor, table[p.from]);
      }
    }
    if p.next.Some? {
      assert p.next.value == table[p.to - 1] && Admits(cursor, table[p.from]);
    }
  }

  lemma DescendingJoin(page: seq<Key>, rest: seq<Key>)
    requires Descending(page) && Descending(rest) && forall later <- rest :: forall k <- page :: Before(later, k)
    ensures Descending(page + rest)
  {
    forall i, j | 0 <= i < j < |page + rest| ensures Before((page + rest)[j], (page + rest)[i]) {
      if i < |page| <= j {
        assert page[i] in page && rest[j - |page|] in rest;
      }
    }
  }

  /**
    Reading while rows come and go: no row is returned twice, the order is kept,
    and a row present in every table is returned once the reader has finished.
   */
  lemma {:induction false} ConcurrentPagingIsExact(tables: seq<seq<Key>>, cursor: Option<Key>, limit: nat, key: Key)
    requires limit >= 1 && forall t <- tables :: Descending(t)
    ensures
      var (keys, finished) := Follow(tables, cursor, limit);
      && Descending(keys)
      && (key in keys ==> Admits(cursor, key) && exists t <- tables :: key in t)
      && (finished && Admits(cursor, key) && (forall t <- tables :: key in t) ==> key in keys)
    decreases |tables|
  {
    if tables != [] {
      var p := PageOf(tables[0], cursor, limit);
      var page := tables[0][p.from..p.to];
      PageFacts(tables[0], cursor, limit, key);
      if p.next.Some? {
        var (rest, finished) := Follow(tables[1..], p.next, limit);
        ConcurrentPagingIsExact(tables[1..], p.next, limit, key);
        forall later | later in rest ensures forall k <- page :: Before(later, k) {
          PageFacts(tables[0], cursor, limit, later);
          ConcurrentPagingIsExact(tables[1..], p.next, limit, later);
        }
        DescendingJoin(page, rest);
        assert forall t <- tables[1..] :: t in tables;
      }
    }
  }

  lemma {:induction false} SkipAfter(table: seq<Key>, n: nat)
    requires Descending(table) && 0 < n <= |table|
    ensures Skip(table, Some(table[n - 1])) == n
  {
    var cursor := Some(table[n - 1]);
    forall i | 0 <= i < |table| ensures Admits(cursor, table[i]) <==> i >= n {
      if i > n - 1 {
        assert Before(table[i], table[n - 1]);
      } else if i < n - 1 {
        assert Before(table[n - 1], table[i]);
      }
    }
    var k := Skip(table, cursor);
    assert k < |table| ==> k >= n;
    assert n < |table| ==> Admits(cursor, table[n]);
  }

  lemma SlicesJoin(table: seq<Key>, from: nat, to: nat)
    requires from <= to <= |table|
    ensures table[from..to] + table[to..] == table[from..]
  {
  }

  /** On an unchanging table, following cursors is reading the whole table. */
  lemma {:induction false} PagingRefinesFullListing(table: seq<Key>, tables: seq<seq<Key>>, cursor: Option<Key>, limit: nat)
    requires Descending(table) && limit >= 1 && forall i :: 0 <= i < |tables| ==> tables[i] == table
    requires |tables| > |table| - Skip(table, cursor)
    ensures Follow(tables, cursor, limit) == (table[Skip(table, cursor)..], true)
    decreases |tables|
  {
    assert tables[0] == table;
    var p := PageOf(table, cursor, limit);
    if p.next.None? {
      assert p.to == |table| && table[p.from..p.to] == table[p.from..];
    } else {
      SkipAfter(table, p.to);
      PagingRefinesFullListing(table, tables[1..], p.next, limit);
      assert Follow(tables[1..], p.next, limit) == (table[p.to..], true);
      SlicesJoin(table, p.from, p.to);
    }
  }
}
