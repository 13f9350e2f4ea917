/**
  Retention of revisions as a garbage collector: what one call selects, and what
  repeated calls leave (configuration/sqlite.py and configuration/aws.py).

  `rows` is the listing of the stored revisions, newest first.  A revision's
  parent is part of its identity.
 */
module Retention {
  import opened Wrappers
  import opened Revisions

  ghost predicate Distinct(rows: seq<RevisionId>) {
    forall i, j :: 0 <= i < j < |rows| ==> rows[i] != rows[j]
  }

  /** Distinct revisions whose parents are listed too. */
  ghost predicate ValidListing(rows: seq<RevisionId>) {
    && Distinct(rows)
    && (forall r <- rows :: r.parent.Some? ==> r.parent.value in rows)
  }

  function Parents(rows: seq<RevisionId>): set<RevisionId> {
    set r | r in rows && r.parent.Some? :: r.parent.value
  }

  function Protected(rows: seq<RevisionId>, active: Option<RevisionId>): set<RevisionId> {
    Parents(rows) + (if active.Some? then {active.value} else {})
  }

  /** The rows outside `excluded`, in order. */
  function Outside(rows: seq<RevisionId>, excluded: set<RevisionId>): (kept: seq<RevisionId>)
    ensures forall r :: r in kept <==> r in rows && r !in excluded
    ensures |kept| <= |rows|
  {
    if rows == [] then []
    else (if rows[0] in excluded then [] else [rows[0]]) + Outside(rows[1..], excluded)
  }

  function Newest(rows: seq<RevisionId>, keepLatest: nat): seq<RevisionId> {
    if keepLatest <= |rows| then rows[..keepLatest] else rows
  }

  function Older(rows: seq<RevisionId>, keepLatest: nat): seq<RevisionId> {
    if keepLatest <= |rows| then rows[keepLatest..] else []
  }

  /** What one call deletes: the first unprotected rows after the newest ones. */
  function Candidates(rows: seq<RevisionId>, active: Option<RevisionId>, keepLatest: nat, deleteLimit: nat): seq<RevisionId> {
    var unprotected := Outside(Older(rows, keepLatest), Protected(rows, active));
    if deleteLimit <= |unprotected| then unprotected[..deleteLimit] else unprotected
  }

  function Elements(rows: seq<RevisionId>): set<RevisionId> {
    set r | r in rows
  }

  function Retained(rows: seq<RevisionId>, active: Option<RevisionId>, keepLatest: nat, deleteLimit: nat): seq<RevisionId> {
    Outside(rows, Elements(Candidates(rows, active, keepLatest, deleteLimit)))
  }

  /** The revisions that retention must never lose, and the ones it is meant to leave. */
  ghost predicate Live(rows: seq<RevisionId>, active: Option<RevisionId>, keepLatest: nat, r: RevisionId) {
    exists root :: (active == Some(root) || root in Newest(rows, keepLatest)) && AncestorOrSelf(r, root)
  }

  // ---------------------------------------------------------------- listings under deletion

  lemma {:induction false} OutsideLength(rows: seq<RevisionId>, excluded: set<RevisionId>)
    requires Distinct(rows)
    requires forall x <- excluded :: x in rows
    ensures |Outside(rows, excluded)| == |rows| - |excluded|
  {
    if rows == [] {
      assert excluded == {};
    } else {
      var rest := excluded - {rows[0]};
      forall x | x in rest ensures x in rows[1..] {}
      OutsideLength(rows[1..], rest);
      OutsideSame(rows[1..], excluded, rest);
    }
  }

  lemma {:induction false} OutsideSame(rows: seq<RevisionId>, a: set<RevisionId>, b: set<RevisionId>)
    requires forall r <- rows :: r in a <==> r in b
    ensures Outside(rows, a) == Outside(rows, b)
  {
    if rows != [] {
      OutsideSame(rows[1..], a, b);
    }
  }

  lemma {:induction false} OutsideAppend(a: seq<RevisionId>, b: seq<RevisionId>, excluded: set<RevisionId>)
    ensures Outside(a + b, excluded) == Outside(a, excluded) + Outside(b, excluded)
  {
    if a == [] {
      assert a + b == b;
    } else {
      assert (a + b)[1..] == a[1..] + b;
      OutsideAppend(a[1..], b, excluded);
    }
  }

  lemma {:induction false} OutsideTwice(rows: seq<RevisionId>, a: set<RevisionId>, b: set<RevisionId>)
    ensures Outside(Outside(rows, a), b) == Outside(rows, a + b)
  {
    if rows != [] {
      OutsideTwice(rows[1..], a, b);
      OutsideAppend(if rows[0] in a then [] else [rows[0]], Outside(rows[1..], a), b);
    }
  }

  lemma {:induction false} OutsideNothing(rows: seq<RevisionId>, excluded: set<RevisionId>)
    requires forall r <- rows :: r !in excluded
    ensures Outside(rows, excluded) == rows
  {
    if rows != [] {
      OutsideNothing(rows[1..], excluded);
    }
  }

  lemma {:induction false} OutsideDistinct(rows: seq<RevisionId>, excluded: set<RevisionId>)
    requires Distinct(rows)
    ensures Distinct(Outside(rows, excluded))
  {
    if rows != [] {
      OutsideDistinct(rows[1..], excluded);
      var rest := Outside(rows[1..], excluded);
      forall j | 0 <= j < |rest| ensures rest[j] != rows[0] {
        assert rest[j] in rest;
        assert rows[0] !in rows[1..];
      }
    }
  }

  lemma SplitListing(rows: seq<RevisionId>, keepLatest: nat)
    ensures rows == Newest(rows, keepLatest) + Older(rows, keepLatest)
  {
  }

  lemma OlderFacts(rows: seq<RevisionId>, keepLatest: nat)
    requires Distinct(rows)
    ensures Distinct(Older(rows, keepLatest))
    ensures forall d <- Older(rows, keepLatest) :: d in rows && d !in Newest(rows, keepLatest)
  {
    if keepLatest <= |rows| {
      forall i, j | 0 <= i < j < |rows| - keepLatest ensures rows[keepLatest..][i] != rows[keepLatest..][j] {}
    }
  }

  /** A candidate is an older row that is neither active nor anyone's parent. */
  lemma CandidateFacts(rows: seq<RevisionId>, active: Option<RevisionId>, keepLatest: nat, deleteLimit: nat)
    requires ValidListing(rows)
    ensures
      var doomed := Candidates(rows, active, keepLatest, deleteLimit);
      && |doomed| <= deleteLimit
      && Distinct(doomed)
      && forall d <- doomed ::
           && d in rows && d !in Newest(rows, keepLatest)
           && active != Some(d) && forall r <- rows :: r.parent != Some(d)
  {
    OlderFacts(rows, keepLatest);
    OutsideDistinct(Older(rows, keepLatest), Protected(rows, active));
    var unprotected := Outside(Older(rows, keepLatest), Protected(rows, active));
    forall d | d in unprotected
      ensures d in rows && d !in Newest(rows, keepLatest)
      ensures active != Some(d) && forall r <- rows :: r.parent != Some(d)
    {
      assert d !in Parents(rows);
    }
  }

  // ---------------------------------------------------------------- one call

  /**
    One call never removes a live revision, keeps the newest rows in front, leaves
    every parent link intact, and deletes at most `deleteLimit` rows.
   */
  lemma RetentionIsSafe(rows: seq<RevisionId>, active: Option<RevisionId>, keepLatest: nat, deleteLimit: nat)
    requires ValidListing(rows) && (active.Some? ==> active.value in rows)
    ensures
      var kept := Retained(rows, active, keepLatest, deleteLimit);
      && ValidListing(kept) && (active.Some? ==> active.value in kept)
      && Newest(kept, keepLatest) == Newest(rows, keepLatest)
      && (forall r <- rows :: Live(rows, active, keepLatest, r) ==> r in kept)
      && |rows| - |kept| == |Candidates(rows, active, keepLatest, deleteLimit)| <= deleteLimit
  {
    var doomed := Candidates(rows, active, keepLatest, deleteLimit);
    var gone := Elements(doomed);
    CandidateFacts(rows, active, keepLatest, deleteLimit);
    OutsideDistinct(rows, gone);
    SplitListing(rows, keepLatest);
    OutsideAppend(Newest(rows, keepLatest), Older(rows, keepLatest), gone);
    OutsideNothing(Newest(rows, keepLatest), gone);
    OutsideLength(rows, gone);
    DistinctCount(doomed);
    forall r | r in rows && Live(rows, active, keepLatest, r) ensures r in Retained(rows, active, keepLatest, deleteLimit) {
      var root :| (active == Some(root) || root in Newest(rows, keepLatest)) && AncestorOrSelf(r, root);
      assert root in rows;
      if r in doomed {
        DoomedHasNoDescendant(rows, r, root);
        assert false;
      }
    }
  }

  lemma {:induction false} DistinctCount(s: seq<RevisionId>)
    requires Distinct(s)
    ensures |Elements(s)| == |s|
  {
    if s != [] {
      DistinctCount(s[1..]);
      assert Elements(s) == {s[0]} + Elements(s[1..]);
    }
  }

  /** A listed revision that is nobody's parent has no listed proper descendant. */
  lemma {:induction false} DoomedHasNoDescendant(rows: seq<RevisionId>, d: RevisionId, root: RevisionId)
    requires ValidListing(rows) && root in rows && AncestorOrSelf(d, root)
    requires forall r <- rows :: r.parent != Some(d)
    ensures d == root
  {
    if d != root {
      DoomedHasNoDescendant(rows, d, root.parent.value);
    }
  }

  // ---------------------------------------------------------------- repeated calls

  /** Calling retention again and again, with no other writer, until it deletes nothing. */
  function Collected(rows: seq<RevisionId>, active: Option<RevisionId>, keepLatest: nat, deleteLimit: nat): seq<RevisionId>
    decreases |rows|
  {
    var kept := Retained(rows, active, keepLatest, deleteLimit);
    if |kept| < |rows| then Collected(kept, active, keepLatest, deleteLimit) else rows
  }

  function MaxDepth(rows: seq<RevisionId>): (m: nat)
    ensures forall r <- rows :: Depth(r) <= m
  {
    if rows == [] then 0
    else var rest := MaxDepth(rows[1..]); if Depth(rows[0]) > rest then Depth(rows[0]) else rest
  }

  /** Where nothing can be deleted, following children from any row reaches a root. */
  lemma {:induction false} FixpointRowIsLive(rows: seq<RevisionId>, active: Option<RevisionId>, keepLatest: nat, r: RevisionId)
    requires ValidListing(rows) && r in rows
    requires forall x <- Older(rows, keepLatest) :: x in Protected(rows, active)
    ensures Live(rows, active, keepLatest, r)
    decreases MaxDepth(rows) - Depth(r)
  {
    SplitListing(rows, keepLatest);
    if r in Newest(rows, keepLatest) || active == Some(r) {
      assert AncestorOrSelf(r, r);
    } else {
      assert r in Older(rows, keepLatest);
      var child :| child in rows && child.parent == Some(r);
      FixpointRowIsLive(rows, active, keepLatest, child);
      var root :| (active == Some(root) || root in Newest(rows, keepLatest)) && AncestorOrSelf(child, root);
      assert AncestorOrSelf(r, child);
      AncestorTransitive(r, child, root);
    }
  }

  ghost function Dead(rows: seq<RevisionId>, active: Option<RevisionId>, keepLatest: nat): set<RevisionId> {
    set r | r in rows && !Live(rows, active, keepLatest, r)
  }

  lemma FixpointIsLive(rows: seq<RevisionId>, active: Option<RevisionId>, keepLatest: nat, deleteLimit: nat)
    requires ValidListing(rows) && deleteLimit >= 1
    requires Candidates(rows, active, keepLatest, deleteLimit) == []
    ensures Outside(rows, Dead(rows, active, keepLatest)) == rows
  {
    forall r | r in rows ensures Live(rows, active, keepLatest, r) {
      forall x | x in Older(rows, keepLatest) ensures x in Protected(rows, active) {
        assert x in Outside(Older(rows, keepLatest), Protected(rows, active)) <==> x !in Protected(rows, active);
      }
      FixpointRowIsLive(rows, active, keepLatest, r);
    }
    OutsideNothing(rows, Dead(rows, active, keepLatest));
  }

  /**
    Retention is an exact garbage collector: repeated calls strictly shrink the
    listing until it is, in the same order, exactly the ancestors-or-self of the
    active revision and of the newest `keepLatest` revisions.
   */
  lemma {:induction false} RetentionCollectsExactly(
    rows: seq<RevisionId>, active: Option<RevisionId>, keepLatest: nat, deleteLimit: nat)
    requires ValidListing(rows) && (active.Some? ==> active.value in rows) && deleteLimit >= 1
    ensures Collected(rows, active, keepLatest, deleteLimit) == Outside(rows, Dead(rows, active, keepLatest))
    decreases |rows|
  {
    var kept := Retained(rows, active, keepLatest, deleteLimit);
    var doomed := Candidates(rows, active, keepLatest, deleteLimit);
    RetentionIsSafe(rows, active, keepLatest, deleteLimit);
    if |kept| < |rows| {
      RetentionCollectsExactly(kept, active, keepLatest, deleteLimit);
      OutsideTwice(rows, Elements(doomed), Dead(kept, active, keepLatest));
      forall r | r in rows
        ensures r in Elements(doomed) + Dead(kept, active, keepLatest) <==> r in Dead(rows, active, keepLatest)
      {
        assert Live(kept, active, keepLatest, r) <==> Live(rows, active, keepLatest, r);
      }
      OutsideSame(rows, Elements(doomed) + Dead(kept, active, keepLatest), Dead(rows, active, keepLatest));
    } else {
      FixpointIsLive(rows, active, keepLatest, deleteLimit);
    }
  }

  /** Every call before the fixpoint removes something. */
  lemma RetentionShrinksUntilExact(rows: seq<RevisionId>, active: Option<RevisionId>, keepLatest: nat, deleteLimit: nat)
    requires ValidListing(rows) && (active.Some? ==> active.value in rows) && deleteLimit >= 1
    ensures |Retained(rows, active, keepLatest, deleteLimit)| == |rows| <==> Dead(rows, active, keepLatest) == {}
  {
    RetentionIsSafe(rows, active, keepLatest, deleteLimit);
    if Candidates(rows, active, keepLatest, deleteLimit) == [] {
      FixpointIsLive(rows, active, keepLatest, deleteLimit);
      assert forall r <- rows :: r !in Dead(rows, active, keepLatest);
    } else {
      var d := Candidates(rows, active, keepLatest, deleteLimit)[0];
      assert d in Elements(Candidates(rows, active, keepLatest, deleteLimit));
      assert d in rows && d !in Retained(rows, active, keepLatest, deleteLimit) by {
        CandidateFacts(rows, active, keepLatest, deleteLimit);
      }
      assert d in Dead(rows, active, keepLatest);
    }
  }
}
