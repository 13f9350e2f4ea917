/**
  The structural difference of two configuration documents
  (_configuration_diff in configuration/publication.py).

  A dumped document is an object or a leaf; a leaf stands for everything that the
  comparison does not enter, lists included, identified up to Python's equality.
 */
module StructuralDiff {
  import opened Wrappers
  import opened Ordering

  const MAX_ITEMS := 1000
  const MAX_PATH := 32
  const MAX_SEGMENT := 128

  datatype Json = Object(fields: map<string, Json>) | Leaf(value: int)

  /** A path segment: the key itself, or a digest that stands for an empty or overlong key. */
  datatype Segment = Plain(text: string) | Digested(text: string)

  type Path = seq<Segment>

  datatype Operation = Create | Delete | Update

  datatype Item = Item(operation: Operation, path: Path)

  function SegmentOf(key: string): Segment {
    if key == "" || |key| > MAX_SEGMENT then Digested(key) else Plain(key)
  }

  predicate Authentic(segment: Segment) {
    SegmentOf(segment.text) == segment
  }

  // ---------------------------------------------------------------- what a difference should report

  function Lookup(j: Json, path: Path): (found: Option<Json>)
    decreases |path|
  {
    if path == [] then Some(j)
    else if j.Object? && Authentic(path[0]) && path[0].text in j.fields then Lookup(j.fields[path[0].text], path[1..])
    else None
  }

  predicate ObjectAt(j: Json, path: Path) {
    Lookup(j, path).Some? && Lookup(j, path).value.Object?
  }

  /**
    An update is a place that both documents have, with different values that are
    not both objects; a creation or a deletion is a field that only one of the two
    documents has, in an object that both have.
   */
  predicate Reported(l: Json, r: Json, item: Item) {
    var inLeft, inRight := Lookup(l, item.path), Lookup(r, item.path);
    match item.operation
    case Update =>
      && inLeft.Some? && inRight.Some? && inLeft != inRight
      && !(inLeft.value.Object? && inRight.value.Object?)
    case Delete =>
      item.path != [] && inLeft.Some? && inRight.None? && ObjectAt(r, item.path[..|item.path| - 1])
    case Create =>
      item.path != [] && inLeft.None? && inRight.Some? && ObjectAt(l, item.path[..|item.path| - 1])
  }

  // ---------------------------------------------------------------- what the comparison returns

  function Diff(l: Json, r: Json, at: Path): seq<Item>
    decreases l, 1, 0
  {
    if l.Object? && r.Object? then DiffFields(l, r, SortedNames(l.fields.Keys + r.fields.Keys), at)
    else if l != r then [Item(Update, at)]
    else []
  }

  predicate FieldsOf(l: Json, r: Json, keys: seq<string>)
    requires l.Object? && r.Object?
  {
    forall k <- keys :: k in l.fields || k in r.fields
  }

  function DiffFields(l: Json, r: Json, keys: seq<string>, at: Path): seq<Item>
    requires l.Object? && r.Object? && FieldsOf(l, r, keys)
    decreases l, 0, |keys| + 1
  {
    if keys == [] then []
    else
      var k := keys[|keys| - 1];
      DiffFields(l, r, keys[..|keys| - 1], at) + DiffField(l, r, k, at + [SegmentOf(k)])
  }

  function DiffField(l: Json, r: Json, k: string, at: Path): seq<Item>
    requires l.Object? && r.Object? && (k in l.fields || k in r.fields)
    decreases l, 0, 0
  {
    if k !in r.fields then [Item(Delete, at)]
    else if k !in l.fields then [Item(Create, at)]
    else Diff(l.fields[k], r.fields[k], at)
  }

  // ---------------------------------------------------------------- the comparison is exact

  lemma {:induction false} DiffFieldsHas(l: Json, r: Json, keys: seq<string>, at: Path, item: Item)
    requires l.Object? && r.Object? && FieldsOf(l, r, keys)
    ensures item in DiffFields(l, r, keys, at) <==>
      exists k <- keys :: item in DiffField(l, r, k, at + [SegmentOf(k)])
    decreases |keys|
  {
    if keys != [] {
      var front, last := keys[..|keys| - 1], keys[|keys| - 1];
      DiffFieldsHas(l, r, front, at, item);
      assert keys == front + [last];
    }
  }

  /** A report below two objects concerns one of their fields. */
  lemma ReportedBelow(l: Json, r: Json, item: Item)
    requires l.Object? && r.Object?
    ensures Reported(l, r, item) <==>
      && item.path != [] && Authentic(item.path[0])
      && var k, rest := item.path[0].text, item.path[1..];
         if k in l.fields && k in r.fields then Reported(l.fields[k], r.fields[k], Item(item.operation, rest))
         else if k in l.fields then item.operation.Delete? && rest == []
         else if k in r.fields then item.operation.Create? && rest == []
         else false
  {
    var path := item.path;
    if path != [] && Authentic(path[0]) {
      if |path| > 1 {
        assert path[..|path| - 1][1..] == path[1..][..|path| - 2];
        assert path[..|path| - 1][0] == path[0];
      } else {
        assert path[1..] == [] && path[..|path| - 1] == [];
        assert ObjectAt(l, []) && ObjectAt(r, []);
        assert path[0].text in l.fields ==> Lookup(l.fields[path[0].text], path[1..]).Some?;
        assert path[0].text in r.fields ==> Lookup(r.fields[path[0].text], path[1..]).Some?;
      }
    }
  }

  /** Every item of a comparison at `at` lies at or below `at`, and all that should be reported is. */
  lemma {:induction false} DiffIsExactAt(l: Json, r: Json, at: Path, item: Item)
    ensures item in Diff(l, r, at) <==>
      at <= item.path && Reported(l, r, Item(item.operation, item.path[|at|..]))
    decreases l
  {
    if l.Object? && r.Object? {
      var keys := SortedNames(l.fields.Keys + r.fields.Keys);
      DiffFieldsHas(l, r, keys, at, item);
      forall k | k in keys ensures item in DiffField(l, r, k, at + [SegmentOf(k)]) <==> ReportedAtField(l, r, at, k, item) {
        DiffFieldIsExact(l, r, at, k, item);
      }
      ReportedAtSomeField(l, r, at, keys, item);
    } else if at <= item.path {
      assert item.path[|at|..] == [] ==> item.path == at;
    }
  }

  predicate ReportedAtField(l: Json, r: Json, at: Path, k: string, item: Item) {
    && at + [SegmentOf(k)] <= item.path
    && Reported(l, r, Item(item.operation, item.path[|at|..]))
  }

  lemma ReportedAtSomeField(l: Json, r: Json, at: Path, keys: seq<string>, item: Item)
    requires l.Object? && r.Object? && forall k :: k in keys <==> k in l.fields || k in r.fields
    ensures (exists k <- keys :: ReportedAtField(l, r, at, k, item)) <==>
      at <= item.path && Reported(l, r, Item(item.operation, item.path[|at|..]))
  {
    if at <= item.path && Reported(l, r, Item(item.operation, item.path[|at|..])) {
      ReportedBelow(l, r, Item(item.operation, item.path[|at|..]));
      var k := item.path[|at|].text;
      assert at + [SegmentOf(k)] == item.path[..|at| + 1];
      assert k in keys && ReportedAtField(l, r, at, k, item);
    }
  }

  lemma {:induction false} DiffFieldIsExact(l: Json, r: Json, at: Path, k: string, item: Item)
    requires l.Object? && r.Object? && (k in l.fields || k in r.fields)
    ensures item in DiffField(l, r, k, at + [SegmentOf(k)]) <==> ReportedAtField(l, r, at, k, item)
    decreases l, 0
  {
    var below := at + [SegmentOf(k)];
    if k in l.fields && k in r.fields {
      DiffIsExactAt(l.fields[k], r.fields[k], below, item);
    }
    if below <= item.path {
      ReportedBelow(l, r, Item(item.operation, item.path[|at|..]));
      assert item.path[|at|..][1..] == item.path[|below|..];
      assert item.path[|below|..] == [] ==> item.path == below;
    }
  }

  /** The comparison of two documents reports exactly what it should. */
  lemma DiffIsExact(l: Json, r: Json, item: Item)
    ensures item in Diff(l, r, []) <==> Reported(l, r, item)
  {
    DiffIsExactAt(l, r, [], item);
    assert item.path[0..] == item.path;
  }

  lemma {:induction false} DiffIsEmptyIffEqual(l: Json, r: Json, at: Path)
    ensures Diff(l, r, at) == [] <==> l == r
    decreases l
  {
    if l.Object? && r.Object? {
      var keys := SortedNames(l.fields.Keys + r.fields.Keys);
      forall k | k in l.fields && k in r.fields
        ensures DiffField(l, r, k, at + [SegmentOf(k)]) == [] <==> l.fields[k] == r.fields[k]
      {
        DiffIsEmptyIffEqual(l.fields[k], r.fields[k], at + [SegmentOf(k)]);
      }
      NoFieldDiffers(l, r, keys, at);
      assert (forall k <- keys :: k in l.fields && k in r.fields && l.fields[k] == r.fields[k]) <==> l.fields == r.fields by {
        if forall k <- keys :: k in l.fields && k in r.fields && l.fields[k] == r.fields[k] {
          assert forall k :: k in l.fields || k in r.fields ==> k in keys;
        }
      }
    }
  }

  lemma {:induction false} NoFieldDiffers(l: Json, r: Json, keys: seq<string>, at: Path)
    requires l.Object? && r.Object? && FieldsOf(l, r, keys)
    ensures DiffFields(l, r, keys, at) == [] <==> forall k <- keys :: DiffField(l, r, k, at + [SegmentOf(k)]) == []
    decreases |keys|
  {
    if keys != [] {
      var front, last := keys[..|keys| - 1], keys[|keys| - 1];
      NoFieldDiffers(l, r, front, at);
      assert keys == front + [last];
    }
  }

  // ---------------------------------------------------------------- no place is reported twice or below another

  lemma {:induction false} LookupBelow(j: Json, p: Path, q: Path)
    requires p <= q && Lookup(j, q).Some?
    ensures Lookup(j, p).Some?
    ensures p < q ==> ObjectAt(j, p)
    decreases |p|
  {
    if p != [] {
      LookupBelow(j.fields[p[0].text], p[1..], q[1..]);
    }
  }

  /** A report lies below objects of both documents, and is itself not at such a place. */
  lemma ReportedBelowObjects(l: Json, r: Json, item: Item, above: Path)
    requires Reported(l, r, item) && above < item.path
    ensures ObjectAt(l, above) && ObjectAt(r, above)
  {
    var parent := item.path[..|item.path| - 1];
    assert above == parent || above < parent;
    if Lookup(l, item.path).Some? {
      LookupBelow(l, above, item.path);
    } else {
      LookupBelow(l, above, parent);
    }
    if Lookup(r, item.path).Some? {
      LookupBelow(r, above, item.path);
    } else {
      LookupBelow(r, above, parent);
    }
  }

  lemma NoReportBelowAnother(l: Json, r: Json, upper: Item, lower: Item)
    requires Reported(l, r, upper) && Reported(l, r, lower) && upper.path <= lower.path
    ensures upper == lower
  {
    assert !(ObjectAt(l, upper.path) && ObjectAt(r, upper.path));
    if upper.path < lower.path {
      ReportedBelowObjects(l, r, lower, upper.path);
      assert false;
    }
    assert upper.path == lower.path;
  }

  predicate Distinct(items: seq<Item>) {
    forall i, j :: 0 <= i < j < |items| ==> items[i] != items[j]
  }

  lemma DistinctConcat(a: seq<Item>, b: seq<Item>)
    requires Distinct(a) && Distinct(b) && forall item <- a :: item !in b
    ensures Distinct(a + b)
  {
    forall i, j | 0 <= i < j < |a + b| ensures (a + b)[i] != (a + b)[j] {
      if i < |a| <= j {
        assert a[i] in a && b[j - |a|] in b;
      }
    }
  }

  lemma {:induction false} DiffIsDistinct(l: Json, r: Json, at: Path)
    ensures Distinct(Diff(l, r, at))
    decreases l, 1, 0
  {
    if l.Object? && r.Object? {
      DiffFieldsAreDistinct(l, r, SortedNames(l.fields.Keys + r.fields.Keys), at);
    }
  }

  lemma {:induction false} DiffFieldsAreDistinct(l: Json, r: Json, keys: seq<string>, at: Path)
    requires l.Object? && r.Object? && FieldsOf(l, r, keys)
    requires Ascending(keys, TextLess)
    ensures Distinct(DiffFields(l, r, keys, at))
    decreases l, 0, |keys|
  {
    if keys != [] {
      var front, last := keys[..|keys| - 1], keys[|keys| - 1];
      DiffFieldsAreDistinct(l, r, front, at);
      if last in l.fields && last in r.fields {
        DiffIsDistinct(l.fields[last], r.fields[last], at + [SegmentOf(last)]);
      }
      forall item | item in DiffFields(l, r, front, at) ensures item !in DiffField(l, r, last, at + [SegmentOf(last)]) {
        DiffFieldsHas(l, r, front, at, item);
        var k :| k in front && item in DiffField(l, r, k, at + [SegmentOf(k)]);
        TextIsTotal(last, last);
        DiffFieldIsExact(l, r, at, k, item);
        DiffFieldIsExact(l, r, at, last, item);
        assert item.path[|at|] == SegmentOf(k);
      }
      DistinctConcat(DiffFields(l, r, front, at), DiffField(l, r, last, at + [SegmentOf(last)]));
    }
  }

  /** No reported path is a prefix of another, and none is reported twice. */
  lemma DiffIsPrefixFree(l: Json, r: Json, i: nat, j: nat)
    requires i < |Diff(l, r, [])| && j < |Diff(l, r, [])| && i != j
    ensures !(Diff(l, r, [])[i].path <= Diff(l, r, [])[j].path)
  {
    var items := Diff(l, r, []);
    DiffIsDistinct(l, r, []);
    DiffIsExact(l, r, items[i]);
    DiffIsExact(l, r, items[j]);
    if items[i].path <= items[j].path {
      NoReportBelowAnother(l, r, items[i], items[j]);
    }
  }

  // ---------------------------------------------------------------- swapping the documents

  function Swapped(item: Item): Item {
    match item.operation
    case Create => item.(operation := Delete)
    case Delete => item.(operation := Create)
    case Update => item
  }

  function SwappedAll(items: seq<Item>): seq<Item> {
    seq(|items|, i requires 0 <= i < |items| => Swapped(items[i]))
  }

  /** Comparing the other way round turns creations into deletions and back, and changes nothing else. */
  lemma {:induction false} SwappingSwaps(l: Json, r: Json, at: Path)
    ensures Diff(r, l, at) == SwappedAll(Diff(l, r, at))
    decreases l, 1, 0
  {
    if l.Object? && r.Object? {
      assert l.fields.Keys + r.fields.Keys == r.fields.Keys + l.fields.Keys;
      SwappingSwapsFields(l, r, SortedNames(l.fields.Keys + r.fields.Keys), at);
    }
  }

  lemma SwappedConcat(a: seq<Item>, b: seq<Item>)
    ensures SwappedAll(a + b) == SwappedAll(a) + SwappedAll(b)
  {
  }

  lemma {:induction false} SwappingSwapsFields(l: Json, r: Json, keys: seq<string>, at: Path)
    requires l.Object? && r.Object? && FieldsOf(l, r, keys)
    ensures DiffFields(r, l, keys, at) == SwappedAll(DiffFields(l, r, keys, at))
    decreases l, 0, |keys|
  {
    if keys != [] {
      var k := keys[|keys| - 1];
      SwappingSwapsFields(l, r, keys[..|keys| - 1], at);
      var below := at + [SegmentOf(k)];
      if k in l.fields && k in r.fields {
        SwappingSwaps(l.fields[k], r.fields[k], below);
      }
      assert DiffField(r, l, k, below) == SwappedAll(DiffField(l, r, k, below));
      SwappedConcat(DiffFields(l, r, keys[..|keys| - 1], at), DiffField(l, r, k, below));
    }
  }

  // ---------------------------------------------------------------- patching

  function Paths(items: seq<Item>): set<Path> {
    set item | item in items :: item.path
  }

  /** The paths that continue below the field `k`, relative to it. */
  function Below(paths: set<Path>, k: string): set<Path> {
    set p | p in paths && p != [] && p[0] == SegmentOf(k) :: p[1..]
  }

  /** The source with everything at the given paths taken from the target, absence included. */
  function Patched(l: Json, r: Json, paths: set<Path>): Json
    decreases l
  {
    if [] in paths then r
    else if l.Leaf? then l
    else
      var other := if r.Object? then r.fields else map[];
      Object(map k | k in l.fields.Keys + other.Keys && (if [] in Below(paths, k) then k in other else k in l.fields) ::
        if [] in Below(paths, k) then other[k]
        else if k in other then Patched(l.fields[k], other[k], Below(paths, k))
        else l.fields[k])
  }

  ghost function ReportedPaths(l: Json, r: Json): set<Path> {
    Paths(Diff(l, r, []))
  }

  lemma ReportedPathsAreReported(l: Json, r: Json, p: Path)
    ensures p in ReportedPaths(l, r) <==> exists op :: Reported(l, r, Item(op, p))
  {
    if p in ReportedPaths(l, r) {
      var item :| item in Diff(l, r, []) && item.path == p;
      DiffIsExact(l, r, item);
      assert item == Item(item.operation, p);
    }
    if op :| Reported(l, r, Item(op, p)) {
      DiffIsExact(l, r, Item(op, p));
      assert Item(op, p).path in ReportedPaths(l, r);
    }
  }

  lemma ReportedPathsOfField(l: Json, r: Json, k: string)
    requires l.Object? && r.Object? && k in l.fields && k in r.fields
    ensures Below(ReportedPaths(l, r), k) == ReportedPaths(l.fields[k], r.fields[k])
  {
    forall rest ensures rest in Below(ReportedPaths(l, r), k) <==> rest in ReportedPaths(l.fields[k], r.fields[k]) {
      var p := [SegmentOf(k)] + rest;
      assert p[1..] == rest;
      assert rest in Below(ReportedPaths(l, r), k) <==> p in ReportedPaths(l, r) by {
        if q :| q in ReportedPaths(l, r) && q != [] && q[0] == SegmentOf(k) && q[1..] == rest {
          assert q == p;
        }
      }
      ReportedPathsAreReported(l, r, p);
      ReportedPathsAreReported(l.fields[k], r.fields[k], rest);
      forall op ensures Reported(l, r, Item(op, p)) <==> Reported(l.fields[k], r.fields[k], Item(op, rest)) {
        ReportedBelow(l, r, Item(op, p));
      }
    }
  }

  lemma LoneFieldIsReported(l: Json, r: Json, k: string)
    requires l.Object? && r.Object? && (k in l.fields <==> k !in r.fields)
    ensures [] in Below(ReportedPaths(l, r), k)
  {
    var item := Item(if k in l.fields then Delete else Create, [SegmentOf(k)]);
    ReportedBelow(l, r, item);
    DiffIsExact(l, r, item);
    assert item.path in ReportedPaths(l, r) && item.path[1..] == [];
  }

  lemma PatchedFields(l: Json, r: Json, paths: set<Path>)
    requires l.Object? && r.Object? && [] !in paths
    requires forall k :: k in l.fields && k in r.fields ==> Patched(l.fields[k], r.fields[k], Below(paths, k)) == r.fields[k]
    requires forall k :: (k in l.fields <==> k !in r.fields) ==> [] in Below(paths, k)
    ensures Patched(l, r, paths) == r
  {
    var fields := Patched(l, r, paths).fields;
    forall k ensures k in fields <==> k in r.fields {}
    assert forall k <- fields :: fields[k] == r.fields[k];
  }

  /** Taking the target's values at exactly the reported paths turns the source into the target. */
  lemma {:induction false} PatchingYieldsTarget(l: Json, r: Json)
    ensures Patched(l, r, ReportedPaths(l, r)) == r
    decreases l
  {
    var paths := ReportedPaths(l, r);
    DiffIsEmptyIffEqual(l, r, []);
    if l.Object? && r.Object? {
      forall op ensures !Reported(l, r, Item(op, [])) {
        ReportedBelow(l, r, Item(op, []));
      }
      ReportedPathsAreReported(l, r, []);
      forall k | k in l.fields && k in r.fields ensures Patched(l.fields[k], r.fields[k], Below(paths, k)) == r.fields[k] {
        ReportedPathsOfField(l, r, k);
        PatchingYieldsTarget(l.fields[k], r.fields[k]);
      }
      forall k | k in l.fields <==> k !in r.fields ensures [] in Below(paths, k) {
        LoneFieldIsReported(l, r, k);
      }
      PatchedFields(l, r, paths);
    } else if l != r {
      assert Diff(l, r, [])[0].path == [];
    }
  }

  // ---------------------------------------------------------------- the comparison as it runs

  predicate WithinLimits(before: nat, items: seq<Item>) {
    before + |items| <= MAX_ITEMS && forall i :: 0 <= i < |items| ==> |items[i].path| <= MAX_PATH
  }

  class DiffCollector {
    var items: seq<Item>

    constructor ()
      ensures items == []
    {
      items := [];
    }

    method Append(item: Item) returns (ok: bool)
      requires |items| <= MAX_ITEMS
      modifies this
      ensures ok <==> WithinLimits(old(|items|), [item])
      ensures items == if ok then old(items) + [item] else old(items)
    {
      ok := |item.path| <= MAX_PATH && |items| < MAX_ITEMS;
      assert [item][0] == item;
      if ok {
        items := items + [item];
      }
    }

    /** Appends the difference at `path`, or stops at the first item that exceeds a limit. */
    method Compare(l: Json, r: Json, path: Path) returns (ok: bool)
      requires |items| <= MAX_ITEMS
      modifies this
      ensures ok <==> WithinLimits(old(|items|), Diff(l, r, path))
      ensures ok ==> items == old(items) + Diff(l, r, path)
      decreases l, 2
    {
      if l.Object? && r.Object? {
        ok := CompareFields(l, r, path);
      } else if l != r {
        ok := Append(Item(Update, path));
      } else {
        ok := true;
      }
    }

    method CompareFields(l: Json, r: Json, path: Path) returns (ok: bool)
      requires l.Object? && r.Object? && |items| <= MAX_ITEMS
      modifies this
      ensures ok <==> WithinLimits(old(|items|), Diff(l, r, path))
      ensures ok ==> items == old(items) + Diff(l, r, path)
      decreases l, 1
    {
      ghost var before := items;
      var keys := SortedNames(l.fields.Keys + r.fields.Keys);
      for i := 0 to |keys|
        invariant FieldsOf(l, r, keys[..i])
        invariant items == before + DiffFields(l, r, keys[..i], path)
        invariant WithinLimits(|before|, DiffFields(l, r, keys[..i], path))
      {
        NextField(l, r, keys, i, path);
        ghost var soFar := DiffFields(l, r, keys[..i], path);
        ghost var next := DiffField(l, r, keys[i], path + [SegmentOf(keys[i])]);
        LimitsOfParts(|before|, soFar, next, DiffFields(l, r, keys, path));
        ok := CompareField(l, r, keys[i], path + [SegmentOf(keys[i])]);
        if !ok {
          return;
        }
        ConcatAssociates(before, soFar, next);
      }
      assert keys[..|keys|] == keys;
      ok := true;
    }

    method CompareField(l: Json, r: Json, k: string, path: Path) returns (ok: bool)
      requires l.Object? && r.Object? && (k in l.fields || k in r.fields) && |items| <= MAX_ITEMS
      modifies this
      ensures ok <==> WithinLimits(old(|items|), DiffField(l, r, k, path))
      ensures ok ==> items == old(items) + DiffField(l, r, k, path)
      decreases l, 0
    {
      if k !in r.fields {
        ok := Append(Item(Delete, path));
      } else if k !in l.fields {
        ok := Append(Item(Create, path));
      } else {
        ok := Compare(l.fields[k], r.fields[k], path);
      }
    }
  }

  lemma ConcatAssociates(a: seq<Item>, b: seq<Item>, c: seq<Item>)
    ensures (a + b) + c == a + (b + c)
  {
  }

  lemma LimitsOfParts(before: nat, a: seq<Item>, b: seq<Item>, whole: seq<Item>)
    requires a + b <= whole
    ensures WithinLimits(before, a + b) <==> WithinLimits(before, a) && WithinLimits(before + |a|, b)
    ensures WithinLimits(before, whole) ==> WithinLimits(before, a + b)
  {
    if WithinLimits(before, a + b) {
      forall i | 0 <= i < |a| ensures |a[i].path| <= MAX_PATH {
        assert (a + b)[i] == a[i];
      }
      forall i | 0 <= i < |b| ensures |b[i].path| <= MAX_PATH {
        assert (a + b)[|a| + i] == b[i];
      }
    }
    if WithinLimits(before, whole) {
      forall i | 0 <= i < |a + b| ensures |(a + b)[i].path| <= MAX_PATH {
        assert (a + b)[i] == whole[i];
      }
    }
  }

  lemma NextField(l: Json, r: Json, keys: seq<string>, i: nat, at: Path)
    requires l.Object? && r.Object? && FieldsOf(l, r, keys) && i < |keys|
    ensures FieldsOf(l, r, keys[..i]) && FieldsOf(l, r, keys[..i + 1]) && FieldsOf(l, r, [keys[i]])
    ensures
      var soFar, next := DiffFields(l, r, keys[..i], at), DiffField(l, r, keys[i], at + [SegmentOf(keys[i])]);
      && DiffFields(l, r, keys[..i + 1], at) == soFar + next
      && soFar + next <= DiffFields(l, r, keys, at)
  {
    assert keys[i] in keys;
    assert keys[..i + 1][..i] == keys[..i];
    KeysBefore(l, r, keys, i + 1, at);
  }

  lemma {:induction false} KeysBefore(l: Json, r: Json, keys: seq<string>, i: nat, at: Path)
    requires l.Object? && r.Object? && FieldsOf(l, r, keys) && i <= |keys|
    ensures FieldsOf(l, r, keys[..i]) && DiffFields(l, r, keys[..i], at) <= DiffFields(l, r, keys, at)
    decreases |keys|
  {
    if i < |keys| {
      var front := keys[..|keys| - 1];
      assert front[..i] == keys[..i];
      KeysBefore(l, r, front, i, at);
    } else {
      assert keys[..i] == keys;
    }
  }

  /** Raises exactly when the exact difference has more than the allowed items or a too long path. */
  method ConfigurationDiff(source: Json, target: Json) returns (r: Result<seq<Item>, string>)
    ensures r.Success? <==> WithinLimits(0, Diff(source, target, []))
    ensures r.Success? ==> r.value == Diff(source, target, [])
  {
    var collector := new DiffCollector();
    var ok := collector.Compare(source, target, []);
    if !ok {
      return Failure("Configuration difference exceeds its item limit");
    }
    r := Success(collector.items);
  }
}
