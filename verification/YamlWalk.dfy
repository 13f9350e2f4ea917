/**
  The bounded walk over a composed YAML document (_validate_yaml_node in
  config/loader.py).

  Aliases make the composed document a graph of nodes, which may share nodes and
  may even be cyclic.  The walk visits the unfolding of that graph.
 */
module YamlWalk {
  import opened Wrappers

  const MAX_DEPTH := 32
  const MAX_ITEMS := 10_000
  const MAX_EXPANDED := 50_000

  type Id = nat

  datatype Node =
    | Scalar
    | Mapping(pairs: seq<(Id, Id)>)
    | Sequence(items: seq<Id>)
    | Unknown

  type Graph = g: map<Id, Node> | forall id {:trigger HasChildren(g, id)} :: id in g ==> HasChildren(g, id)

  predicate HasChildren(g: map<Id, Node>, id: Id)
    requires id in g
  {
    forall child <- Children(g[id]) :: child in g
  }

  function Flattened(pairs: seq<(Id, Id)>): seq<Id>
    decreases |pairs|
  {
    if pairs == [] then []
    else Flattened(pairs[..|pairs| - 1]) + [pairs[|pairs| - 1].0, pairs[|pairs| - 1].1]
  }

  lemma {:induction false} FlattenedAt(pairs: seq<(Id, Id)>)
    ensures |Flattened(pairs)| == 2 * |pairs|
    ensures forall i :: 0 <= i < |pairs| ==>
      Flattened(pairs)[2 * i] == pairs[i].0 && Flattened(pairs)[2 * i + 1] == pairs[i].1
    decreases |pairs|
  {
    if pairs != [] {
      var front := pairs[..|pairs| - 1];
      FlattenedAt(front);
      assert forall i :: 0 <= i < |pairs| ==> i == |pairs| - 1 || pairs[i] == front[i];
    }
  }

  /** The nodes below a node, in the order in which they are visited. */
  function Children(node: Node): seq<Id> {
    match node
    case Mapping(pairs) => Flattened(pairs)
    case Sequence(items) => items
    case _ => []
  }

  function Entries(node: Node): nat {
    match node
    case Mapping(pairs) => |pairs|
    case Sequence(items) => |items|
    case _ => 0
  }

  predicate Supported(node: Node) {
    !node.Unknown? && Entries(node) <= MAX_ITEMS
  }

  // ---------------------------------------------------------------- unfoldings

  datatype Tree = Tree(id: Id, children: seq<Tree>)

  function Size(t: Tree): nat {
    1 + SizeAll(t.children)
  }

  function SizeAll(ts: seq<Tree>): nat {
    if ts == [] then 0 else SizeAll(ts[..|ts| - 1]) + Size(ts[|ts| - 1])
  }

  /** The number of edges on the longest way down. */
  function Depth(t: Tree): nat {
    if t.children == [] then 0 else 1 + DepthAll(t.children)
  }

  function DepthAll(ts: seq<Tree>): nat
    requires ts != []
  {
    var last := Depth(ts[|ts| - 1]);
    if |ts| == 1 then last
    else
      var before := DepthAll(ts[..|ts| - 1]);
      if before < last then last else before
  }

  predicate AllSupported(g: Graph, t: Tree) {
    t.id in g && Supported(g[t.id]) && forall c <- t.children :: AllSupported(g, c)
  }

  /** `t` is what following every alias from `id` unfolds to. */
  predicate IsUnfolding(g: Graph, id: Id, t: Tree)
    decreases t
  {
    && id in g && t.id == id
    && |t.children| == |Children(g[id])|
    && forall i :: 0 <= i < |t.children| ==> IsUnfolding(g, Children(g[id])[i], t.children[i])
  }

  /** The documents that the loader accepts. */
  ghost predicate Acceptable(g: Graph, root: Id) {
    exists t :: IsUnfolding(g, root, t) && Depth(t) <= MAX_DEPTH && Size(t) <= MAX_EXPANDED && AllSupported(g, t)
  }

  lemma {:induction false} UnfoldingIsUnique(g: Graph, id: Id, t1: Tree, t2: Tree)
    requires IsUnfolding(g, id, t1) && IsUnfolding(g, id, t2)
    ensures t1 == t2
    decreases t1
  {
    forall i | 0 <= i < |t1.children| ensures t1.children[i] == t2.children[i] {
      UnfoldingIsUnique(g, Children(g[id])[i], t1.children[i], t2.children[i]);
    }
  }

  /** The unfolding of a node, if it has at most `levels` levels. */
  ghost function Unfold(g: Graph, id: Id, levels: nat): Option<Tree>
    requires id in g
    decreases levels, 0, 0
  {
    if levels == 0 then None
    else
      assert HasChildren(g, id);
      var children := UnfoldAll(g, Children(g[id]), levels - 1);
      if children.None? then None else Some(Tree(id, children.value))
  }

  ghost function UnfoldAll(g: Graph, ids: seq<Id>, levels: nat): Option<seq<Tree>>
    requires forall id <- ids :: id in g
    decreases levels, 1, |ids|
  {
    if ids == [] then Some([])
    else
      var before := UnfoldAll(g, ids[..|ids| - 1], levels);
      var last := Unfold(g, ids[|ids| - 1], levels);
      if before.None? || last.None? then None else Some(before.value + [last.value])
  }

  lemma {:induction false} UnfoldAllIsPointwise(g: Graph, ids: seq<Id>, levels: nat)
    requires forall id <- ids :: id in g
    ensures UnfoldAll(g, ids, levels).Some? <==> forall i :: 0 <= i < |ids| ==> Unfold(g, ids[i], levels).Some?
    ensures UnfoldAll(g, ids, levels).Some? ==>
      var ts := UnfoldAll(g, ids, levels).value;
      |ts| == |ids| && forall i :: 0 <= i < |ids| ==> Unfold(g, ids[i], levels) == Some(ts[i])
    decreases |ids|
  {
    if ids != [] {
      UnfoldAllIsPointwise(g, ids[..|ids| - 1], levels);
      assert forall i :: 0 <= i < |ids| ==> i == |ids| - 1 || ids[i] == ids[..|ids| - 1][i];
    }
  }

  lemma {:induction false} UnfoldUnfolds(g: Graph, id: Id, levels: nat)
    requires id in g && Unfold(g, id, levels).Some?
    ensures IsUnfolding(g, id, Unfold(g, id, levels).value) && Depth(Unfold(g, id, levels).value) < levels
    decreases levels
  {
    assert HasChildren(g, id);
    var ids := Children(g[id]);
    var ts := Unfold(g, id, levels).value.children;
    UnfoldAllIsPointwise(g, ids, levels - 1);
    forall i | 0 <= i < |ids| ensures IsUnfolding(g, ids[i], ts[i]) && Depth(ts[i]) < levels - 1 {
      UnfoldUnfolds(g, ids[i], levels - 1);
    }
    DepthAllIsBound(ts, levels - 2);
  }

  lemma {:induction false} DepthAllIsBound(ts: seq<Tree>, bound: int)
    ensures ts != [] ==> (DepthAll(ts) <= bound <==> forall i :: 0 <= i < |ts| ==> Depth(ts[i]) <= bound)
    decreases |ts|
  {
    if |ts| > 1 {
      var front := ts[..|ts| - 1];
      DepthAllIsBound(front, bound);
      assert forall i :: 0 <= i < |ts| ==> i == |ts| - 1 || ts[i] == front[i];
    }
  }

  lemma {:induction false} UnfoldingIsFound(g: Graph, id: Id, t: Tree, levels: nat)
    requires IsUnfolding(g, id, t) && Depth(t) < levels
    ensures Unfold(g, id, levels) == Some(t)
    decreases t
  {
    var ids := Children(g[id]);
    DepthAllIsBound(t.children, levels - 2);
    forall i | 0 <= i < |ids| ensures Unfold(g, ids[i], levels - 1) == Some(t.children[i]) {
      UnfoldingIsFound(g, ids[i], t.children[i], levels - 1);
    }
    UnfoldAllIsPointwise(g, ids, levels - 1);
    assert UnfoldAll(g, ids, levels - 1).value == t.children;
  }

  lemma AcceptableIffUnfolds(g: Graph, root: Id)
    requires root in g
    ensures Acceptable(g, root) <==>
      var t := Unfold(g, root, MAX_DEPTH + 1);
      t.Some? && Size(t.value) <= MAX_EXPANDED && AllSupported(g, t.value)
  {
    var t := Unfold(g, root, MAX_DEPTH + 1);
    if t.Some? {
      UnfoldUnfolds(g, root, MAX_DEPTH + 1);
    }
    if t' :| IsUnfolding(g, root, t') && Depth(t') <= MAX_DEPTH && Size(t') <= MAX_EXPANDED && AllSupported(g, t') {
      UnfoldingIsFound(g, root, t', MAX_DEPTH + 1);
    }
  }

  // ---------------------------------------------------------------- paths

  predicate IsPath(g: Graph, path: seq<Id>) {
    && (forall id <- path :: id in g)
    && forall i :: 0 <= i < |path| - 1 ==> path[i + 1] in Children(g[path[i]])
  }

  /** What an unfolding reaches along a path has fewer levels. */
  lemma {:induction false} UnfoldAlongPath(g: Graph, path: seq<Id>, i: nat, levels: nat)
    requires IsPath(g, path) && i < |path| && Unfold(g, path[0], levels).Some?
    ensures i < levels && Unfold(g, path[i], levels - i).Some?
    decreases i
  {
    if i > 0 {
      UnfoldAlongPath(g, path, i - 1, levels);
      assert HasChildren(g, path[i - 1]);
      var ids := Children(g[path[i - 1]]);
      UnfoldAllIsPointwise(g, ids, levels - i);
      var k :| 0 <= k < |ids| && ids[k] == path[i];
    }
  }

  /** A node that can be reached from itself has no finite unfolding. */
  lemma {:induction false} CycleHasNoUnfolding(g: Graph, path: seq<Id>, levels: nat)
    requires IsPath(g, path) && |path| >= 2 && path[0] == path[|path| - 1]
    ensures Unfold(g, path[0], levels).None?
    decreases levels
  {
    if Unfold(g, path[0], levels).Some? {
      UnfoldAlongPath(g, path, |path| - 1, levels);
      CycleHasNoUnfolding(g, path, levels - (|path| - 1));
      assert false;
    }
  }

  // ---------------------------------------------------------------- the walk

  datatype Refusal = TooDeep | Recursive | TooMany | TooManyItems | UnsupportedNode

  predicate Affordable(g: Graph, expanded: nat, ts: seq<Tree>) {
    expanded + SizeAll(ts) <= MAX_EXPANDED && forall t <- ts :: AllSupported(g, t)
  }

  ghost predicate Admits(g: Graph, ids: seq<Id>, levels: nat, expanded: nat)
    requires forall id <- ids :: id in g
  {
    var ts := UnfoldAll(g, ids, levels);
    ts.Some? && Affordable(g, expanded, ts.value)
  }

  lemma UnfoldNext(g: Graph, ids: seq<Id>, id: Id, levels: nat)
    requires (forall id <- ids :: id in g) && id in g
    ensures
      var before, last := UnfoldAll(g, ids, levels), Unfold(g, id, levels);
      UnfoldAll(g, ids + [id], levels) == if before.None? || last.None? then None else Some(before.value + [last.value])
  {
    assert (ids + [id])[..|ids|] == ids;
  }

  lemma AffordableNext(g: Graph, expanded: nat, ts: seq<Tree>, t: Tree)
    ensures SizeAll(ts + [t]) == SizeAll(ts) + Size(t)
    ensures Affordable(g, expanded, ts + [t]) <==>
      Affordable(g, expanded, ts) && expanded + SizeAll(ts) + Size(t) <= MAX_EXPANDED && AllSupported(g, t)
  {
    assert (ts + [t])[..|ts|] == ts;
    assert t in ts + [t];
    assert forall x <- ts :: x in ts + [t];
  }

  /** One more node is admitted exactly when it is admitted with the count that the nodes before it leave. */
  lemma AdmitsNext(g: Graph, ids: seq<Id>, id: Id, levels: nat, expanded: nat)
    requires (forall id <- ids :: id in g) && id in g && Admits(g, ids, levels, expanded)
    ensures
      var before, next := UnfoldAll(g, ids, levels).value, Unfold(g, id, levels);
      && (Admits(g, ids + [id], levels, expanded) <==>
            next.Some? && expanded + SizeAll(before) + Size(next.value) <= MAX_EXPANDED && AllSupported(g, next.value))
      && (next.Some? ==> UnfoldAll(g, ids + [id], levels) == Some(before + [next.value]))
      && (next.Some? ==> SizeAll(before + [next.value]) == SizeAll(before) + Size(next.value))
  {
    UnfoldNext(g, ids, id, levels);
    var before, next := UnfoldAll(g, ids, levels).value, Unfold(g, id, levels);
    if next.Some? {
      AffordableNext(g, expanded, before, next.value);
    }
  }

  lemma {:induction false} AdmitsPrefix(g: Graph, ids: seq<Id>, i: nat, levels: nat, expanded: nat)
    requires (forall id <- ids :: id in g) && i <= |ids| && Admits(g, ids, levels, expanded)
    ensures Admits(g, ids[..i], levels, expanded)
    decreases |ids|
  {
    if i == |ids| {
      assert ids[..i] == ids;
    } else {
      var ts := UnfoldAll(g, ids, levels).value;
      var front := ids[..|ids| - 1];
      assert ts[..|ts| - 1] == UnfoldAll(g, front, levels).value;
      assert front[..i] == ids[..i];
      AdmitsPrefix(g, front, i, levels, expanded);
    }
  }

  /** Every unfolding of the node would take the count beyond the limit; there may be none. */
  ghost predicate Exceeds(g: Graph, id: Id, expanded: nat) {
    forall t {:trigger IsUnfolding(g, id, t)} :: IsUnfolding(g, id, t) ==> expanded + Size(t) > MAX_EXPANDED
  }

  /** The path from the root that shows why a document is refused, unless its size is the reason. */
  predicate Shows(g: Graph, root: Id, path: seq<Id>, refusal: Refusal) {
    && IsPath(g, path) && path != [] && path[0] == root
    && var last := path[|path| - 1];
       match refusal
       case TooDeep => |path| - 1 > MAX_DEPTH
       case Recursive => last in path[..|path| - 1]
       case TooMany => false
       case TooManyItems => Entries(g[last]) > MAX_ITEMS
       case UnsupportedNode => g[last].Unknown?
  }

  ghost predicate Justified(g: Graph, root: Id, refusal: Refusal) {
    exists path :: Shows(g, root, path, refusal)
  }

  ghost predicate AdmitsNode(g: Graph, id: Id, levels: nat, expanded: nat)
    requires id in g
  {
    var t := Unfold(g, id, levels);
    t.Some? && expanded + Size(t.value) <= MAX_EXPANDED && AllSupported(g, t.value)
  }

  /** How the walk stands at a node: `path` leads from the root to its parent. */
  ghost predicate Standing(g: Graph, current: Id, depth: nat, ancestors: set<Id>, path: seq<Id>) {
    && IsPath(g, path + [current]) && |path| == depth <= MAX_DEPTH + 1
    && forall id :: id in ancestors <==> id in path
  }

  lemma StandingBelow(g: Graph, current: Id, depth: nat, ancestors: set<Id>, path: seq<Id>, child: Id)
    requires Standing(g, current, depth, ancestors, path) && depth <= MAX_DEPTH
    requires current in g && child in Children(g[current])
    ensures Standing(g, child, depth + 1, ancestors + {current}, path + [current])
  {
    assert HasChildren(g, current);
    var below := path + [current] + [child];
    forall i | 0 <= i < |below| - 1 ensures below[i + 1] in Children(g[below[i]]) {
      if i < |path| {
        assert (path + [current])[i + 1] in Children(g[(path + [current])[i]]);
      }
    }
  }

  lemma AncestorIsRecursive(g: Graph, current: Id, depth: nat, ancestors: set<Id>, path: seq<Id>, levels: nat)
    requires Standing(g, current, depth, ancestors, path) && current in ancestors && current in g
    ensures Unfold(g, current, levels).None? && Shows(g, (path + [current])[0], path + [current], Recursive)
  {
    var whole := path + [current];
    var i :| 0 <= i < |path| && path[i] == current;
    var cycle := whole[i..];
    forall k | 0 <= k < |cycle| - 1 ensures cycle[k + 1] in Children(g[cycle[k]]) {
      assert whole[i + k + 1] in Children(g[whole[i + k]]);
    }
    CycleHasNoUnfolding(g, cycle, levels);
    assert whole[..|whole| - 1] == path;
  }

  lemma NodeAdmitsItsChildren(g: Graph, id: Id, levels: nat, expanded: nat)
    requires id in g && levels > 0
    ensures HasChildren(g, id)
    ensures AdmitsNode(g, id, levels, expanded) <==>
      Supported(g[id]) && expanded + 1 <= MAX_EXPANDED && Admits(g, Children(g[id]), levels - 1, expanded + 1)
    ensures Unfold(g, id, levels).Some? ==>
      Size(Unfold(g, id, levels).value) == 1 + SizeAll(UnfoldAll(g, Children(g[id]), levels - 1).value)
  {
    assert HasChildren(g, id);
  }

  /** The children of every unfolding of the node would take the count beyond the limit. */
  ghost predicate ChildrenExceed(g: Graph, id: Id, expanded: nat) {
    forall t {:trigger IsUnfolding(g, id, t)} :: IsUnfolding(g, id, t) ==> expanded + SizeAll(t.children) > MAX_EXPANDED
  }

  lemma ChildrenMakeExceed(g: Graph, id: Id, expanded: nat)
    requires ChildrenExceed(g, id, expanded + 1)
    ensures Exceeds(g, id, expanded)
  {
  }

  lemma {:induction false} PrefixIsSmaller(ts: seq<Tree>, i: nat)
    requires i < |ts|
    ensures SizeAll(ts[..i]) + Size(ts[i]) <= SizeAll(ts)
    decreases |ts|
  {
    var front := ts[..|ts| - 1];
    if i < |front| {
      assert front[..i] == ts[..i];
      PrefixIsSmaller(front, i);
    }
  }

  /** A node whose child exceeds what the children before it leave exceeds the limit itself. */
  lemma ChildMakesExceed(g: Graph, id: Id, i: nat, levels: nat, before: nat)
    requires id in g && HasChildren(g, id) && i < |Children(g[id])|
    requires forall k <- Children(g[id])[..i] :: k in g
    requires UnfoldAll(g, Children(g[id])[..i], levels).Some?
    requires Exceeds(g, Children(g[id])[i], before + SizeAll(UnfoldAll(g, Children(g[id])[..i], levels).value))
    ensures ChildrenExceed(g, id, before)
  {
    var ids := Children(g[id])[..i];
    var ts := UnfoldAll(g, ids, levels).value;
    forall t | IsUnfolding(g, id, t) ensures before + SizeAll(t.children) > MAX_EXPANDED {
      UnfoldAllIsPointwise(g, ids, levels);
      forall k | 0 <= k < i ensures t.children[k] == ts[k] {
        assert IsUnfolding(g, Children(g[id])[k], t.children[k]) && ids[k] == Children(g[id])[k];
        UnfoldUnfolds(g, ids[k], levels);
        UnfoldingIsUnique(g, ids[k], t.children[k], ts[k]);
      }
      assert t.children[..i] == ts;
      assert IsUnfolding(g, Children(g[id])[i], t.children[i]);
      PrefixIsSmaller(t.children, i);
    }
  }

  class NodeWalk {
    const g: Graph
    var expanded: nat

    constructor (g: Graph)
      ensures this.g == g && expanded == 0
    {
      this.g := g;
      expanded := 0;
    }

    /** Refuses the node, or counts every node of its unfolding. */
    method Visit(current: Id, depth: nat, ancestors: set<Id>, ghost path: seq<Id>) returns (r: Option<Refusal>)
      requires current in g && Standing(g, current, depth, ancestors, path) && expanded <= MAX_EXPANDED
      modifies this
      ensures r.None? <==> AdmitsNode(g, current, MAX_DEPTH + 1 - depth, old(expanded))
      ensures r.None? ==> expanded == old(expanded) + Size(Unfold(g, current, MAX_DEPTH + 1 - depth).value)
      ensures r.Some? && !r.value.TooMany? ==> Justified(g, (path + [current])[0], r.value)
      ensures r == Some(TooMany) ==> Exceeds(g, current, old(expanded))
      decreases MAX_DEPTH + 1 - depth, 2
    {
      ghost var whole := path + [current];
      if depth > MAX_DEPTH {
        assert Shows(g, whole[0], whole, TooDeep);
        return Some(TooDeep);
      }
      if current in ancestors {
        AncestorIsRecursive(g, current, depth, ancestors, path, MAX_DEPTH + 1 - depth);
        return Some(Recursive);
      }
      NodeAdmitsItsChildren(g, current, MAX_DEPTH + 1 - depth, expanded);
      expanded := expanded + 1;
      if expanded > MAX_EXPANDED {
        return Some(TooMany);
      }
      if Entries(g[current]) > MAX_ITEMS {
        assert Shows(g, whole[0], whole, TooManyItems);
        return Some(TooManyItems);
      }
      if g[current].Unknown? {
        assert Shows(g, whole[0], whole, UnsupportedNode);
        return Some(UnsupportedNode);
      }
      r := VisitChildren(current, depth, ancestors, path);
      if r == Some(TooMany) {
        ChildrenMakeExceed(g, current, old(expanded));
      }
    }

    method VisitChildren(current: Id, depth: nat, ancestors: set<Id>, ghost path: seq<Id>) returns (r: Option<Refusal>)
      requires current in g && Standing(g, current, depth, ancestors, path) && expanded <= MAX_EXPANDED
      requires depth <= MAX_DEPTH && HasChildren(g, current)
      modifies this
      ensures r.None? <==> Admits(g, Children(g[current]), MAX_DEPTH - depth, old(expanded))
      ensures r.None? ==>
        expanded == old(expanded) + SizeAll(UnfoldAll(g, Children(g[current]), MAX_DEPTH - depth).value)
      ensures r.Some? && !r.value.TooMany? ==> Justified(g, (path + [current])[0], r.value)
      ensures r == Some(TooMany) ==> ChildrenExceed(g, current, old(expanded))
      decreases MAX_DEPTH + 1 - depth, 1
    {
      match g[current] {
        case Mapping(pairs) =>
          r := VisitPairs(current, pairs, depth, ancestors, path);
        case Sequence(items) =>
          r := VisitItems(current, items, depth, ancestors, path);
        case _ =>
          r := None;
      }
    }

    method VisitPairs(current: Id, pairs: seq<(Id, Id)>, depth: nat, ancestors: set<Id>, ghost path: seq<Id>)
      returns (r: Option<Refusal>)
      requires current in g && Standing(g, current, depth, ancestors, path) && expanded <= MAX_EXPANDED
      requires depth <= MAX_DEPTH && HasChildren(g, current) && g[current] == Mapping(pairs)
      modifies this
      ensures r.None? <==> Admits(g, Children(g[current]), MAX_DEPTH - depth, old(expanded))
      ensures r.None? ==>
        expanded == old(expanded) + SizeAll(UnfoldAll(g, Children(g[current]), MAX_DEPTH - depth).value)
      ensures r.Some? && !r.value.TooMany? ==> Justified(g, (path + [current])[0], r.value)
      ensures r == Some(TooMany) ==> ChildrenExceed(g, current, old(expanded))
      decreases MAX_DEPTH + 1 - depth, 0
    {
      ghost var before, levels := expanded, MAX_DEPTH - depth;
      ghost var ids := Children(g[current]);
      FlattenedAt(pairs);
      for i := 0 to |pairs|
        invariant Admits(g, ids[..2 * i], levels, before)
        invariant expanded == before + SizeAll(UnfoldAll(g, ids[..2 * i], levels).value)
      {
        r := VisitChild(current, pairs[i].0, ids, 2 * i, depth, ancestors, path, before);
        if r.Some? {
          return;
        }
        r := VisitChild(current, pairs[i].1, ids, 2 * i + 1, depth, ancestors, path, before);
        if r.Some? {
          return;
        }
      }
      assert ids[..|ids|] == ids;
      r := None;
    }

    method VisitItems(current: Id, items: seq<Id>, depth: nat, ancestors: set<Id>, ghost path: seq<Id>)
      returns (r: Option<Refusal>)
      requires current in g && Standing(g, current, depth, ancestors, path) && expanded <= MAX_EXPANDED
      requires depth <= MAX_DEPTH && HasChildren(g, current) && g[current] == Sequence(items)
      modifies this
      ensures r.None? <==> Admits(g, items, MAX_DEPTH - depth, old(expanded))
      ensures r.None? ==> expanded == old(expanded) + SizeAll(UnfoldAll(g, items, MAX_DEPTH - depth).value)
      ensures r.Some? && !r.value.TooMany? ==> Justified(g, (path + [current])[0], r.value)
      ensures r == Some(TooMany) ==> ChildrenExceed(g, current, old(expanded))
      decreases MAX_DEPTH + 1 - depth, 0
    {
      ghost var before, levels := expanded, MAX_DEPTH - depth;
      for i := 0 to |items|
        invariant Admits(g, items[..i], levels, before)
        invariant expanded == before + SizeAll(UnfoldAll(g, items[..i], levels).value)
      {
        assert items[..i + 1] == items[..i] + [items[i]];
        r := VisitChild(current, items[i], items, i, depth, ancestors, path, before);
        if r.Some? {
          return;
        }
      }
      assert items[..|items|] == items;
      r := None;
    }

    /** Visits child `i` of the current node, after all before it were admitted. */
    method VisitChild(
      current: Id, child: Id, ghost ids: seq<Id>, ghost i: nat,
      depth: nat, ancestors: set<Id>, ghost path: seq<Id>, ghost before: nat)
      returns (r: Option<Refusal>)
      requires current in g && Standing(g, current, depth, ancestors, path)
      requires depth <= MAX_DEPTH && HasChildren(g, current) && ids == Children(g[current]) && i < |ids| && ids[i] == child
      requires Admits(g, ids[..i], MAX_DEPTH - depth, before)
      requires expanded == before + SizeAll(UnfoldAll(g, ids[..i], MAX_DEPTH - depth).value)
      modifies this
      ensures r.None? ==> Admits(g, ids[..i + 1], MAX_DEPTH - depth, before)
      ensures r.None? ==> expanded == before + SizeAll(UnfoldAll(g, ids[..i + 1], MAX_DEPTH - depth).value)
      ensures r.Some? ==> !Admits(g, ids, MAX_DEPTH - depth, before)
      ensures r.Some? && !r.value.TooMany? ==> Justified(g, (path + [current])[0], r.value)
      ensures r == Some(TooMany) ==> ChildrenExceed(g, current, before)
      decreases MAX_DEPTH - depth, 3
    {
      ghost var levels := MAX_DEPTH - depth;
      assert ids[..i + 1] == ids[..i] + [child];
      StandingBelow(g, current, depth, ancestors, path, child);
      AdmitsNext(g, ids[..i], child, levels, before);
      r := Visit(child, depth + 1, ancestors + {current}, path + [current]);
      assert (path + [current] + [child])[0] == (path + [current])[0];
      if r == Some(TooMany) {
        ChildMakesExceed(g, current, i, levels, before);
      }
      if r.Some? && Admits(g, ids, levels, before) {
        AdmitsPrefix(g, ids, i + 1, levels, before);
      }
    }
  }

  /**
    Accepts exactly the documents whose unfolding is a finite tree within the
    limits, whether or not nodes are shared or cyclic, and has then counted every
    node of that tree.
   */
  method ValidateYamlNode(g: Graph, root: Id) returns (r: Option<Refusal>, expanded: nat)
    requires root in g
    ensures r.None? <==> Acceptable(g, root)
    ensures r.None? ==> exists t :: IsUnfolding(g, root, t) && expanded == Size(t)
    ensures r.Some? ==> if r.value.TooMany? then Exceeds(g, root, 0) else Justified(g, root, r.value)
  {
    var walk := new NodeWalk(g);
    AcceptableIffUnfolds(g, root);
    r := walk.Visit(root, 0, {}, []);
    expanded := walk.expanded;
    if r.None? {
      UnfoldUnfolds(g, root, MAX_DEPTH + 1);
    }
  }

  /** A document refused for recursion has no finite unfolding at all. */
  lemma RecursionHasNoUnfolding(g: Graph, root: Id, path: seq<Id>, t: Tree)
    requires Shows(g, root, path, Recursive)
    ensures !IsUnfolding(g, root, t)
  {
    if IsUnfolding(g, root, t) {
      var levels := Depth(t) + 1;
      UnfoldingIsFound(g, root, t, levels);
      var last := path[|path| - 1];
      var i :| 0 <= i < |path| - 1 && path[i] == last;
      UnfoldAlongPath(g, path, i, levels);
      var cycle := path[i..];
      forall k | 0 <= k < |cycle| - 1 ensures cycle[k + 1] in Children(g[cycle[k]]) {
        assert path[i + k + 1] in Children(g[path[i + k]]);
      }
      CycleHasNoUnfolding(g, cycle, levels - i);
      assert false;
    }
  }
}
