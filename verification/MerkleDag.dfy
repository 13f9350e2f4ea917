/**
  Merkle identities over a graph of named nodes: the manifest of a node seals its
  header together with the digests of its children.

  SHA-256 over canonical JSON is a function `hash`; the results that compare
  digests assume that it is injective.
 */
module MerkleDag {
  import opened Wrappers
  import opened CompositionGraph

  type Digest = nat

  /** What one workflow contributes by itself; `resolved` says that every name it uses exists. */
  datatype Node<H> = Node(header: H, children: set<string>, resolved: bool)

  datatype Content<H> = Content(header: H, children: map<string, Digest>)

  datatype Manifest<H> = Manifest(content: Content<H>, digest: Digest)

  datatype Dag<!H> = Dag(nodes: map<string, Node<H>>, hash: Content<H> -> Digest)

  ghost predicate Injective<H(!new)>(hash: Content<H> -> Digest) {
    forall a, b :: hash(a) == hash(b) ==> a == b
  }

  function Graph<H>(dag: Dag<H>): Edges {
    map n | n in dag.nodes :: dag.nodes[n].children * dag.nodes.Keys
  }

  predicate Resolved<H>(dag: Dag<H>, name: string) {
    name in dag.nodes && dag.nodes[name].resolved && dag.nodes[name].children <= dag.nodes.Keys
  }

  ghost predicate Buildable<H>(dag: Dag<H>) {
    Acyclic(Graph(dag)) && forall n <- dag.nodes :: Resolved(dag, n)
  }

  function Sealed<H>(dag: Dag<H>, content: Content<H>): Manifest<H> {
    Manifest(content, dag.hash(content))
  }

  // ---------------------------------------------------------------- the unmemoised definition

  /**
    The manifest of a node by plain recursion over its children; `path` is the
    set of nodes being sealed above it.  None when a cycle or an unresolved node
    is met below `name`.
   */
  ghost function ManifestOf<H>(dag: Dag<H>, name: string, path: set<string>): Option<Manifest<H>>
    decreases dag.nodes.Keys - path, 1
  {
    if name in path || !Resolved(dag, name) then
      None
    else
      var children := dag.nodes[name].children;
      var digests := ManifestDigests(dag, children, path + {name});
      if digests.Keys == children then Some(Sealed(dag, Content(dag.nodes[name].header, digests))) else None
  }

  /** The digests of those of `names` that have a manifest. */
  ghost function ManifestDigests<H>(dag: Dag<H>, names: set<string>, path: set<string>): map<string, Digest>
    decreases dag.nodes.Keys - path, 2
  {
    map c | c in names && ManifestOf(dag, c, path).Some? :: ManifestOf(dag, c, path).value.digest
  }

  /** The tree obtained by replacing every child digest by the tree it commits to. */
  datatype Tree<H> = Tree(header: H, children: map<string, Tree<H>>)

  ghost function TreeOf<H>(dag: Dag<H>, name: string, path: set<string>): Tree<H>
    requires ManifestOf(dag, name, path).Some?
    decreases dag.nodes.Keys - path
  {
    assert ManifestDigests(dag, dag.nodes[name].children, path + {name}).Keys == dag.nodes[name].children;
    Tree(dag.nodes[name].header, map c | c in dag.nodes[name].children :: TreeOf(dag, c, path + {name}))
  }

  /** Equal digests commit to equal unfolded trees, and conversely, across any two graphs. */
  lemma {:induction false} DigestCommitsToTree<H(!new)>(
    dag1: Dag<H>, name1: string, path1: set<string>, dag2: Dag<H>, name2: string, path2: set<string>)
    requires dag1.hash == dag2.hash && Injective(dag1.hash)
    requires ManifestOf(dag1, name1, path1).Some? && ManifestOf(dag2, name2, path2).Some?
    ensures ManifestOf(dag1, name1, path1).value.digest == ManifestOf(dag2, name2, path2).value.digest
       <==> TreeOf(dag1, name1, path1) == TreeOf(dag2, name2, path2)
    decreases dag1.nodes.Keys - path1
  {
    var m1, m2 := ManifestOf(dag1, name1, path1).value, ManifestOf(dag2, name2, path2).value;
    var t1, t2 := TreeOf(dag1, name1, path1), TreeOf(dag2, name2, path2);
    forall c | c in m1.content.children && c in m2.content.children
      ensures m1.content.children[c] == m2.content.children[c] <==> t1.children[c] == t2.children[c]
    {
      DigestCommitsToTree(dag1, c, path1 + {name1}, dag2, c, path2 + {name2});
    }
    assert m1.content.children.Keys == t1.children.Keys && m2.content.children.Keys == t2.children.Keys;
    assert m1.digest == m2.digest <==> m1.content == m2.content;
    if m1.digest == m2.digest {
      assert t1.children == t2.children;
    }
    if t1 == t2 {
      assert m1.content.children == m2.content.children;
    }
  }

  /** `region` is closed under children and the two graphs have the same nodes in it. */
  ghost predicate AgreeOn<H(!new)>(dag1: Dag<H>, dag2: Dag<H>, region: set<string>) {
    && dag1.hash == dag2.hash
    && forall n <- region ::
         && (n in dag1.nodes <==> n in dag2.nodes)
         && (n in dag1.nodes ==> dag1.nodes[n] == dag2.nodes[n] && dag1.nodes[n].children <= region)
  }

  /** A manifest depends only on the nodes reachable from it. */
  lemma {:induction false} ManifestIsLocal<H(!new)>(
    dag1: Dag<H>, dag2: Dag<H>, region: set<string>, name: string, path: set<string>)
    requires AgreeOn(dag1, dag2, region) && name in region
    ensures ManifestOf(dag1, name, path) == ManifestOf(dag2, name, path)
    decreases dag1.nodes.Keys - path
  {
    if name !in path && name in dag1.nodes {
      var children := dag1.nodes[name].children;
      assert Resolved(dag1, name) <==> Resolved(dag2, name) by {
        assert children <= dag1.nodes.Keys <==> children <= dag2.nodes.Keys;
      }
      forall c | c in children
        ensures ManifestOf(dag1, c, path + {name}) == ManifestOf(dag2, c, path + {name})
      {
        ManifestIsLocal(dag1, dag2, region, c, path + {name});
      }
      assert ManifestDigests(dag1, children, path + {name}) == ManifestDigests(dag2, children, path + {name});
    }
  }

  /** A manifest found under some path is found, unchanged, under any part of that path. */
  lemma {:induction false} ShorterPath<H>(dag: Dag<H>, name: string, path: set<string>, shorter: set<string>)
    requires ManifestOf(dag, name, path).Some? && shorter <= path
    ensures ManifestOf(dag, name, shorter) == ManifestOf(dag, name, path)
    decreases dag.nodes.Keys - path
  {
    var children := dag.nodes[name].children;
    assert ManifestDigests(dag, children, path + {name}).Keys == children;
    forall c | c in children
      ensures ManifestOf(dag, c, path + {name}).Some?
      ensures ManifestOf(dag, c, shorter + {name}) == ManifestOf(dag, c, path + {name})
    {
      assert c in ManifestDigests(dag, children, path + {name});
      ShorterPath(dag, c, path + {name}, shorter + {name});
    }
    assert ManifestDigests(dag, children, shorter + {name}) == ManifestDigests(dag, children, path + {name});
  }

  /** The child digests inside a manifest are those of the children's own manifests. */
  lemma ChildIdentities<H>(dag: Dag<H>, name: string, child: string)
    requires ManifestOf(dag, name, {}).Some? && child in dag.nodes[name].children
    ensures
      var m := ManifestOf(dag, name, {}).value;
      && m.content.children.Keys == dag.nodes[name].children
      && ManifestOf(dag, child, {}).Some?
      && m.content.children[child] == ManifestOf(dag, child, {}).value.digest
  {
    var children := dag.nodes[name].children;
    assert child in ManifestDigests(dag, children, {} + {name});
    ShorterPath(dag, child, {} + {name}, {});
  }

  // ---------------------------------------------------------------- the memo of finished manifests

  ghost function ChildDigests<H>(children: set<string>, built: map<string, Manifest<H>>): map<string, Digest> {
    map c | c in children && c in built :: built[c].digest
  }

  /** Every recorded digest is the digest of that node's manifest. */
  ghost predicate Commits<H>(dag: Dag<H>, digests: map<string, Digest>) {
    forall c <- digests ::
      ManifestOf(dag, c, {}).Some? && digests[c] == ManifestOf(dag, c, {}).value.digest
  }

  /** A memo entry is the sealed manifest of a node whose children are all in `before`. */
  ghost predicate MemoEntry<H>(dag: Dag<H>, built: map<string, Manifest<H>>, before: seq<string>, n: string) {
    && Resolved(dag, n) && n in built && n !in before
    && (forall c <- dag.nodes[n].children :: c in before && c in built)
    && built[n] == Sealed(dag, Content(dag.nodes[n].header, ChildDigests(dag.nodes[n].children, built)))
  }

  /** The memo holds the finished nodes, each finished after its children. */
  ghost predicate MemoInvariant<H>(dag: Dag<H>, built: map<string, Manifest<H>>, finished: seq<string>) {
    && (forall n :: n in built <==> n in finished)
    && (forall i {:trigger MemoEntry(dag, built, finished[..i], finished[i])} ::
         0 <= i < |finished| ==> MemoEntry(dag, built, finished[..i], finished[i]))
  }

  lemma ManifestFromChildren<H>(dag: Dag<H>, name: string, path: set<string>, built: map<string, Manifest<H>>)
    requires name !in path && Resolved(dag, name)
    requires forall c <- dag.nodes[name].children ::
      c in built && ManifestOf(dag, c, path + {name}) == Some(built[c])
    ensures ManifestOf(dag, name, path)
         == Some(Sealed(dag, Content(dag.nodes[name].header, ChildDigests(dag.nodes[name].children, built))))
  {
    assert ManifestDigests(dag, dag.nodes[name].children, path + {name})
        == ChildDigests(dag.nodes[name].children, built);
  }

  /** A memoised manifest is the one the unmemoised recursion gives, under any path that avoids it. */
  lemma {:induction false} MemoIsManifest<H>(
    dag: Dag<H>, built: map<string, Manifest<H>>, finished: seq<string>, i: nat, path: set<string>)
    requires MemoInvariant(dag, built, finished) && i < |finished|
    requires forall j :: 0 <= j <= i ==> finished[j] !in path
    ensures finished[i] in built && ManifestOf(dag, finished[i], path) == Some(built[finished[i]])
    decreases i
  {
    var n := finished[i];
    assert MemoEntry(dag, built, finished[..i], n);
    forall c | c in dag.nodes[n].children
      ensures c in built && ManifestOf(dag, c, path + {n}) == Some(built[c])
    {
      var j := FirstIndex(finished[..i], c);
      assert forall k :: 0 <= k <= j ==> finished[..i][k] == finished[k];
      MemoIsManifest(dag, built, finished, j, path + {n});
    }
    ManifestFromChildren(dag, n, path, built);
  }

  lemma MemoEntryGrows<H>(
    dag: Dag<H>, built: map<string, Manifest<H>>, before: seq<string>, n: string, name: string, manifest: Manifest<H>)
    requires MemoEntry(dag, built, before, n) && name !in built
    ensures MemoEntry(dag, built[name := manifest], before, n)
  {
    assert ChildDigests(dag.nodes[n].children, built[name := manifest]) == ChildDigests(dag.nodes[n].children, built);
  }

  lemma MemoGrows<H>(
    dag: Dag<H>, built: map<string, Manifest<H>>, finished: seq<string>, name: string, manifest: Manifest<H>)
    requires MemoInvariant(dag, built, finished) && name !in built
    requires MemoEntry(dag, built[name := manifest], finished, name)
    ensures MemoInvariant(dag, built[name := manifest], finished + [name])
  {
    var finished' := finished + [name];
    forall i | 0 <= i < |finished'|
      ensures MemoEntry(dag, built[name := manifest], finished'[..i], finished'[i])
    {
      if i < |finished| {
        MemoEntryGrows(dag, built, finished[..i], finished[i], name, manifest);
        assert finished'[..i] == finished[..i];
      } else {
        assert finished'[..i] == finished;
      }
    }
  }

  lemma MemoIsFinishOrder<H>(dag: Dag<H>, built: map<string, Manifest<H>>, finished: seq<string>)
    requires MemoInvariant(dag, built, finished)
    ensures IsFinishOrder(Graph(dag), finished)
  {
    forall i | 0 <= i < |finished| ensures TargetsBefore(Graph(dag), finished, i) {
      assert MemoEntry(dag, built, finished[..i], finished[i]);
    }
  }

  lemma FinishedNode<H>(dag: Dag<H>, built: map<string, Manifest<H>>, finished: seq<string>, n: string)
    requires MemoInvariant(dag, built, finished) && n in finished
    ensures Resolved(dag, n) && n in built && ManifestOf(dag, n, {}) == Some(built[n])
  {
    var i := FirstIndex(finished, n);
    assert MemoEntry(dag, built, finished[..i], finished[i]);
    MemoIsManifest(dag, built, finished, i, {});
  }

  /** A memo of every node shows that the graph was buildable, and is the manifest set. */
  lemma CompleteMemo<H>(dag: Dag<H>, built: map<string, Manifest<H>>, finished: seq<string>)
    requires MemoInvariant(dag, built, finished)
    requires dag.nodes.Keys <= built.Keys
    ensures Buildable(dag) && built.Keys == dag.nodes.Keys
    ensures forall n <- built :: ManifestOf(dag, n, {}) == Some(built[n])
  {
    forall n | n in finished
      ensures Resolved(dag, n) && n in built && ManifestOf(dag, n, {}) == Some(built[n])
    {
      FinishedNode(dag, built, finished, n);
    }
    assert Acyclic(Graph(dag)) by {
      MemoIsFinishOrder(dag, built, finished);
      assert forall n <- Graph(dag) :: n in finished;
      FinishOrderIsAcyclic(Graph(dag), finished);
    }
  }

  // ---------------------------------------------------------------- when the recursion succeeds

  /** Below a walk of an acyclic, resolved graph the recursion always succeeds. */
  lemma {:induction false} BuildableSucceeds<H>(dag: Dag<H>, name: string, stack: seq<string>)
    requires Buildable(dag) && name in dag.nodes
    requires IsWalk(Graph(dag), stack + [name])
    ensures ManifestOf(dag, name, set n | n in stack).Some?
    decreases dag.nodes.Keys - set n | n in stack
  {
    var path := set n | n in stack;
    if name in stack {
      BackEdgeClosesCycle(Graph(dag), stack, name);
      assert false;
    }
    assert Resolved(dag, name);
    forall c | c in dag.nodes[name].children
      ensures ManifestOf(dag, c, path + {name}).Some?
    {
      WalkExtends(Graph(dag), stack + [name], c);
      assert (set n | n in stack + [name]) == path + {name};
      BuildableSucceeds(dag, c, stack + [name]);
    }
  }

  /** Where the recursion succeeds, no walk below comes back to the path above. */
  lemma {:induction false} SuccessAvoidsPath<H>(dag: Dag<H>, name: string, path: set<string>, walk: seq<string>)
    requires ManifestOf(dag, name, path).Some?
    requires walk != [] && walk[0] == name && IsWalk(Graph(dag), walk)
    ensures walk[|walk| - 1] !in path
    decreases |walk|
  {
    if |walk| > 1 {
      assert IsEdge(Graph(dag), walk[0], walk[1]);
      var tail := walk[1..];
      assert IsWalk(Graph(dag), tail) by {
        forall i | 0 <= i < |tail| - 1 ensures IsEdge(Graph(dag), tail[i], tail[i + 1]) {
          assert IsEdge(Graph(dag), walk[i + 1], walk[i + 2]);
        }
      }
      SuccessAvoidsPath(dag, walk[1], path + {name}, tail);
    }
  }

  /** The recursion succeeds for every node exactly when the graph is acyclic and resolved. */
  lemma BuildableIffAllManifests<H>(dag: Dag<H>)
    ensures Buildable(dag) <==> forall n <- dag.nodes :: ManifestOf(dag, n, {}).Some?
  {
    if Buildable(dag) {
      forall n | n in dag.nodes ensures ManifestOf(dag, n, {}).Some? {
        assert IsWalk(Graph(dag), [] + [n]);
        BuildableSucceeds(dag, n, []);
        assert (set m: string | m in []) == {};
      }
    } else if forall n <- dag.nodes :: ManifestOf(dag, n, {}).Some? {
      var walk :| IsCycle(Graph(dag), walk);
      assert IsEdge(Graph(dag), walk[0], walk[1]);
      var tail := walk[1..];
      assert IsWalk(Graph(dag), tail) by {
        forall i | 0 <= i < |tail| - 1 ensures IsEdge(Graph(dag), tail[i], tail[i + 1]) {
          assert IsEdge(Graph(dag), walk[i + 1], walk[i + 2]);
        }
      }
      assert ManifestOf(dag, walk[0], {}).Some?;
      assert walk[1] in ManifestDigests(dag, dag.nodes[walk[0]].children, {} + {walk[0]});
      SuccessAvoidsPath(dag, walk[1], {} + {walk[0]}, tail);
    }
  }
}
