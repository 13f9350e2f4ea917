/**
  The composition graph of a workflow set and the three-colour depth-first
  search that rejects cyclic composition (config/validator.py).

  The source visits the targets of a workflow in sorted order; here every visit
  takes them in an arbitrary order, so each result holds for all orders.
 */
module CompositionGraph {

  /** For each workflow, the known workflows its steps run as children. */
  type Edges = map<string, set<string>>

  predicate Closed(edges: Edges) {
    forall n <- edges :: edges[n] <= edges.Keys
  }

  predicate IsEdge(edges: Edges, source: string, target: string) {
    source in edges && target in edges[source]
  }

  predicate IsWalk(edges: Edges, walk: seq<string>) {
    forall i :: 0 <= i < |walk| - 1 ==> IsEdge(edges, walk[i], walk[i + 1])
  }

  /** A closed path: at least one edge, ending where it starts. */
  predicate IsCycle(edges: Edges, walk: seq<string>) {
    |walk| >= 2 && walk[0] == walk[|walk| - 1] && IsWalk(edges, walk)
  }

  ghost predicate Acyclic(edges: Edges) {
    forall walk: seq<string> :: !IsCycle(edges, walk)
  }

  /** Every node of `order` has all its targets strictly earlier in `order`. */
  ghost predicate IsFinishOrder(edges: Edges, order: seq<string>) {
    forall i {:trigger TargetsBefore(edges, order, i)} ::
      0 <= i < |order| ==> TargetsBefore(edges, order, i)
  }

  ghost predicate TargetsBefore(edges: Edges, order: seq<string>, i: nat)
    requires i < |order|
  {
    order[i] in edges && forall t <- edges[order[i]] :: t in order[..i]
  }

  /** Walks inside a finish order only move to strictly earlier positions. */
  lemma {:induction false} WalkDescends(edges: Edges, order: seq<string>, walk: seq<string>, k: nat)
    requires IsFinishOrder(edges, order)
    requires |walk| >= 2 && IsWalk(edges, walk)
    requires k < |order| && walk[0] == order[k]
    ensures walk[|walk| - 1] in order[..k]
    decreases |walk|
  {
    assert IsEdge(edges, walk[0], walk[1]) && TargetsBefore(edges, order, k);
    assert walk[1] in order[..k];
    if |walk| > 2 {
      var j :| 0 <= j < k && order[j] == walk[1];
      var tail := walk[1..];
      assert IsWalk(edges, tail) by {
        forall i | 0 <= i < |tail| - 1
          ensures IsEdge(edges, tail[i], tail[i + 1])
        {
          assert IsEdge(edges, walk[i + 1], walk[i + 2]);
        }
      }
      WalkDescends(edges, order, tail, j);
      assert order[..j] <= order[..k];
    }
  }

  function FirstIndex(s: seq<string>, x: string): (i: nat)
    requires x in s
    ensures i < |s| && s[i] == x && x !in s[..i]
  {
    if s[0] == x then 0 else 1 + FirstIndex(s[1..], x)
  }

  /** A graph whose nodes can all be listed in finish order has no closed path. */
  lemma FinishOrderIsAcyclic(edges: Edges, order: seq<string>)
    requires IsFinishOrder(edges, order)
    requires forall n <- edges :: n in order
    ensures Acyclic(edges)
  {
    forall walk: seq<string> | IsCycle(edges, walk)
      ensures false
    {
      assert IsEdge(edges, walk[0], walk[1]);
      var k := FirstIndex(order, walk[0]);
      WalkDescends(edges, order, walk, k);
    }
  }

  /** A walk that returns to a node already on it closes a cycle. */
  lemma BackEdgeClosesCycle(edges: Edges, stack: seq<string>, target: string)
    requires IsWalk(edges, stack + [target]) && target in stack
    ensures IsCycle(edges, stack[FirstIndex(stack, target)..] + [target])
  {
    var k := FirstIndex(stack, target);
    var cycle := stack[k..] + [target];
    assert cycle == (stack + [target])[k..];
    assert forall i :: 0 <= i < |cycle| ==> cycle[i] == (stack + [target])[k + i];
  }

  lemma WalkExtends(edges: Edges, stack: seq<string>, target: string)
    requires IsWalk(edges, stack)
    requires stack != [] ==> IsEdge(edges, stack[|stack| - 1], target)
    ensures IsWalk(edges, stack + [target])
  {
  }

  datatype Color = White | Gray | Black

  /** The mutable state of one run of the search. */
  class CycleSearch {
    const edges: Edges
    var color: map<string, Color>
    var stack: seq<string>
    var cycles: seq<seq<string>>
    ghost var finished: seq<string>

    constructor (edges: Edges)
      requires Closed(edges)
      ensures this.edges == edges && Valid() && stack == [] && cycles == []
      ensures color == map n | n in edges :: White
    {
      this.edges := edges;
      color := map n | n in edges :: White;
      stack, cycles, finished := [], [], [];
    }

    ghost predicate Valid()
      reads this
    {
      && Closed(edges)
      && color.Keys == edges.Keys
      && (forall n <- stack :: n in edges)
      && (forall n <- edges :: color[n] == Gray <==> n in stack)
      && (forall n <- edges :: color[n] == Black <==> n in finished)
      && IsWalk(edges, stack)
      && (forall c <- cycles :: IsCycle(edges, c))
      && (cycles == [] ==> IsFinishOrder(edges, finished))
    }

    ghost function Whites(): set<string>
      reads this
    {
      set n | n in color && color[n] == White
    }

    /** Colours `name` gray and pushes it. */
    method Enter(name: string)
      requires Valid() && name in edges && color[name] == White
      requires IsWalk(edges, stack + [name])
      modifies this`color, this`stack
      ensures Valid() && stack == old(stack) + [name]
      ensures color == old(color)[name := Gray]
    {
      color := color[name := Gray];
      stack := stack + [name];
    }

    /** Pops the node on top of the stack and colours it black. */
    method Leave()
      requires Valid() && stack != []
      requires stack[|stack| - 1] !in stack[..|stack| - 1]
      requires cycles == [] ==> forall t <- edges[stack[|stack| - 1]] :: t in finished
      modifies this`color, this`stack, this`finished
      ensures Valid() && stack == old(stack[..|stack| - 1])
      ensures color == old(color)[old(stack[|stack| - 1]) := Black]
      ensures finished == old(finished) + [old(stack[|stack| - 1])]
    {
      var name := stack[|stack| - 1];
      assert stack == stack[..|stack| - 1] + [name];
      assert forall n :: n in stack <==> n == name || n in stack[..|stack| - 1];
      stack := stack[..|stack| - 1];
      color := color[name := Black];
      assert cycles == [] ==> IsFinishOrder(edges, finished + [name]) by {
        forall i | cycles == [] && 0 <= i < |finished + [name]|
          ensures TargetsBefore(edges, finished + [name], i)
        {
          assert (finished + [name])[..i] == finished[..i];
          assert i < |finished| ==> TargetsBefore(edges, finished, i);
        }
      }
      finished := finished + [name];
    }

    /** Records the closed path that a back edge to a gray node completes. */
    method RecordCycle(target: string)
      requires Valid() && target in stack && IsEdge(edges, stack[|stack| - 1], target)
      modifies this`cycles
      ensures Valid() && cycles != [] && |cycles| > |old(cycles)|
    {
      WalkExtends(edges, stack, target);
      BackEdgeClosesCycle(edges, stack, target);
      cycles := cycles + [stack[FirstIndex(stack, target)..] + [target]];
    }

    /** Follows one edge from the top of the stack, by the colour of its target. */
    method Follow(target: string)
      requires Valid() && stack != [] && IsEdge(edges, stack[|stack| - 1], target)
      modifies this`color, this`stack, this`cycles, this`finished
      ensures Valid() && stack == old(stack)
      ensures Whites() <= old(Whites())
      ensures |cycles| >= |old(cycles)|
      ensures cycles == [] ==> target in finished
      ensures old(finished) <= finished
      decreases Whites(), 1
    {
      if color[target] == Gray {
        RecordCycle(target);
      } else if color[target] == White {
        WalkExtends(edges, stack, target);
        Visit(target);
      }
    }

    /** Follows every edge from the node on top of the stack. */
    method FollowAll(name: string)
      requires Valid() && stack != [] && stack[|stack| - 1] == name
      modifies this`color, this`stack, this`cycles, this`finished
      ensures Valid() && stack == old(stack)
      ensures Whites() <= old(Whites())
      ensures |cycles| >= |old(cycles)|
      ensures cycles == [] ==> forall t <- edges[name] :: t in finished
      ensures old(finished) <= finished
      decreases Whites(), 2
    {
      var rest := edges[name];
      while rest != {}
        invariant Valid() && stack == old(stack)
        invariant rest <= edges[name]
        invariant Whites() <= old(Whites())
        invariant |cycles| >= |old(cycles)|
        invariant cycles == [] ==> forall t <- edges[name] - rest :: t in finished
        invariant old(finished) <= finished
        decreases |rest|
      {
        var target :| target in rest;
        rest := rest - {target};
        Follow(target);
      }
    }

    /** Explores everything below `name`, recording a closed path for every back edge. */
    method Visit(name: string)
      requires Valid() && name in edges && color[name] == White
      requires IsWalk(edges, stack + [name])
      modifies this`color, this`stack, this`cycles, this`finished
      ensures Valid() && stack == old(stack) && name in finished
      ensures Whites() < old(Whites())
      ensures |cycles| >= |old(cycles)|
      ensures old(finished) <= finished
      decreases Whites(), 0
    {
      ghost var whites := Whites();
      Enter(name);
      assert Whites() <= whites - {name} && name in whites;
      FollowAll(name);
      assert stack[..|stack| - 1] == old(stack);
      Leave();
    }
  }

  /**
    The composition check: it reports nothing exactly when the graph is acyclic,
    and everything it reports is a real closed path.
   */
  method CheckCompositionCycles(edges: Edges) returns (cycles: seq<seq<string>>)
    requires Closed(edges)
    ensures cycles == [] <==> Acyclic(edges)
    ensures forall c <- cycles :: IsCycle(edges, c)
  {
    var search := new CycleSearch(edges);
    var names := edges.Keys;
    while names != {}
      invariant search.Valid() && search.edges == edges && search.stack == []
      invariant names <= edges.Keys
      invariant forall n <- edges.Keys - names :: n in search.finished
      decreases |names|
    {
      var name :| name in names;
      names := names - {name};
      if search.color[name] == White {
        search.Visit(name);
      }
    }
    cycles := search.cycles;
    if cycles == [] {
      FinishOrderIsAcyclic(edges, search.finished);
    } else {
      assert IsCycle(edges, cycles[0]);
    }
  }
}
