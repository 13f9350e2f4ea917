/**
  Content-addressed definition manifests (definitions/manifest.py).

  Tuples that the source sorts by a unique name are finite maps here, and sets
  that it sorts are sets, so no result depends on the order in which names are
  visited.
 */
module DefinitionManifests {
  import opened Wrappers
  import opened CompositionGraph
  import opened MerkleDag

  datatype Target =
    | ServiceOperation(service: string, action: string)
    | ChildWorkflow(workflow: string)

  datatype Step = Step(target: Target, requiredResources: set<string>, cache: Option<string>)

  /** The condition of one result branch. */
  datatype Condition = EvaluatorCondition(evaluator: string, resources: set<string>) | OtherCondition(text: string)

  /** `rest` stands for every authored field the build copies without reading it. */
  datatype Workflow = Workflow(
    steps: map<string, Step>, branches: seq<Condition>, onComplete: Option<string>, rest: string)

  datatype Service = Service(name: string, provider: string, contractVersion: string, policy: string)

  datatype Resource = Resource(provider: string, contractVersion: string, dependencies: seq<string>)

  /** A manifest's content apart from its child identities. */
  datatype Header = Header(
    logicalName: string,
    abi: string,
    workflow: Workflow,
    services: map<string, Service>,
    limits: map<string, int>,
    providers: set<(string, string)>,
    evaluators: set<string>)

  datatype Inputs = Inputs(
    workflows: map<string, Workflow>,
    services: map<string, Service>,
    resources: map<string, Resource>,
    limits: map<string, int>,
    abi: string,
    hash: Content<Header> -> Digest)

  // ---------------------------------------------------------------- names a workflow uses

  function Children(w: Workflow): set<string> {
    set s | s in w.steps && w.steps[s].target.ChildWorkflow? :: w.steps[s].target.workflow
  }

  function UsedServices(w: Workflow): set<string> {
    set s | s in w.steps && w.steps[s].target.ServiceOperation? :: w.steps[s].target.service
  }

  function Evaluators(w: Workflow): set<string> {
    set c | c in w.branches && c.EvaluatorCondition? :: c.evaluator
  }

  function ResourceNames(w: Workflow): set<string> {
    (if w.onComplete.Some? then {w.onComplete.value} else {})
    + (set s, r | s in w.steps && r in w.steps[s].requiredResources :: r)
    + (set s | s in w.steps && w.steps[s].cache.Some? :: w.steps[s].cache.value)
    + (set c, r | c in w.branches && c.EvaluatorCondition? && r in c.resources :: r)
  }

  // ---------------------------------------------------------------- the resource closure

  /** `walk` leads from a root to its last name along declared dependencies. */
  predicate IsDependencyWalk(resources: map<string, Resource>, roots: set<string>, walk: seq<string>) {
    walk != [] && walk[0] in roots &&
    forall i :: 0 <= i < |walk| - 1 ==>
      walk[i] in resources && walk[i + 1] in resources[walk[i]].dependencies
  }

  ghost predicate Needed(resources: map<string, Resource>, roots: set<string>, name: string) {
    exists walk: seq<string> :: IsDependencyWalk(resources, roots, walk) && walk[|walk| - 1] == name
  }

  ghost predicate ResourcesResolved(resources: map<string, Resource>, roots: set<string>) {
    forall name :: Needed(resources, roots, name) ==> name in resources
  }

  ghost function NeededContracts(resources: map<string, Resource>, roots: set<string>): set<(string, string)> {
    set r | r in resources && Needed(resources, roots, r) ::
      (resources[r].provider, resources[r].contractVersion)
  }

  lemma RootIsNeeded(resources: map<string, Resource>, roots: set<string>, name: string)
    requires name in roots
    ensures Needed(resources, roots, name)
  {
    assert IsDependencyWalk(resources, roots, [name]);
  }

  lemma DependencyIsNeeded(resources: map<string, Resource>, roots: set<string>, name: string, dependency: string)
    requires Needed(resources, roots, name)
    requires name in resources && dependency in resources[name].dependencies
    ensures Needed(resources, roots, dependency)
  {
    var walk :| IsDependencyWalk(resources, roots, walk) && walk[|walk| - 1] == name;
    assert IsDependencyWalk(resources, roots, walk + [dependency]);
  }

  /** A set holding the roots and closed under dependencies holds every needed name. */
  lemma {:induction false} ClosedSetHoldsWalk(
    resources: map<string, Resource>, roots: set<string>, closed: set<string>, walk: seq<string>, i: nat)
    requires IsDependencyWalk(resources, roots, walk) && i < |walk|
    requires roots <= closed
    requires forall r, d :: r in closed && r in resources && d in resources[r].dependencies ==> d in closed
    ensures walk[i] in closed
  {
    if i > 0 {
      ClosedSetHoldsWalk(resources, roots, closed, walk, i - 1);
    }
  }

  function Contracts(resources: map<string, Resource>, names: set<string>): set<(string, string)> {
    set name | name in names && name in resources :: (resources[name].provider, resources[name].contractVersion)
  }

  /** Everything included or pending is needed, and nothing needed can be missed. */
  ghost predicate WorklistInvariant(
    resources: map<string, Resource>, roots: set<string>, pending: seq<string>, included: set<string>)
  {
    && included <= resources.Keys
    && (forall name :: name in pending || name in included ==> Needed(resources, roots, name))
    && (forall name <- roots :: name in pending || name in included)
    && (forall name <- included, d :: d in resources[name].dependencies ==> d in pending || d in included)
  }

  lemma WorklistSkips(resources: map<string, Resource>, roots: set<string>, pending: seq<string>, included: set<string>)
    requires WorklistInvariant(resources, roots, pending, included)
    requires pending != [] && pending[|pending| - 1] in included
    ensures WorklistInvariant(resources, roots, pending[..|pending| - 1], included)
  {
    assert pending == pending[..|pending| - 1] + [pending[|pending| - 1]];
  }

  lemma WorklistIncludes(resources: map<string, Resource>, roots: set<string>, pending: seq<string>, included: set<string>)
    requires WorklistInvariant(resources, roots, pending, included)
    requires pending != [] && pending[|pending| - 1] in resources
    ensures
      var name := pending[|pending| - 1];
      WorklistInvariant(resources, roots, pending[..|pending| - 1] + resources[name].dependencies, included + {name})
  {
    var name := pending[|pending| - 1];
    assert pending == pending[..|pending| - 1] + [name];
    assert name in pending;
    forall d | d in resources[name].dependencies ensures Needed(resources, roots, d) {
      DependencyIsNeeded(resources, roots, name, d);
    }
  }

  lemma WorklistDone(resources: map<string, Resource>, roots: set<string>, included: set<string>)
    requires WorklistInvariant(resources, roots, [], included)
    ensures forall name :: name in included <==> Needed(resources, roots, name)
    ensures Contracts(resources, included) == NeededContracts(resources, roots)
  {
    forall name | Needed(resources, roots, name) ensures name in included {
      var walk :| IsDependencyWalk(resources, roots, walk) && walk[|walk| - 1] == name;
      ClosedSetHoldsWalk(resources, roots, included, walk, |walk| - 1);
    }
  }

  /** The worklist over pending resource names collects exactly the transitive closure. */
  method CollectResources(resources: map<string, Resource>, roots: set<string>, base: set<(string, string)>)
    returns (r: Result<set<(string, string)>, string>)
    ensures r.Success? <==> ResourcesResolved(resources, roots)
    ensures r.Success? ==> r.value == base + NeededContracts(resources, roots)
    ensures r.Failure? ==> Needed(resources, roots, r.error) && r.error !in resources
  {
    var contracts := base;
    var pending := ListOf(roots);
    var included: set<string> := {};
    forall name | name in pending ensures Needed(resources, roots, name) {
      RootIsNeeded(resources, roots, name);
    }
    while pending != []
      invariant WorklistInvariant(resources, roots, pending, included)
      invariant contracts == base + Contracts(resources, included)
      decreases resources.Keys - included, |pending|
    {
      var name := pending[|pending| - 1];
      assert name in pending;
      if name in included {
        WorklistSkips(resources, roots, pending, included);
        pending := pending[..|pending| - 1];
      } else {
        if name !in resources {
          return Failure(name);
        }
        WorklistIncludes(resources, roots, pending, included);
        included := included + {name};
        contracts := contracts + {(resources[name].provider, resources[name].contractVersion)};
        pending := pending[..|pending| - 1] + resources[name].dependencies;
      }
    }
    WorklistDone(resources, roots, included);
    r := Success(contracts);
  }

  /** Some enumeration of a set. */
  method ListOf(s: set<string>) returns (list: seq<string>)
    ensures forall x :: x in list <==> x in s
  {
    list := [];
    var rest := s;
    while rest != {}
      invariant forall x :: x in s <==> x in list || x in rest
      decreases |rest|
    {
      var x :| x in rest;
      list, rest := list + [x], rest - {x};
    }
  }

  // ---------------------------------------------------------------- the graph of manifests

  function ServiceContracts(services: map<string, Service>, names: set<string>): set<(string, string)> {
    set s | s in names && s in services :: (services[s].provider, services[s].contractVersion)
  }

  function SchedulingPolicies(services: map<string, Service>, names: set<string>): map<string, Service> {
    map s | s in names && s in services :: services[s]
  }

  ghost predicate NamesResolved(inputs: Inputs, w: Workflow) {
    UsedServices(w) <= inputs.services.Keys && ResourcesResolved(inputs.resources, ResourceNames(w))
  }

  ghost function HeaderOf(inputs: Inputs, name: string, w: Workflow): Header {
    Header(
      name,
      inputs.abi,
      w,
      SchedulingPolicies(inputs.services, UsedServices(w)),
      inputs.limits,
      ServiceContracts(inputs.services, UsedServices(w)) + NeededContracts(inputs.resources, ResourceNames(w)),
      Evaluators(w))
  }

  ghost function NodeOf(inputs: Inputs, name: string, w: Workflow): Node<Header> {
    Node(HeaderOf(inputs, name, w), Children(w), NamesResolved(inputs, w))
  }

  ghost function DagOf(inputs: Inputs): Dag<Header> {
    Dag(map n | n in inputs.workflows :: NodeOf(inputs, n, inputs.workflows[n]), inputs.hash)
  }

  /** `dag` is the graph of `inputs`; its headers are looked at only where `NodeOf` is mentioned. */
  ghost predicate Represents(dag: Dag<Header>, inputs: Inputs) {
    && dag.hash == inputs.hash
    && dag.nodes.Keys == inputs.workflows.Keys
    && (forall n {:trigger NodeOf(inputs, n, inputs.workflows[n])} ::
         n in inputs.workflows ==> dag.nodes[n] == NodeOf(inputs, n, inputs.workflows[n]))
  }

  /** The composition graph that the validator searches is the graph of the manifests. */
  function CompositionEdges(workflows: map<string, Workflow>): Edges {
    map n | n in workflows :: Children(workflows[n]) * workflows.Keys
  }

  lemma SameTargets(inputs: Inputs, dag: Dag<Header>, n: string)
    requires dag == DagOf(inputs) && n in inputs.workflows
    ensures n in Graph(dag) && Graph(dag)[n] == Children(inputs.workflows[n]) * inputs.workflows.Keys
  {
    assert dag.nodes[n] == NodeOf(inputs, n, inputs.workflows[n]);
    assert dag.nodes.Keys == inputs.workflows.Keys;
  }

  lemma SameEdges(e1: Edges, e2: Edges)
    requires forall n :: n in e1 <==> n in e2
    requires forall n <- e1 :: e1[n] == e2[n]
    ensures e1 == e2
  {
  }

  lemma ValidatorSearchesManifestGraph(inputs: Inputs)
    ensures CompositionEdges(inputs.workflows) == Graph(DagOf(inputs))
  {
    forall n
      ensures n in CompositionEdges(inputs.workflows) <==> n in Graph(DagOf(inputs))
      ensures n in CompositionEdges(inputs.workflows) ==>
        CompositionEdges(inputs.workflows)[n] == Graph(DagOf(inputs))[n]
    {
      if n in inputs.workflows {
        SameTargets(inputs, DagOf(inputs), n);
      }
    }
    SameEdges(CompositionEdges(inputs.workflows), Graph(DagOf(inputs)));
  }

  /** Nothing but a composition cycle or an unknown name can stop the build. */
  lemma BuildableIffValidated(inputs: Inputs)
    ensures Buildable(DagOf(inputs)) <==>
      && Acyclic(CompositionEdges(inputs.workflows))
      && forall n <- inputs.workflows :: NamesKnown(inputs, n)
  {
    ValidatorSearchesManifestGraph(inputs);
    forall n | n in inputs.workflows ensures Resolved(DagOf(inputs), n) <==> NamesKnown(inputs, n) {
      assert DagOf(inputs).nodes[n] == NodeOf(inputs, n, inputs.workflows[n]);
    }
    assert DagOf(inputs).nodes.Keys == inputs.workflows.Keys;
  }

  ghost predicate NamesKnown(inputs: Inputs, n: string)
    requires n in inputs.workflows
  {
    Children(inputs.workflows[n]) <= inputs.workflows.Keys && NamesResolved(inputs, inputs.workflows[n])
  }

  // ---------------------------------------------------------------- what a manifest depends on

  /**
    Two platforms look alike from the workflows of `region`: same hash, limits and
    engine ABI, the same workflows, services and resources reachable from there.
   */
  ghost predicate LookAlike(i1: Inputs, i2: Inputs, region: set<string>, resources: set<string>) {
    && i1.hash == i2.hash && i1.limits == i2.limits && i1.abi == i2.abi
    && (forall n <- region :: SameWorkflow(i1, i2, region, resources, n))
    && (forall q <- resources ::
         && (q in i1.resources <==> q in i2.resources)
         && (q in i1.resources ==>
              i1.resources[q] == i2.resources[q] && forall d <- i1.resources[q].dependencies :: d in resources))
  }

  ghost predicate SameWorkflow(i1: Inputs, i2: Inputs, region: set<string>, resources: set<string>, n: string) {
    && (n in i1.workflows <==> n in i2.workflows)
    && (n in i1.workflows ==>
         var w := i1.workflows[n];
         && i2.workflows[n] == w
         && Children(w) <= region && ResourceNames(w) <= resources
         && forall s <- UsedServices(w) ::
              (s in i1.services <==> s in i2.services)
              && (s in i1.services ==> i1.services[s] == i2.services[s]))
  }

  lemma {:induction false} NeededStaysInside(
    i1: Inputs, i2: Inputs, region: set<string>, resources: set<string>, roots: set<string>, walk: seq<string>, i: nat)
    requires LookAlike(i1, i2, region, resources) && roots <= resources
    requires IsDependencyWalk(i1.resources, roots, walk) && i < |walk|
    ensures walk[i] in resources
  {
    if i > 0 {
      NeededStaysInside(i1, i2, region, resources, roots, walk, i - 1);
    }
  }

  lemma NeededIsLocal(
    i1: Inputs, i2: Inputs, region: set<string>, resources: set<string>, roots: set<string>, name: string)
    requires LookAlike(i1, i2, region, resources) && roots <= resources
    requires Needed(i1.resources, roots, name)
    ensures name in resources && Needed(i2.resources, roots, name)
  {
    var walk :| IsDependencyWalk(i1.resources, roots, walk) && walk[|walk| - 1] == name;
    forall i | 0 <= i < |walk| ensures walk[i] in resources {
      NeededStaysInside(i1, i2, region, resources, roots, walk, i);
    }
    assert IsDependencyWalk(i2.resources, roots, walk);
  }

  lemma ClosureIsLocal(i1: Inputs, i2: Inputs, region: set<string>, resources: set<string>, roots: set<string>)
    requires LookAlike(i1, i2, region, resources) && roots <= resources
    ensures ResourcesResolved(i1.resources, roots) <==> ResourcesResolved(i2.resources, roots)
    ensures NeededContracts(i1.resources, roots) == NeededContracts(i2.resources, roots)
  {
    assert LookAlike(i2, i1, region, resources);
    forall name
      ensures Needed(i1.resources, roots, name) <==> Needed(i2.resources, roots, name)
      ensures Needed(i1.resources, roots, name) ==> name in resources
    {
      if Needed(i1.resources, roots, name) { NeededIsLocal(i1, i2, region, resources, roots, name); }
      if Needed(i2.resources, roots, name) { NeededIsLocal(i2, i1, region, resources, roots, name); }
    }
  }

  lemma NodeIsLocal(i1: Inputs, i2: Inputs, region: set<string>, resources: set<string>, n: string)
    requires LookAlike(i1, i2, region, resources) && n in region && n in i1.workflows
    ensures n in i2.workflows && NodeOf(i1, n, i1.workflows[n]) == NodeOf(i2, n, i2.workflows[n])
  {
    assert SameWorkflow(i1, i2, region, resources, n);
    var w := i1.workflows[n];
    ClosureIsLocal(i1, i2, region, resources, ResourceNames(w));
    var used := UsedServices(w);
    assert SchedulingPolicies(i1.services, used) == SchedulingPolicies(i2.services, used);
    assert ServiceContracts(i1.services, used) == ServiceContracts(i2.services, used);
    assert used <= i1.services.Keys <==> used <= i2.services.Keys;
  }

  /** A digest depends only on what is reachable from its workflow, the limits and the engine ABI. */
  lemma ManifestDependsOnlyOnReachable(
    i1: Inputs, i2: Inputs, region: set<string>, resources: set<string>, name: string)
    requires LookAlike(i1, i2, region, resources) && name in region
    ensures ManifestOf(DagOf(i1), name, {}) == ManifestOf(DagOf(i2), name, {})
  {
    var dag1, dag2 := DagOf(i1), DagOf(i2);
    forall n | n in region
      ensures n in dag1.nodes <==> n in dag2.nodes
      ensures n in dag1.nodes ==> dag1.nodes[n] == dag2.nodes[n] && dag1.nodes[n].children <= region
    {
      assert SameWorkflow(i1, i2, region, resources, n);
      if n in i1.workflows {
        NodeIsLocal(i1, i2, region, resources, n);
      }
    }
    ManifestIsLocal(dag1, dag2, region, name, {});
  }

  // ---------------------------------------------------------------- the memoised build

  datatype BuildError =
    | DependencyCycle(path: seq<string>)
    | MissingWorkflow(name: string)
    | MissingService(workflow: string, service: string)
    | MissingResource(workflow: string, resource: string)

  /** What each error of the build tells about the workflow set. */
  ghost predicate Justified(inputs: Inputs, dag: Dag<Header>, error: BuildError) {
    match error
    case DependencyCycle(path) =>
      path != [] && IsWalk(Graph(dag), path) && path[|path| - 1] in path[..|path| - 1]
    case MissingWorkflow(name) =>
      name !in inputs.workflows && exists n <- inputs.workflows :: name in Children(inputs.workflows[n])
    case MissingService(w, service) =>
      w in inputs.workflows && service in UsedServices(inputs.workflows[w]) && service !in inputs.services
    case MissingResource(w, resource) =>
      w in inputs.workflows && resource !in inputs.resources
      && Needed(inputs.resources, ResourceNames(inputs.workflows[w]), resource)
  }

  lemma JustifiedErrorBlocksBuild(inputs: Inputs, error: BuildError)
    requires Justified(inputs, DagOf(inputs), error)
    ensures !Buildable(DagOf(inputs))
  {
    match error
    case DependencyCycle(path) =>
      var stack, target := path[..|path| - 1], path[|path| - 1];
      assert stack + [target] == path;
      BackEdgeClosesCycle(Graph(DagOf(inputs)), stack, target);
    case MissingWorkflow(name) =>
      var n :| n in inputs.workflows && name in Children(inputs.workflows[n]);
      assert !Resolved(DagOf(inputs), n);
    case MissingService(w, _) => assert !Resolved(DagOf(inputs), w);
    case MissingResource(w, _) => assert !Resolved(DagOf(inputs), w);
  }

  method ChildNames(inputs: Inputs, ghost dag: Dag<Header>, name: string) returns (children: set<string>)
    requires Represents(dag, inputs) && name in inputs.workflows
    ensures children == dag.nodes[name].children
  {
    assert dag.nodes[name] == NodeOf(inputs, name, inputs.workflows[name]);
    children := Children(inputs.workflows[name]);
  }

  lemma UnknownChild(inputs: Inputs, dag: Dag<Header>, caller: string, name: string)
    requires Represents(dag, inputs) && caller in dag.nodes && name in dag.nodes[caller].children
    requires name !in inputs.workflows
    ensures Justified(inputs, dag, MissingWorkflow(name))
  {
    assert dag.nodes[caller] == NodeOf(inputs, caller, inputs.workflows[caller]);
  }

  class ManifestBuilder {
    const inputs: Inputs
    ghost const dag: Dag<Header>
    var built: map<string, Manifest<Header>>
    var visiting: seq<string>
    ghost var finished: seq<string>

    constructor (inputs: Inputs)
      ensures this.inputs == inputs && dag == DagOf(inputs) && Valid() && built == map[] && visiting == []
    {
      this.inputs := inputs;
      dag := DagOf(inputs);
      built, visiting, finished := map[], [], [];
    }

    ghost predicate Valid()
      reads this
    {
      && Represents(dag, inputs)
      && MemoInvariant(dag, built, finished)
      && (forall n <- visiting :: n in dag.nodes && n !in built)
      && IsWalk(Graph(dag), visiting)
    }

    ghost function Unvisited(): set<string>
      reads this
    {
      dag.nodes.Keys - set n | n in visiting
    }

    /** Either a top-level call, or a call for a child of the workflow on top of the visiting list. */
    ghost predicate CalledFor(name: string)
      reads this
    {
      if visiting == [] then
        name in dag.nodes
      else
        visiting[|visiting| - 1] in dag.nodes && name in dag.nodes[visiting[|visiting| - 1]].children
    }

    method Build(name: string) returns (r: Result<Manifest<Header>, BuildError>)
      requires Valid() && CalledFor(name)
      modifies this`built, this`visiting, this`finished
      ensures r.Failure? ==> Justified(inputs, dag, r.error)
      ensures r.Success? ==> Valid() && visiting == old(visiting) && old(built.Keys) <= built.Keys
      ensures r.Success? ==> name in built && ManifestOf(dag, name, {}) == Some(r.value)
      decreases Unvisited(), 0
    {
      if name in built {
        FinishedNode(dag, built, finished, name);
        return Success(built[name]);
      }
      if name in visiting {
        WalkExtends(Graph(dag), visiting, name);
        assert (visiting + [name])[..|visiting|] == visiting;
        return Failure(DependencyCycle(visiting + [name]));
      }
      if name !in inputs.workflows {
        UnknownChild(inputs, dag, visiting[|visiting| - 1], name);
        return Failure(MissingWorkflow(name));
      }
      WalkExtends(Graph(dag), visiting, name);
      visiting := visiting + [name];
      assert name in old(Unvisited()) && Unvisited() == old(Unvisited()) - {name};
      var children := BuildChildren(name);
      if children.Failure? {
        return Failure(children.error);
      }
      visiting := visiting[..|visiting| - 1];
      assert visiting == old(visiting);
      r := Assemble(name, children.value);
    }

    /** Builds one child and records its digest. */
    method BuildChild(child: string, digests: map<string, Digest>) returns (r: Result<map<string, Digest>, BuildError>)
      requires Valid() && visiting != [] && CalledFor(child) && Commits(dag, digests)
      modifies this`built, this`visiting, this`finished
      ensures r.Failure? ==> Justified(inputs, dag, r.error)
      ensures r.Success? ==> Valid() && visiting == old(visiting) && old(built.Keys) <= built.Keys
      ensures r.Success? ==> child in built && r.value.Keys == digests.Keys + {child} && Commits(dag, r.value)
      decreases Unvisited(), 1
    {
      var manifest := Build(child);
      if manifest.Failure? {
        return Failure(manifest.error);
      }
      r := Success(digests[child := manifest.value.digest]);
    }

    /** Builds the children of the workflow on top of the visiting list. */
    method BuildChildren(name: string) returns (r: Result<map<string, Digest>, BuildError>)
      requires Valid() && visiting != [] && visiting[|visiting| - 1] == name && name in inputs.workflows
      modifies this`built, this`visiting, this`finished
      ensures r.Failure? ==> Justified(inputs, dag, r.error)
      ensures r.Success? ==> Valid() && visiting == old(visiting) && old(built.Keys) <= built.Keys
      ensures r.Success? ==> r.value.Keys == dag.nodes[name].children <= built.Keys && Commits(dag, r.value)
      decreases Unvisited(), 2
    {
      ghost var children := dag.nodes[name].children;
      var rest := ChildNames(inputs, dag, name);
      var digests: map<string, Digest> := map[];
      while rest != {}
        invariant Valid() && visiting == old(visiting) && old(built.Keys) <= built.Keys
        invariant forall c :: c in children <==> c in rest || c in digests
        invariant digests.Keys <= built.Keys && Commits(dag, digests)
        decreases |rest|
      {
        var child :| child in rest;
        assert child in children;
        var more := BuildChild(child, digests);
        if more.Failure? {
          return more;
        }
        digests := more.value;
        rest := rest - {child};
      }
      r := Success(digests);
    }

    /** Seals the manifest of a workflow whose children are built, and stores it. */
    method Assemble(name: string, children: map<string, Digest>) returns (r: Result<Manifest<Header>, BuildError>)
      requires Valid() && name in dag.nodes && name !in built && name !in visiting
      requires children.Keys == dag.nodes[name].children <= built.Keys && Commits(dag, children)
      modifies this`built, this`finished
      ensures r.Failure? ==> Justified(inputs, dag, r.error)
      ensures r.Success? ==> Valid() && old(built.Keys) <= built.Keys
      ensures r.Success? ==> name in built && ManifestOf(dag, name, {}) == Some(r.value)
    {
      var header := AssembleHeader(inputs, name);
      if header.Failure? {
        return Failure(header.error);
      }
      assert dag.nodes[name] == NodeOf(inputs, name, inputs.workflows[name]);
      var content := Content(header.value, children);
      var manifest := Manifest(content, inputs.hash(content));
      NewMemoEntry(dag, built, finished, name, children, manifest);
      built := built[name := manifest];
      finished := finished + [name];
      FinishedNode(dag, built, finished, name);
      r := Success(manifest);
    }

    method BuildAll() returns (r: Result<map<string, Manifest<Header>>, BuildError>)
      requires Valid() && visiting == []
      modifies this`built, this`visiting, this`finished
      ensures r.Failure? ==> Justified(inputs, dag, r.error)
      ensures r.Success? ==> Buildable(dag) && r.value.Keys == dag.nodes.Keys
      ensures r.Success? ==> forall n <- r.value :: ManifestOf(dag, n, {}) == Some(r.value[n])
    {
      var names := inputs.workflows.Keys;
      while names != {}
        invariant Valid() && visiting == []
        invariant names <= dag.nodes.Keys <= built.Keys + names
        decreases |names|
      {
        var name :| name in names;
        names := names - {name};
        var manifest := Build(name);
        if manifest.Failure? {
          return Failure(manifest.error);
        }
      }
      CompleteMemo(dag, built, finished);
      r := Success(built);
    }
  }

  /** The part of a manifest that does not depend on the children. */
  method AssembleHeader(inputs: Inputs, name: string) returns (r: Result<Header, BuildError>)
    requires name in inputs.workflows
    ensures r.Success? <==> NamesResolved(inputs, inputs.workflows[name])
    ensures r.Success? ==> r.value == HeaderOf(inputs, name, inputs.workflows[name])
    ensures r.Failure? ==> forall dag :: Justified(inputs, dag, r.error)
  {
    var workflow := inputs.workflows[name];
    var used := UsedServices(workflow);
    var missing := used - inputs.services.Keys;
    if missing != {} {
      var service :| service in missing;
      return Failure(MissingService(name, service));
    }
    assert used <= inputs.services.Keys by {
      assert forall service <- used :: service in inputs.services || service in missing;
    }
    var contracts := CollectResources(inputs.resources, ResourceNames(workflow), ServiceContracts(inputs.services, used));
    if contracts.Failure? {
      return Failure(MissingResource(name, contracts.error));
    }
    r := Success(Header(name, inputs.abi, workflow, SchedulingPolicies(inputs.services, used),
                        inputs.limits, contracts.value, Evaluators(workflow)));
  }

  lemma NewMemoEntry(
    dag: Dag<Header>, built: map<string, Manifest<Header>>, finished: seq<string>,
    name: string, digests: map<string, Digest>, manifest: Manifest<Header>)
    requires MemoInvariant(dag, built, finished) && name !in built && name in dag.nodes
    requires dag.nodes[name].resolved && digests.Keys == dag.nodes[name].children <= built.Keys
    requires Commits(dag, digests)
    requires manifest == Sealed(dag, Content(dag.nodes[name].header, digests))
    ensures MemoInvariant(dag, built[name := manifest], finished + [name])
  {
    forall c | c in digests ensures c in dag.nodes && c in finished && digests[c] == built[c].digest {
      FinishedNode(dag, built, finished, c);
    }
    assert ChildDigests(digests.Keys, built[name := manifest]) == digests;
    MemoGrows(dag, built, finished, name, manifest);
  }

  /**
    The whole build.  It succeeds exactly on the acyclic, fully resolved
    workflow sets, and then returns for every workflow the manifest of the
    unmemoised recursion.
   */
  method BuildDefinitionManifests(inputs: Inputs) returns (r: Result<map<string, Manifest<Header>>, BuildError>)
    ensures r.Success? <==> Buildable(DagOf(inputs))
    ensures r.Failure? ==> Justified(inputs, DagOf(inputs), r.error)
    ensures r.Success? ==> r.value.Keys == inputs.workflows.Keys
    ensures r.Success? ==> forall n <- r.value :: ManifestOf(DagOf(inputs), n, {}) == Some(r.value[n])
  {
    var builder := new ManifestBuilder(inputs);
    r := builder.BuildAll();
    if r.Failure? {
      JustifiedErrorBlocksBuild(inputs, r.error);
    }
  }
}
