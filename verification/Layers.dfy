/** `ExecutionDAG::analyze` and `find_parallelizable_groups`: depth by longest
    dependency chain, and the layers of steps that can run side by side. */
module PipelineLayers {
  import opened DependencyGraph
  import opened ExecutionGraph
  import opened KahnSort

  /** `p` is a dependency chain that ends at `v`. */
  predicate Chain(steps: Steps, p: seq<string>, v: string) { IsPath(steps, p) && p[|p| - 1] == v }

  /** The longest dependency chain that ends at `v` has `d` edges. */
  ghost predicate IsDepth(steps: Steps, v: string, d: nat) {
    && (exists p :: Chain(steps, p, v) && |p| == d + 1)
    && forall p :: Chain(steps, p, v) ==> |p| <= d + 1
  }

  lemma DepthUnique(steps: Steps, v: string, d: nat, e: nat)
    requires IsDepth(steps, v, d) && IsDepth(steps, v, e)
    ensures d == e
  {
    var p :| Chain(steps, p, v) && |p| == d + 1;
    var q :| Chain(steps, q, v) && |q| == e + 1;
  }

  lemma ChainStep(steps: Steps, p: seq<string>, u: string, v: string)
    requires Chain(steps, p, u) && Edge(steps, u, v)
    ensures Chain(steps, p + [v], v)
  {
    PathSnoc(steps, p, v);
  }

  lemma ChainBack(steps: Steps, p: seq<string>, v: string)
    requires Chain(steps, p, v) && |p| >= 2
    ensures Edge(steps, p[|p| - 2], v) && Chain(steps, p[..|p| - 1], p[|p| - 2])
  {
    assert Edge(steps, p[|p| - 2], p[|p| - 1]);
    PathSlice(steps, p, 0, |p| - 1);
    assert p[0..|p| - 1] == p[..|p| - 1];
  }

  /** A need is strictly shallower. */
  lemma DepthAbove(steps: Steps, u: string, v: string, d: nat, e: nat)
    requires IsDepth(steps, u, d) && IsDepth(steps, v, e) && Edge(steps, u, v)
    ensures d < e
  {
    var p :| Chain(steps, p, u) && |p| == d + 1;
    ChainStep(steps, p, u, v);
  }

  /** Something one layer up is needed. */
  lemma DepthBelow(steps: Steps, v: string, e: nat) returns (u: string)
    requires IsDepth(steps, v, e + 1)
    ensures Edge(steps, u, v) && IsDepth(steps, u, e)
  {
    var p :| Chain(steps, p, v) && |p| == e + 2;
    ChainBack(steps, p, v);
    u := p[|p| - 2];
    forall q | Chain(steps, q, u) ensures |q| <= e + 1 { ChainStep(steps, q, u, v); }
  }

  lemma DepthZero(steps: Steps, v: string)
    requires forall u :: !Edge(steps, u, v)
    ensures IsDepth(steps, v, 0)
  {
    assert Chain(steps, [v], v);
    forall p | Chain(steps, p, v) ensures |p| <= 1 { if |p| >= 2 { ChainBack(steps, p, v); } }
  }

  /** One more than the deepest need. */
  lemma DepthNext(steps: Steps, depths: map<string, nat>, v: string, deepest: string)
    requires Edge(steps, deepest, v) && deepest in depths
    requires forall u :: Edge(steps, u, v) ==>
               u in depths && IsDepth(steps, u, depths[u]) && depths[u] <= depths[deepest]
    ensures IsDepth(steps, v, depths[deepest] + 1)
  {
    var q :| Chain(steps, q, deepest) && |q| == depths[deepest] + 1;
    ChainStep(steps, q, deepest, v);
    forall p | Chain(steps, p, v) ensures |p| <= depths[deepest] + 2 {
      if |p| >= 2 { ChainBack(steps, p, v); }
    }
  }

  lemma KnownNeed(steps: Steps, u: string, v: string)
    requires AllKnown(steps) && Edge(steps, u, v)
    ensures u in steps
  {
  }

  /** The steps that `node` needs, each once, in some order. */
  method GetDependencies(dag: Dag, node: string, ghost steps: Steps) returns (dependencies: seq<string>)
    requires Represents(dag, steps) && AllKnown(steps)
    ensures Distinct(dependencies) && forall u :: u in dependencies <==> Edge(steps, u, node)
  {
    hide AllKnown;
    dependencies := [];
    var rest := dag.edges.Keys;
    while rest != {}
      invariant rest <= steps.Keys && Distinct(dependencies)
      invariant forall u :: u in dependencies <==> u in steps && u !in rest && Edge(steps, u, node)
      decreases rest
    {
      var from :| from in rest;
      EdgesAreNeeds(dag, steps, from, node);
      if node in dag.edges[from] { dependencies := dependencies + [from]; }
      rest := rest - {from};
    }
    forall u | Edge(steps, u, node) ensures u in steps { KnownNeed(steps, u, node); }
  }

  /** One more than the largest depth among `dependencies`, or zero without any. */
  method DepthOver(depths: map<string, nat>, dependencies: seq<string>) returns (depth: nat, ghost deepest: string)
    requires forall u <- dependencies :: u in depths
    ensures dependencies == [] ==> depth == 0
    ensures dependencies != [] ==>
      && deepest in dependencies && depth == depths[deepest] + 1
      && forall u <- dependencies :: depths[u] <= depths[deepest]
  {
    if dependencies == [] { return 0, ""; }
    var top := depths[dependencies[0]];
    deepest := dependencies[0];
    for i := 1 to |dependencies|
      invariant deepest in dependencies && depths[deepest] == top
      invariant forall k :: 0 <= k < i ==> depths[dependencies[k]] <= top
    {
      assert dependencies[i] in dependencies;
      if depths[dependencies[i]] >= top {
        top := depths[dependencies[i]];
        deepest := dependencies[i];
      }
    }
    depth := top + 1;
  }

  /** `depths` gives each of `nodes` its longest-chain depth. */
  ghost predicate DepthsOf(steps: Steps, depths: map<string, nat>, nodes: seq<string>) {
    (forall v :: v in depths <==> v in nodes) && forall v <- nodes :: IsDepth(steps, v, depths[v])
  }

  /** `top` is the largest depth listed, zero for an empty list. */
  ghost predicate Deepest(depths: map<string, nat>, nodes: seq<string>, top: nat) {
    && (forall v <- nodes :: v in depths && depths[v] <= top)
    && (if nodes == [] then top == 0 else exists v <- nodes :: v in depths && depths[v] == top)
  }

  lemma DepthsMore(steps: Steps, depths: map<string, nat>, nodes: seq<string>, v: string, d: nat)
    requires DepthsOf(steps, depths, nodes) && IsDepth(steps, v, d)
    ensures DepthsOf(steps, depths[v := d], nodes + [v])
  {
    hide IsDepth;
    forall u <- nodes + [v] ensures IsDepth(steps, u, depths[v := d][u]) {
      if u != v { assert u in nodes; }
    }
  }

  lemma DeepestMore(depths: map<string, nat>, nodes: seq<string>, top: nat, v: string, d: nat)
    requires Deepest(depths, nodes, top) && v !in nodes
    ensures Deepest(depths[v := d], nodes + [v], if d > top then d else top)
  {
    var more := depths[v := d];
    var longer := nodes + [v];
    assert longer[|nodes|] == v;
    if d <= top && nodes != [] {
      var u :| u in nodes && u in depths && depths[u] == top;
      assert u in longer && more[u] == top;
    } else if d > top || nodes == [] {
      assert v in longer && more[v] == d;
    }
  }

  lemma DepthHere(steps: Steps, depths: map<string, nat>, sorted: seq<string>, i: nat,
                  dependencies: seq<string>, depth: nat, deepest: string)
    requires Ordered(steps, sorted) && i < |sorted| && DepthsOf(steps, depths, sorted[..i])
    requires forall u :: u in dependencies <==> Edge(steps, u, sorted[i])
    requires dependencies == [] ==> depth == 0
    requires dependencies != [] ==>
      && deepest in dependencies && deepest in depths && depth == depths[deepest] + 1
      && forall u <- dependencies :: u in depths && depths[u] <= depths[deepest]
    ensures IsDepth(steps, sorted[i], depth)
  {
    hide IsDepth;
    var v := sorted[i];
    if dependencies == [] {
      forall u ensures !Edge(steps, u, v) { assert u !in dependencies; }
      DepthZero(steps, v);
    } else {
      forall u | Edge(steps, u, v) ensures u in depths && IsDepth(steps, u, depths[u]) && depths[u] <= depths[deepest] {
        assert u in dependencies && u in sorted[..i];
      }
      DepthNext(steps, depths, v, deepest);
    }
  }

  lemma NeedsDone(steps: Steps, depths: map<string, nat>, sorted: seq<string>, i: nat, dependencies: seq<string>)
    requires Ordered(steps, sorted) && i < |sorted| && DepthsOf(steps, depths, sorted[..i])
    requires forall u :: u in dependencies <==> Edge(steps, u, sorted[i])
    ensures forall u <- dependencies :: u in depths
  {
    hide IsDepth;
    forall u <- dependencies ensures u in depths { assert Edge(steps, u, sorted[i]); assert u in sorted[..i]; }
  }

  datatype Analysis = Analysis(totalNodes: nat, maxDepth: nat, nodeDepths: map<string, nat>, groups: seq<seq<string>>)

  /** The layering that `groups` must be: layer `k` is the nodes of depth `k`, each once,
      and no layer is empty. */
  ghost predicate Layered(steps: Steps, groups: seq<seq<string>>) {
    && (forall k :: 0 <= k < |groups| ==> groups[k] != [] && Distinct(groups[k]))
    && (forall k, v :: 0 <= k < |groups| ==> (v in groups[k] <==> v in steps && IsDepth(steps, v, k)))
    && (forall v <- steps :: exists k :: 0 <= k < |groups| && v in groups[k])
  }

  lemma LayerCount(steps: Steps, groups: seq<seq<string>>, depths: map<string, nat>, nodes: seq<string>, top: nat)
    requires Layered(steps, groups) && Permutation(steps, nodes)
    requires DepthsOf(steps, depths, nodes) && Deepest(depths, nodes, top)
    ensures |groups| == if |steps| == 0 then 0 else top + 1
  {
    hide IsDepth, Distinct;
    if |groups| > 0 {
      var n := |groups| - 1;
      var v := groups[n][0];
      assert v in groups[n] && v in nodes;
      DepthUnique(steps, v, n, depths[v]);
      assert n <= top;
    }
    if nodes != [] {
      var v :| v in nodes && v in depths && depths[v] == top;
      var k :| 0 <= k < |groups| && v in groups[k];
      DepthUnique(steps, v, k, top);
    }
    if |steps| == 0 { assert steps.Keys == {}; }
    if nodes == [] { assert steps.Keys == {}; }
  }

  /** The remaining nodes none of whose needs remain, in some order. */
  method CurrentGroup(dag: Dag, ghost steps: Steps, remaining: set<string>) returns (group: seq<string>)
    requires Represents(dag, steps) && AllKnown(steps) && remaining <= steps.Keys
    ensures Distinct(group) && forall v :: v in group <==> v in remaining && !NeedsWithin(steps, remaining, v)
  {
    hide Represents, AllKnown;
    group := [];
    var rest := remaining;
    while rest != {}
      invariant rest <= remaining && Distinct(group)
      invariant forall v :: v in group <==> v in remaining && v !in rest && !NeedsWithin(steps, remaining, v)
      decreases rest
    {
      var node :| node in rest;
      var dependencies := GetDependencies(dag, node, steps);
      assert (exists d <- dependencies :: d in remaining) <==> NeedsWithin(steps, remaining, node) by {
        if NeedsWithin(steps, remaining, node) {
          var d :| d in steps[node] && d in remaining;
          assert Edge(steps, d, node);
        }
      }
      if forall d <- dependencies :: d !in remaining { group := group + [node]; }
      rest := rest - {node};
    }
  }

  /** The first layers are made and `remaining` holds everything deeper. */
  ghost predicate Peeled(steps: Steps, depths: map<string, nat>, groups: seq<seq<string>>, remaining: set<string>) {
    && remaining <= steps.Keys && depths.Keys == steps.Keys
    && (forall v <- steps :: v in remaining <==> depths[v] >= |groups|)
    && (forall k :: 0 <= k < |groups| ==> groups[k] != [] && Distinct(groups[k]))
    && (forall k, v :: 0 <= k < |groups| ==> (v in groups[k] <==> v in steps && depths[v] == k))
  }

  lemma PeelFacts(steps: Steps, depths: map<string, nat>, groups: seq<seq<string>>, remaining: set<string>)
    requires Peeled(steps, depths, groups, remaining)
    ensures remaining <= steps.Keys
  {
  }

  lemma PeelEnd(steps: Steps, depths: map<string, nat>, groups: seq<seq<string>>)
    requires Peeled(steps, depths, groups, {}) && forall v <- steps :: v in depths && IsDepth(steps, v, depths[v])
    ensures Layered(steps, groups)
  {
    hide IsDepth, Distinct;
    forall k, v | 0 <= k < |groups| ensures v in groups[k] <==> v in steps && IsDepth(steps, v, k) {
      if v in steps && IsDepth(steps, v, k) { DepthUnique(steps, v, k, depths[v]); }
    }
    forall v <- steps ensures exists k :: 0 <= k < |groups| && v in groups[k] {
      assert v in groups[depths[v]];
    }
  }

  /** Of the nodes at depth `k` and deeper, those with no need among them are at depth `k`. */
  lemma LayerTest(steps: Steps, depths: map<string, nat>, remaining: set<string>, k: nat, v: string)
    requires AllKnown(steps) && depths.Keys == steps.Keys && forall u <- steps :: IsDepth(steps, u, depths[u])
    requires remaining <= steps.Keys && v in remaining && forall u <- steps :: u in remaining <==> depths[u] >= k
    ensures NeedsWithin(steps, remaining, v) <==> depths[v] != k
  {
    hide IsDepth;
    if depths[v] == k {
      forall d | d in steps[v] ensures d !in remaining {
        KnownNeed(steps, d, v);
        DepthAbove(steps, d, v, depths[d], depths[v]);
      }
    } else {
      var u := DepthBelow(steps, v, depths[v] - 1);
      KnownNeed(steps, u, v);
      DepthUnique(steps, u, depths[u], depths[v] - 1);
      assert u in steps[v] && u in remaining;
    }
  }

  lemma PeelStep(steps: Steps, depths: map<string, nat>, groups: seq<seq<string>>, remaining: set<string>,
                 group: seq<string>)
    requires Peeled(steps, depths, groups, remaining) && AllKnown(steps)
    requires depths.Keys == steps.Keys && forall v <- steps :: IsDepth(steps, v, depths[v])
    requires exists v :: v in remaining && !NeedsWithin(steps, remaining, v)
    requires Distinct(group) && forall v :: v in group <==> v in remaining && !NeedsWithin(steps, remaining, v)
    ensures group != [] && Peeled(steps, depths, groups + [group], remaining - set v <- group)
    ensures remaining - (set v <- group) < remaining
  {
    hide NeedsWithin, Distinct, AllKnown, IsDepth;
    var first :| first in remaining && !NeedsWithin(steps, remaining, first);
    assert first in group;
    forall v | v in remaining ensures v in group <==> depths[v] == |groups| {
      LayerTest(steps, depths, remaining, |groups|, v);
    }
    var more := groups + [group];
    var rest := remaining - set v <- group;
    assert first !in rest;
    forall v <- steps ensures v in rest <==> depths[v] >= |more| { }
    forall k, v | 0 <= k < |more| ensures v in more[k] <==> v in steps && depths[v] == k {
      if k < |groups| { assert more[k] == groups[k]; } else { assert v in group ==> v in remaining; }
    }
  }

  lemma PeelStart(steps: Steps, depths: map<string, nat>, remaining: set<string>)
    requires depths.Keys == steps.Keys && remaining == steps.Keys
    ensures Peeled(steps, depths, [], remaining)
  {
  }

  /** Peels off, layer by layer, the nodes whose needs are all gone; every pass removes
      at least one, so the loop ends. */
  method FindParallelizableGroups(dag: Dag, ghost steps: Steps, ghost depths: map<string, nat>)
    returns (groups: seq<seq<string>>)
    requires Represents(dag, steps) && AllKnown(steps) && Acyclic(steps)
    requires depths.Keys == steps.Keys && forall v <- steps :: IsDepth(steps, v, depths[v])
    ensures Layered(steps, groups)
  {
    hide Represents, AllKnown, Acyclic, Edge, Layered, Ordered, Peeled, IsDepth, NeedsWithin;
    var order := TopologicalSort(dag, steps);
    var remaining := set v <- order.value;
    groups := [];
    PeelStart(steps, depths, remaining);
    while remaining != {}
      invariant Peeled(steps, depths, groups, remaining)
      decreases remaining
    {
      PeelFacts(steps, depths, groups, remaining);
      SourceExists(steps, remaining);
      var currentGroup := CurrentGroup(dag, steps, remaining);
      PeelStep(steps, depths, groups, remaining, currentGroup);
      remaining := remaining - (set v <- currentGroup);
      if currentGroup != [] { groups := groups + [currentGroup]; }
    }
    PeelEnd(steps, depths, groups);
  }

  lemma NothingYet(steps: Steps)
    ensures DepthsOf(steps, map[], []) && Deepest(map[], [], 0)
  {
  }

  lemma SameNodes(steps: Steps, depths: map<string, nat>, sorted: seq<string>, nodes: seq<string>, top: nat)
    requires Permutation(steps, sorted) && Permutation(steps, nodes)
    requires DepthsOf(steps, depths, sorted) && Deepest(depths, sorted, top)
    ensures DepthsOf(steps, depths, nodes) && Deepest(depths, nodes, top)
    ensures depths.Keys == steps.Keys && forall v <- steps :: IsDepth(steps, v, depths[v])
  {
    hide IsDepth, Distinct;
    assert forall v :: v in sorted <==> v in nodes;
    if nodes != [] { assert nodes[0] in sorted; }
    if sorted != [] { assert sorted[0] in nodes; }
  }

  /** Depths are longest chains, the layers are the depth classes, and there is one
      more layer than the maximal depth. */
  method Analyze(dag: Dag, ghost steps: Steps) returns (analysis: Analysis)
    requires Represents(dag, steps) && AllKnown(steps) && Acyclic(steps)
    ensures analysis.totalNodes == |steps|
    ensures DepthsOf(steps, analysis.nodeDepths, dag.nodes)
    ensures Deepest(analysis.nodeDepths, dag.nodes, analysis.maxDepth)
    ensures Layered(steps, analysis.groups)
    ensures |analysis.groups| == if |steps| == 0 then 0 else analysis.maxDepth + 1
  {
    hide Represents, AllKnown, Acyclic, Edge, DepthsOf, Deepest, Layered, Ordered, IsDepth;
    var order := TopologicalSort(dag, steps);
    var sorted := order.value;
    var depths: map<string, nat> := map[];
    var maxDepth := 0;
    NothingYet(steps);
    assert sorted[..0] == [];
    for i := 0 to |sorted|
      invariant DepthsOf(steps, depths, sorted[..i]) && Deepest(depths, sorted[..i], maxDepth)
    {
      var node := sorted[i];
      var dependencies := GetDependencies(dag, node, steps);
      NeedsDone(steps, depths, sorted, i, dependencies);
      var depth, deepest := DepthOver(depths, dependencies);
      DepthHere(steps, depths, sorted, i, dependencies, depth, deepest);
      DepthsMore(steps, depths, sorted[..i], node, depth);
      DeepestMore(depths, sorted[..i], maxDepth, node, depth);
      assert sorted[..i + 1] == sorted[..i] + [node];
      depths := depths[node := depth];
      maxDepth := if depth > maxDepth then depth else maxDepth;
    }
    assert sorted[..|sorted|] == sorted;
    NodeList(dag, steps);
    Sizes(steps, dag.nodes, dag.nodes);
    SameNodes(steps, depths, sorted, dag.nodes, maxDepth);
    var groups := FindParallelizableGroups(dag, steps, depths);
    LayerCount(steps, groups, depths, dag.nodes, maxDepth);
    return Analysis(|dag.nodes|, maxDepth, depths, groups);
  }
}
