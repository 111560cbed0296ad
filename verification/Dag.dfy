/** `ExecutionDAG::build` (`pipeline/dag.rs`): the graph and its cycle detection. Hash-map
    iteration order is an arbitrary choice throughout. */
module ExecutionGraph {
  import opened Outcome
  import opened DependencyGraph

  datatype Dag = Dag(nodes: seq<string>, edges: map<string, seq<string>>)

  /** Occurrences of `x`. */
  function Count(xs: seq<string>, x: string): nat { multiset(xs)[x] }

  /** How often `edges[u]` must name `v`: once per mention of `u` in what `v` needs. */
  function Mentions(steps: Steps, u: string, v: string): nat {
    if v in steps then Count(steps[v], u) else 0
  }

  /** The nodes are the steps, once each, and the edges mirror the needs with multiplicity. */
  ghost predicate Represents(dag: Dag, steps: Steps) {
    && Permutation(steps, dag.nodes)
    && dag.edges.Keys == steps.Keys
    && forall u, v :: u in steps ==> Count(dag.edges[u], v) == Mentions(steps, u, v)
  }

  lemma CountSnoc(xs: seq<string>, x: string, y: string)
    ensures Count(xs + [x], y) == Count(xs, y) + if x == y then 1 else 0
  {
  }

  lemma CountIn(xs: seq<string>, x: string)
    ensures Count(xs, x) > 0 <==> x in xs
  {
  }

  /** The edges of a represented graph are the dependency edges. */
  lemma EdgesAreNeeds(dag: Dag, steps: Steps, u: string, v: string)
    requires Represents(dag, steps) && u in steps
    ensures v in dag.edges[u] <==> Edge(steps, u, v)
  {
    CountIn(dag.edges[u], v);
    if v in steps { CountIn(steps[v], u); }
  }

  /** Some iteration order of the keys. */
  method IterationOrder(steps: Steps) returns (order: seq<string>)
    ensures Permutation(steps, order)
  {
    order := [];
    var rest := steps.Keys;
    while rest != {}
      invariant rest <= steps.Keys && Distinct(order)
      invariant forall v :: v in order <==> v in steps && v !in rest
      decreases rest
    {
      var v :| v in rest;
      order := order + [v];
      rest := rest - {v};
    }
  }

  /** The edge counts once the steps before `i` and the first `j` needs of step `i` are in. */
  ghost predicate Filled(steps: Steps, order: seq<string>, edges: map<string, seq<string>>, i: nat, j: nat)
    requires i <= |order| && forall v <- order :: v in steps
  {
    && edges.Keys == steps.Keys
    && forall u, v :: u in steps ==>
         Count(edges[u], v) ==
           if v in order[..i] then Mentions(steps, u, v)
           else if i < |order| && v == order[i] && j <= |steps[v]| then Count(steps[v][..j], u)
           else 0
  }

  lemma FilledStepAt(steps: Steps, order: seq<string>, edges: map<string, seq<string>>, i: nat, j: nat,
                     u: string, v: string)
    requires Distinct(order) && i < |order| && (forall v <- order :: v in steps)
    requires j < |steps[order[i]]| && steps[order[i]][j] in steps && u in steps && u in edges
    requires
      Count(edges[u], v) ==
        if v in order[..i] then Mentions(steps, u, v) else if v == order[i] then Count(steps[v][..j], u) else 0
    ensures
      var name, dep := order[i], steps[order[i]][j];
      Count(if u == dep then edges[u] + [name] else edges[u], v) ==
        if v in order[..i] then Mentions(steps, u, v) else if v == name then Count(steps[v][..j + 1], u) else 0
  {
    hide Count;
    var name, dep := order[i], steps[order[i]][j];
    assert name !in order[..i];
    CountSnoc(edges[u], name, v);
    assert steps[name][..j + 1] == steps[name][..j] + [dep];
    CountSnoc(steps[name][..j], dep, u);
  }

  lemma FilledStep(steps: Steps, order: seq<string>, edges: map<string, seq<string>>, i: nat, j: nat)
    requires Distinct(order) && i < |order| && (forall v <- order :: v in steps)
    requires j < |steps[order[i]]| && steps[order[i]][j] in steps
    requires Filled(steps, order, edges, i, j)
    ensures
      var dep := steps[order[i]][j];
      Filled(steps, order, edges[dep := edges[dep] + [order[i]]], i, j + 1)
  {
    var name := order[i];
    var dep := steps[name][j];
    var edges' := edges[dep := edges[dep] + [name]];
    hide Count, Mentions;
    forall u, v | u in steps
      ensures Count(edges'[u], v) ==
        if v in order[..i] then Mentions(steps, u, v) else if v == name then Count(steps[v][..j + 1], u) else 0
    {
      FilledStepAt(steps, order, edges, i, j, u, v);
    }
  }

  lemma FilledNext(steps: Steps, order: seq<string>, edges: map<string, seq<string>>, i: nat)
    requires i < |order| && (forall v <- order :: v in steps) && Distinct(order)
    requires Filled(steps, order, edges, i, |steps[order[i]]|)
    ensures Filled(steps, order, edges, i + 1, 0)
  {
    var name := order[i];
    assert steps[name][..|steps[name]|] == steps[name];
    assert order[..i + 1] == order[..i] + [name];
    forall u, v | u in steps
      ensures Count(edges[u], v) == if v in order[..i + 1] then Mentions(steps, u, v) else 0
    {
    }
  }

  lemma FilledEnd(steps: Steps, order: seq<string>, edges: map<string, seq<string>>)
    requires Permutation(steps, order) && Filled(steps, order, edges, |order|, 0)
    ensures Represents(Dag(order, edges), steps)
  {
    assert order[..|order|] == order;
  }

  lemma KnownInOrder(steps: Steps, order: seq<string>)
    requires Permutation(steps, order)
    requires forall k :: 0 <= k < |order| ==> order[k] in steps && forall d <- steps[order[k]] :: d in steps
    ensures AllKnown(steps)
  {
    forall v <- steps, d <- steps[v] ensures d in steps {
      assert v in order;
      var k :| 0 <= k < |order| && order[k] == v;
    }
  }

  lemma FilledKeys(steps: Steps, order: seq<string>, edges: map<string, seq<string>>, i: nat, j: nat)
    requires i <= |order| && (forall v <- order :: v in steps)
    requires Filled(steps, order, edges, i, j)
    ensures edges.Keys == steps.Keys
  {
  }

  lemma FilledStart(steps: Steps, order: seq<string>, edges: map<string, seq<string>>)
    requires Permutation(steps, order) && edges == map v <- steps :: []
    ensures Filled(steps, order, edges, 0, 0)
  {
    forall u, v | u in steps
      ensures Count(edges[u], v) == if 0 < |order| && v == order[0] then Count(steps[v][..0], u) else 0
    {
    }
  }

  /** Adjacency lists from the `needs` of every step. */
  method Connect(steps: Steps) returns (dag: Result<Dag>)
    ensures dag.Ok? <==> AllKnown(steps)
    ensures dag.Ok? ==> Represents(dag.value, steps)
  {
    hide Filled, Represents;
    var order := IterationOrder(steps);
    var edges: map<string, seq<string>> := map v <- steps :: [];
    FilledStart(steps, order, edges);
    for i := 0 to |order|
      invariant Filled(steps, order, edges, i, 0)
      invariant forall k :: 0 <= k < i ==> forall d <- steps[order[k]] :: d in steps
    {
      var name := order[i];
      assert name in order;
      var needs := steps[name];
      for j := 0 to |needs|
        invariant Filled(steps, order, edges, i, j)
        invariant forall k :: 0 <= k < j ==> needs[k] in steps
      {
        FilledKeys(steps, order, edges, i, j);
        if needs[j] in edges {
          FilledStep(steps, order, edges, i, j);
          edges := edges[needs[j] := edges[needs[j]] + [name]];
        } else {
          assert needs[j] in steps[name] && needs[j] !in steps;
          return Err;
        }
      }
      FilledNext(steps, order, edges, i);
    }
    FilledEnd(steps, order, edges);
    KnownInOrder(steps, order);
    return Ok(Dag(order, edges));
  }

  // ---------------------------------------------------------------------
  // Cycle detection
  // ---------------------------------------------------------------------

  /** What the search knows between calls: `open` is the path of calls under way and
      `finished` the nodes done with, each after everything that needs it. */
  ghost predicate Searching(steps: Steps, visited: set<string>, recStack: set<string>,
                            open: seq<string>, finished: seq<string>) {
    && (forall v :: v in recStack <==> v in open)
    && (forall v :: v in visited <==> v in open || v in finished)
    && (forall v :: v in open ==> v !in finished)
    && (forall v <- visited :: v in steps)
    && Distinct(open) && Distinct(finished) && DependentsFirst(steps, finished)
    && (open != [] ==> IsPath(steps, open))
  }

  lemma OpenMore(steps: Steps, open: seq<string>, node: string)
    requires open != [] ==> IsPath(steps, open) && Edge(steps, open[|open| - 1], node)
    ensures IsPath(steps, open + [node])
  {
    if open != [] { PathSnoc(steps, open, node); }
  }

  lemma Enter(steps: Steps, visited: set<string>, recStack: set<string>,
              open: seq<string>, finished: seq<string>, node: string)
    requires Searching(steps, visited, recStack, open, finished)
    requires node in steps && node !in visited && (open != [] ==> Edge(steps, open[|open| - 1], node))
    ensures Searching(steps, visited + {node}, recStack + {node}, open + [node], finished)
  {
    OpenMore(steps, open, node);
  }

  lemma Leave(steps: Steps, visited: set<string>, recStack: set<string>,
              open: seq<string>, finished: seq<string>, node: string)
    requires Searching(steps, visited, recStack, open + [node], finished)
    requires forall v :: Edge(steps, node, v) ==> v in finished
    ensures Searching(steps, visited, recStack - {node}, open, finished + [node])
  {
    var stack := open + [node];
    assert forall v :: v in stack <==> v in open || v == node;
    forall i | 0 <= i < |open| ensures open[i] != node { assert stack[i] != stack[|open|]; }
    if open != [] {
      PathSlice(steps, stack, 0, |open|);
      assert stack[0..|open|] == open;
    }
    assert Distinct(open) by {
      forall i, j | 0 <= i < j < |open| ensures open[i] != open[j] { assert stack[i] != stack[j]; }
    }
    var done := finished + [node];
    forall i, v | 0 <= i < |done| && Edge(steps, done[i], v) ensures v in done[..i] {
      assert done[..i] == finished[..i];
      if i == |finished| { assert finished[..i] == finished; }
    }
  }

  lemma OpenCycle(steps: Steps, open: seq<string>, node: string)
    requires node in open && IsPath(steps, open) && Edge(steps, open[|open| - 1], node)
    ensures !Acyclic(steps)
  {
    var i :| 0 <= i < |open| && open[i] == node;
    PathSlice(steps, open, i, |open|);
    PathSnoc(steps, open[i..], node);
    assert IsCycle(steps, open[i..] + [node]);
  }

  lemma NeighborList(dag: Dag, steps: Steps, node: string)
    requires Represents(dag, steps) && node in steps
    ensures node in dag.edges
    ensures forall v :: v in dag.edges[node] <==> Edge(steps, node, v)
    ensures forall v :: v in dag.edges[node] ==> v in steps
  {
    forall v ensures v in dag.edges[node] <==> Edge(steps, node, v) { EdgesAreNeeds(dag, steps, node, v); }
  }

  lemma Spread(steps: Steps, visited: set<string>, recStack: set<string>, open: seq<string>, finished: seq<string>)
    requires Searching(steps, visited, recStack, open, finished)
    ensures forall v :: v in recStack <==> v in open
    ensures forall v :: v in visited && v !in recStack ==> v in finished
    ensures forall v :: v in visited ==> v in steps
    ensures open != [] ==> IsPath(steps, open)
  {
  }

  /** The mutable sets of `check_cycles`, with a ghost record of the search. */
  class Search {
    var visited: set<string>
    var recStack: set<string>
    ghost var open: seq<string>
    ghost var finished: seq<string>

    constructor ()
      ensures visited == {} && recStack == {} && open == [] && finished == []
    {
      visited, recStack, open, finished := {}, {}, [], [];
    }

    ghost predicate Valid(steps: Steps)
      reads this
    {
      Searching(steps, visited, recStack, open, finished)
    }

    /** Explores from `node`; fails only where a node on the open path comes up again. */
    method HasCycleUtil(dag: Dag, node: string, ghost steps: Steps) returns (verdict: Result<()>)
      requires Represents(dag, steps) && AllKnown(steps) && Valid(steps) && node in steps
      requires open != [] ==> Edge(steps, open[|open| - 1], node)
      modifies this
      ensures verdict.Err? ==> !Acyclic(steps)
      ensures verdict.Ok? ==>
        Valid(steps) && open == old(open) && recStack == old(recStack) && node in finished
      ensures forall v :: v in old(finished) ==> v in finished
      ensures old(visited) <= visited
      decreases steps.Keys - visited
    {
      hide Represents, Searching, Edge, Acyclic, AllKnown;
      Spread(steps, visited, recStack, open, finished);
      if node in recStack {
        OpenCycle(steps, open, node);
        return Err;
      }
      if node in visited { return Ok(()); }
      NeighborList(dag, steps, node);
      Enter(steps, visited, recStack, open, finished, node);
      visited := visited + {node};
      recStack := recStack + {node};
      open := open + [node];
      var neighbors := dag.edges[node];
      for i := 0 to |neighbors|
        invariant Valid(steps) && open == old(open) + [node] && recStack == old(recStack) + {node}
        invariant old(visited) + {node} <= visited && forall v :: v in old(finished) ==> v in finished
        invariant forall k :: 0 <= k < i ==> neighbors[k] in finished
      {
        assert neighbors[i] in neighbors;
        var below := HasCycleUtil(dag, neighbors[i], steps);
        if below.Err? { return Err; }
      }
      assert forall v :: Edge(steps, node, v) ==> v in neighbors;
      Leave(steps, visited, recStack, old(open), finished, node);
      recStack := recStack - {node};
      open := old(open);
      finished := finished + [node];
      return Ok(());
    }
  }

  lemma SearchStart(steps: Steps)
    ensures Searching(steps, {}, {}, [], [])
  {
  }

  lemma SearchDone(steps: Steps, visited: set<string>, recStack: set<string>,
                   open: seq<string>, finished: seq<string>, nodes: seq<string>)
    requires Searching(steps, visited, recStack, open, finished) && AllKnown(steps) && Permutation(steps, nodes)
    requires forall k :: 0 <= k < |nodes| ==> nodes[k] in finished
    ensures Acyclic(steps)
  {
    forall v ensures v in finished <==> v in steps {
      if v in steps {
        assert v in nodes;
        var k :| 0 <= k < |nodes| && nodes[k] == v;
      }
    }
    DependentsFirstIsAcyclic(steps, finished);
  }

  /** Cycle detection is exact, from every iteration order. */
  method CheckCycles(dag: Dag, ghost steps: Steps) returns (verdict: Result<()>)
    requires Represents(dag, steps) && AllKnown(steps)
    ensures verdict.Ok? <==> Acyclic(steps)
  {
    hide Searching, Edge, Acyclic, AllKnown;
    var search := new Search();
    SearchStart(steps);
    for i := 0 to |dag.nodes|
      invariant search.Valid(steps) && search.open == [] && search.recStack == {}
      invariant forall k :: 0 <= k < i ==> dag.nodes[k] in search.finished
    {
      Spread(steps, search.visited, search.recStack, search.open, search.finished);
      if dag.nodes[i] !in search.visited {
        assert dag.nodes[i] in dag.nodes;
        var found := search.HasCycleUtil(dag, dag.nodes[i], steps);
        if found.Err? { return Err; }
      }
    }
    SearchDone(steps, search.visited, search.recStack, search.open, search.finished, dag.nodes);
    return Ok(());
  }

  /** `build` succeeds exactly on known, acyclic dependencies. */
  method Build(steps: Steps) returns (dag: Result<Dag>)
    ensures dag.Ok? <==> AllKnown(steps) && Acyclic(steps)
    ensures dag.Ok? ==> Represents(dag.value, steps)
  {
    dag := Connect(steps);
    if dag.Ok? {
      var verdict := CheckCycles(dag.value, steps);
      if verdict.Err? { dag := Err; }
    }
  }
}
