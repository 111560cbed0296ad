/** `ExecutionDAG::topological_sort`: Kahn's algorithm on a multigraph, with every
    hash-map iteration order left open. */
module KahnSort {
  import opened Outcome
  import opened DependencyGraph
  import opened ExecutionGraph

  /** How many entries of `xs` lie in `s`. */
  function Hits(xs: seq<string>, s: set<string>): nat {
    if xs == [] then 0 else Hits(xs[..|xs| - 1], s) + if xs[|xs| - 1] in s then 1 else 0
  }

  lemma {:induction false} HitsAdd(xs: seq<string>, s: set<string>, u: string)
    requires u !in s
    ensures Hits(xs, s + {u}) == Hits(xs, s) + Count(xs, u)
  {
    if xs != [] {
      var n := |xs| - 1;
      HitsAdd(xs[..n], s, u);
      assert xs == xs[..n] + [xs[n]];
      CountSnoc(xs[..n], xs[n], u);
    }
  }

  lemma {:induction false} HitsAll(xs: seq<string>, s: set<string>)
    ensures Hits(xs, s) <= |xs|
    ensures Hits(xs, s) == |xs| <==> forall x <- xs :: x in s
  {
    if xs != [] {
      var n := |xs| - 1;
      HitsAll(xs[..n], s);
      assert xs == xs[..n] + [xs[n]];
    }
  }

  lemma CountPrefix(xs: seq<string>, j: nat, x: string)
    requires j <= |xs|
    ensures Count(xs[..j], x) <= Count(xs, x)
  {
    assert xs == xs[..j] + xs[j..];
  }

  // ---------------------------------------------------------------------
  // In-degrees
  // ---------------------------------------------------------------------

  /** In-degrees once the nodes of `from` and a prefix `seen` of one more list are in. */
  ghost predicate Tallied(steps: Steps, degree: map<string, nat>, from: set<string>, seen: seq<string>) {
    degree.Keys == steps.Keys && forall v <- steps :: degree[v] == Hits(steps[v], from) + Count(seen, v)
  }

  lemma TallyOne(steps: Steps, degree: map<string, nat>, from: set<string>, seen: seq<string>, x: string)
    requires Tallied(steps, degree, from, seen) && x in steps
    ensures Tallied(steps, degree[x := degree[x] + 1], from, seen + [x])
  {
    forall v <- steps ensures Count(seen + [x], v) == Count(seen, v) + if x == v then 1 else 0 {
      CountSnoc(seen, x, v);
    }
  }

  lemma TallyNode(dag: Dag, steps: Steps, degree: map<string, nat>, from: set<string>, u: string)
    requires Represents(dag, steps) && u in steps && u !in from
    requires Tallied(steps, degree, from, dag.edges[u])
    ensures Tallied(steps, degree, from + {u}, [])
  {
    forall v <- steps ensures degree[v] == Hits(steps[v], from + {u}) { HitsAdd(steps[v], from, u); }
  }

  lemma TallyAll(steps: Steps, degree: map<string, nat>, from: set<string>)
    requires Tallied(steps, degree, from, []) && AllKnown(steps) && from == steps.Keys
    ensures degree.Keys == steps.Keys && forall v <- steps :: degree[v] == |steps[v]|
  {
    forall v <- steps ensures degree[v] == |steps[v]| { HitsAll(steps[v], from); }
  }

  lemma TallyKeys(steps: Steps, degree: map<string, nat>, from: set<string>, seen: seq<string>)
    requires Tallied(steps, degree, from, seen)
    ensures degree.Keys == steps.Keys
  {
  }

  lemma {:induction false} NoHits(xs: seq<string>)
    ensures Hits(xs, {}) == 0
  {
    if xs != [] { NoHits(xs[..|xs| - 1]); }
  }

  lemma TallyNone(steps: Steps, degree: map<string, nat>)
    requires degree.Keys == steps.Keys && forall v <- steps :: degree[v] == 0
    ensures Tallied(steps, degree, {}, [])
  {
    forall v <- steps ensures Hits(steps[v], {}) == 0 { NoHits(steps[v]); }
  }

  /** Counts, for each node, the edge entries that name it. */
  method InDegrees(dag: Dag, ghost steps: Steps) returns (degree: map<string, nat>)
    requires Represents(dag, steps) && AllKnown(steps)
    ensures degree.Keys == steps.Keys && forall v <- steps :: degree[v] == |steps[v]|
  {
    hide Tallied, Hits, AllKnown, Edge, Count, Mentions;
    degree := map v | v in dag.edges :: 0;
    TallyNone(steps, degree);
    var order := IterationOrder(dag.edges);
    ghost var from: set<string> := {};
    for i := 0 to |order|
      invariant Tallied(steps, degree, from, [])
      invariant from == set k | 0 <= k < i :: order[k]
    {
      var u := order[i];
      assert u in order;
      assert u !in from;
      var targets := dag.edges[u];
      NeighborList(dag, steps, u);
      for j := 0 to |targets|
        invariant Tallied(steps, degree, from, targets[..j])
      {
        assert targets[j] in targets;
        TallyKeys(steps, degree, from, targets[..j]);
        TallyOne(steps, degree, from, targets[..j], targets[j]);
        assert targets[..j + 1] == targets[..j] + [targets[j]];
        degree := degree[targets[j] := degree[targets[j]] + 1];
      }
      assert targets[..|targets|] == targets;
      TallyNode(dag, steps, degree, from, u);
      from := from + {u};
    }
    assert from == steps.Keys by {
      forall v ensures v in from <==> v in steps { assert v in order <==> v in steps; }
    }
    TallyAll(steps, degree, from);
  }

  // ---------------------------------------------------------------------
  // Draining the queue
  // ---------------------------------------------------------------------

  /** In-degrees count the needs still open: those neither in `done` nor among `seen`. */
  ghost predicate Drained(steps: Steps, degree: map<string, nat>, done: set<string>, seen: seq<string>) {
    && degree.Keys == steps.Keys
    && forall v <- steps :: degree[v] + Hits(steps[v], done) + Count(seen, v) == |steps[v]|
  }

  /** `emitted` lists, once each, exactly the nodes whose in-degree has reached zero. */
  ghost predicate Emitted(steps: Steps, degree: map<string, nat>, emitted: seq<string>) {
    && degree.Keys == steps.Keys && Distinct(emitted) && (forall v <- emitted :: v in steps)
    && forall v <- steps :: degree[v] == 0 <==> v in emitted
  }

  lemma DrainOne(dag: Dag, steps: Steps, degree: map<string, nat>, done: set<string>, u: string, j: nat)
    requires Represents(dag, steps) && u in steps && u !in done && j < |dag.edges[u]| && dag.edges[u][j] in steps
    requires Drained(steps, degree, done, dag.edges[u][..j])
    ensures
      var v := dag.edges[u][j];
      && degree.Keys == steps.Keys && degree[v] > 0
      && Drained(steps, degree[v := degree[v] - 1], done, dag.edges[u][..j + 1])
  {
    var targets := dag.edges[u];
    var v := targets[j];
    assert targets[..j + 1] == targets[..j] + [v];
    CountSnoc(targets[..j], v, v);
    CountPrefix(targets, j + 1, v);
    HitsAdd(steps[v], done, u);
    HitsAll(steps[v], done + {u});
    assert degree[v] > 0;
    forall x <- steps ensures Count(targets[..j + 1], x) == Count(targets[..j], x) + if v == x then 1 else 0 {
      CountSnoc(targets[..j], v, x);
    }
  }

  lemma DrainNode(dag: Dag, steps: Steps, degree: map<string, nat>, done: set<string>, u: string)
    requires Represents(dag, steps) && u in steps && u !in done
    requires Drained(steps, degree, done, dag.edges[u])
    ensures Drained(steps, degree, done + {u}, [])
  {
    forall v <- steps ensures degree[v] + Hits(steps[v], done + {u}) == |steps[v]| { HitsAdd(steps[v], done, u); }
  }

  lemma EmitOne(steps: Steps, degree: map<string, nat>, emitted: seq<string>, v: string)
    requires Emitted(steps, degree, emitted) && v in steps && degree[v] > 0
    ensures
      var lower := degree[v := degree[v] - 1];
      Emitted(steps, lower, if lower[v] == 0 then emitted + [v] else emitted)
  {
    assert v !in emitted;
  }

  /** A node whose turn has come has all its needs in the result. */
  lemma TurnHasCome(steps: Steps, degree: map<string, nat>, result: seq<string>, emitted: seq<string>,
                    done: set<string>)
    requires Drained(steps, degree, done, []) && Emitted(steps, degree, emitted) && Ordered(steps, result)
    requires result < emitted && done == set v <- result
    ensures Ordered(steps, result + [emitted[|result|]]) && emitted[|result|] in steps && emitted[|result|] !in done
  {
    var n := |result|;
    var v := emitted[n];
    assert v in emitted;
    HitsAll(steps[v], done);
    assert forall d <- steps[v] :: d in result;
    var grown := result + [v];
    forall i | 0 <= i < |grown| ensures grown[i] in steps && forall d <- steps[grown[i]] :: d in grown[..i] {
      assert grown[..i] == result[..i];
      if i == n { assert result[..n] == result; }
    }
    forall i | 0 <= i < n ensures result[i] != v { assert result[i] == emitted[i] && emitted[i] != emitted[n]; }
  }

  lemma {:induction false} SetOfDistinct(p: seq<string>)
    requires Distinct(p)
    ensures |(set v <- p)| == |p|
    decreases |p|
  {
    if p == [] {
      assert (set v <- p) == {};
    } else {
      var n := |p| - 1;
      SetOfDistinct(p[..n]);
      assert p == p[..n] + [p[n]];
      assert (set v <- p) == (set v <- p[..n]) + {p[n]};
    }
  }

  lemma Sizes(steps: Steps, result: seq<string>, nodes: seq<string>)
    requires Distinct(result) && (forall v <- result :: v in steps) && Permutation(steps, nodes)
    ensures |nodes| == |steps.Keys| && |result| + |(steps.Keys - (set v <- result))| == |steps.Keys|
  {
    SetOfDistinct(result);
    SetOfDistinct(nodes);
    assert (set v <- nodes) == steps.Keys;
    assert (set v <- result) <= steps.Keys;
  }

  /** Nodes that never reached in-degree zero need one another. */
  lemma LeftoverNeeds(steps: Steps, degree: map<string, nat>, result: seq<string>, done: set<string>)
    requires Drained(steps, degree, done, []) && Emitted(steps, degree, result)
    requires done == (set v <- result) && AllKnown(steps)
    ensures forall v :: v in steps.Keys - done ==> NeedsWithin(steps, steps.Keys - done, v)
  {
    hide Distinct;
    var m := steps.Keys - done;
    forall v | v in m ensures NeedsWithin(steps, m, v) {
      HitsAll(steps[v], done);
      var d :| d in steps[v] && d !in done;
      assert d in m;
    }
  }

  lemma EmittedSize(steps: Steps, degree: map<string, nat>, emitted: seq<string>)
    requires Emitted(steps, degree, emitted)
    ensures |emitted| <= |steps| && Distinct(emitted) && forall v <- emitted :: v in steps
  {
    DistinctSize(emitted, steps.Keys);
  }

  lemma SourceIn(steps: Steps, m: set<string>)
    requires m != {} && forall v :: v in m ==> NeedsWithin(steps, m, v)
    ensures !Acyclic(steps)
  {
    var v :| v in m;
    WalkBack(steps, m, [v]);
  }

  /** What is left over when the queue runs dry. */
  lemma Dry(steps: Steps, degree: map<string, nat>, result: seq<string>, done: set<string>, nodes: seq<string>)
    requires Drained(steps, degree, done, []) && Emitted(steps, degree, result) && Ordered(steps, result)
    requires done == (set v <- result) && AllKnown(steps) && Permutation(steps, nodes)
    ensures |result| == |nodes| ==> Permutation(steps, result) && Acyclic(steps)
    ensures |result| != |nodes| ==> !Acyclic(steps)
  {
    hide Drained, Emitted, Distinct;
    EmittedSize(steps, degree, result);
    var m := steps.Keys - done;
    Sizes(steps, result, nodes);
    if m == {} {
      assert forall v :: v in result <==> v in steps;
      OrderedIsAcyclic(steps, result);
    } else {
      LeftoverNeeds(steps, degree, result, done);
      SourceIn(steps, m);
    }
  }

  /** The inner loop: one in-degree down for each edge out of `current`. */
  method Release(dag: Dag, ghost steps: Steps, current: string, degree: map<string, nat>,
                 ghost result: seq<string>, queue: seq<string>, ghost done: set<string>)
    returns (lower: map<string, nat>, longer: seq<string>)
    requires Represents(dag, steps) && current in steps && current !in done && current in dag.edges
    requires Drained(steps, degree, done, []) && Emitted(steps, degree, result + queue)
    ensures Drained(steps, lower, done, dag.edges[current]) && Emitted(steps, lower, result + longer)
  {
    hide Drained, Hits, Emitted, Edge, Count, Mentions, Represents;
    lower, longer := degree, queue;
    var neighbors := dag.edges[current];
    NeighborList(dag, steps, current);
    assert neighbors[..0] == [];
    for j := 0 to |neighbors|
      invariant Drained(steps, lower, done, neighbors[..j]) && Emitted(steps, lower, result + longer)
    {
      assert neighbors[j] in neighbors;
      DrainOne(dag, steps, lower, done, current, j);
      EmitOne(steps, lower, result + longer, neighbors[j]);
      lower := lower[neighbors[j] := lower[neighbors[j]] - 1];
      if lower[neighbors[j]] == 0 {
        assert result + (longer + [neighbors[j]]) == (result + longer) + [neighbors[j]];
        longer := longer + [neighbors[j]];
      }
    }
    assert neighbors[..|neighbors|] == neighbors;
  }

  lemma Begin(steps: Steps, degree: map<string, nat>)
    requires degree.Keys == steps.Keys && forall v <- steps :: degree[v] == |steps[v]|
    ensures Drained(steps, degree, {}, []) && Ordered(steps, [])
  {
    forall v <- steps ensures Hits(steps[v], {}) == 0 { NoHits(steps[v]); }
  }

  /** The nodes that start with in-degree zero, in some order. */
  method FirstQueue(ghost steps: Steps, degree: map<string, nat>) returns (queue: seq<string>)
    requires degree.Keys == steps.Keys
    ensures Emitted(steps, degree, queue)
  {
    queue := [];
    var rest := degree.Keys;
    while rest != {}
      invariant rest <= steps.Keys && Distinct(queue)
      invariant forall v :: v in queue <==> v in steps && v !in rest && degree[v] == 0
      decreases rest
    {
      var v :| v in rest;
      if degree[v] == 0 { queue := queue + [v]; }
      rest := rest - {v};
    }
  }

  lemma NodeList(dag: Dag, steps: Steps)
    requires Represents(dag, steps)
    ensures Permutation(steps, dag.nodes)
  {
  }

  /** Kahn's algorithm: it succeeds on exactly the acyclic graphs, repeated edges
      included, and lists every node once, after everything it needs. */
  method TopologicalSort(dag: Dag, ghost steps: Steps) returns (sorted: Result<seq<string>>)
    requires Represents(dag, steps) && AllKnown(steps)
    ensures sorted.Ok? <==> Acyclic(steps)
    ensures sorted.Ok? ==> Permutation(steps, sorted.value) && Ordered(steps, sorted.value)
  {
    hide Drained, Hits, Emitted, AllKnown, Edge, Ordered, Acyclic, Count, Mentions, Represents, Distinct, Permutation;
    NodeList(dag, steps);
    var degree := InDegrees(dag, steps);
    var queue := FirstQueue(steps, degree);
    Begin(steps, degree);
    var result: seq<string> := [];
    ghost var done: set<string> := {};
    assert result + queue == queue;
    while queue != []
      invariant Drained(steps, degree, done, []) && Emitted(steps, degree, result + queue)
      invariant Ordered(steps, result) && done == set v <- result
      decreases |steps| - |result|
    {
      var current := queue[0];
      ghost var before := result;
      assert result < result + queue && (result + queue)[|result|] == current;
      TurnHasCome(steps, degree, result, result + queue, done);
      assert result + queue == (result + [current]) + queue[1..];
      queue := queue[1..];
      result := result + [current];
      NeighborList(dag, steps, current);
      degree, queue := Release(dag, steps, current, degree, result, queue, done);
      DrainNode(dag, steps, degree, done, current);
      done := done + {current};
      EmittedSize(steps, degree, result + queue);
      assert done == set v <- result by { assert result == before + [current]; }
    }
    assert result + queue == result;
    Dry(steps, degree, result, done, dag.nodes);
    if |result| != |dag.nodes| { return Err; }
    return Ok(result);
  }
}
