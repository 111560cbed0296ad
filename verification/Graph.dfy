/** Dependency graphs as relations: paths, cycles and orders. */
module DependencyGraph {

  /** A pipeline: step names with the names each step needs, in order and possibly repeated. */
  type Steps = map<string, seq<string>>

  /** `v` needs `u`. */
  predicate Edge(steps: Steps, u: string, v: string) { v in steps && u in steps[v] }

  predicate AllKnown(steps: Steps) {
    forall v <- steps :: forall d <- steps[v] :: d in steps
  }

  /** A walk along dependency edges, each node needed by the next. */
  predicate IsPath(steps: Steps, p: seq<string>) {
    p != [] && forall i :: 0 < i < |p| ==> Edge(steps, p[i - 1], p[i])
  }

  predicate IsCycle(steps: Steps, p: seq<string>) {
    IsPath(steps, p) && |p| >= 2 && p[0] == p[|p| - 1]
  }

  ghost predicate Acyclic(steps: Steps) { forall p :: !IsCycle(steps, p) }

  predicate Distinct(p: seq<string>) {
    forall i, j :: 0 <= i < j < |p| ==> p[i] != p[j]
  }

  /** Every node comes after everything it needs. */
  predicate Ordered(steps: Steps, order: seq<string>) {
    forall i :: 0 <= i < |order| ==> order[i] in steps && forall d <- steps[order[i]] :: d in order[..i]
  }

  ghost predicate Permutation(steps: Steps, order: seq<string>) {
    Distinct(order) && forall v :: v in order <==> v in steps
  }

  lemma PathCons(steps: Steps, u: string, p: seq<string>)
    requires IsPath(steps, p) && Edge(steps, u, p[0])
    ensures IsPath(steps, [u] + p)
  {
    var q := [u] + p;
    forall i | 0 < i < |q| ensures Edge(steps, q[i - 1], q[i]) {
      if i > 1 { assert Edge(steps, p[i - 2], p[i - 1]); }
    }
  }

  lemma PathSnoc(steps: Steps, p: seq<string>, v: string)
    requires IsPath(steps, p) && Edge(steps, p[|p| - 1], v)
    ensures IsPath(steps, p + [v])
  {
    var q := p + [v];
    forall i | 0 < i < |q| ensures Edge(steps, q[i - 1], q[i]) {
      if i < |p| { assert Edge(steps, p[i - 1], p[i]); }
    }
  }

  lemma PathSlice(steps: Steps, p: seq<string>, lo: nat, hi: nat)
    requires IsPath(steps, p) && lo < hi <= |p|
    ensures IsPath(steps, p[lo..hi])
  {
    var q := p[lo..hi];
    forall i | 0 < i < |q| ensures Edge(steps, q[i - 1], q[i]) { assert Edge(steps, p[lo + i - 1], p[lo + i]); }
  }

  lemma {:induction false} DistinctSize(p: seq<string>, m: set<string>)
    requires Distinct(p) && forall v <- p :: v in m
    ensures |p| <= |m|
    decreases |p|
  {
    if p != [] {
      var n := |p| - 1;
      forall v | v in p[..n] ensures v in m - {p[n]} {
        var i :| 0 <= i < n && p[..n][i] == v;
      }
      DistinctSize(p[..n], m - {p[n]});
    }
  }

  predicate NeedsWithin(steps: Steps, m: set<string>, v: string) {
    v in steps && exists d :: d in steps[v] && d in m
  }

  lemma BackStep(steps: Steps, m: set<string>, p: seq<string>, d: string)
    requires IsPath(steps, p) && Distinct(p) && (forall v <- p :: v in m) && Edge(steps, d, p[0]) && d in m
    ensures d in p ==> !Acyclic(steps)
    ensures d !in p ==> IsPath(steps, [d] + p) && Distinct([d] + p) && |p| < |m| && forall v <- [d] + p :: v in m
  {
    var q := [d] + p;
    PathCons(steps, d, p);
    if d in p {
      var i :| 0 <= i < |p| && p[i] == d;
      PathSlice(steps, q, 0, i + 2);
      assert IsCycle(steps, q[0..i + 2]);
    } else {
      DistinctSize(q, m);
    }
  }

  /** A set whose members all need another member holds a cycle: walking backwards
      must repeat a node. */
  lemma {:induction false} WalkBack(steps: Steps, m: set<string>, p: seq<string>)
    requires forall v :: v in m ==> NeedsWithin(steps, m, v)
    requires IsPath(steps, p) && Distinct(p) && forall v <- p :: v in m
    ensures !Acyclic(steps)
    decreases |m| - |p|
  {
    DistinctSize(p, m);
    assert p[0] in p && p[0] in m;
    assert NeedsWithin(steps, m, p[0]);
    var d :| d in steps[p[0]] && d in m;
    BackStep(steps, m, p, d);
    if d !in p { WalkBack(steps, m, [d] + p); }
  }

  /** In an acyclic graph some member of any nonempty set needs none of the others. */
  lemma SourceExists(steps: Steps, m: set<string>)
    requires Acyclic(steps) && m != {}
    ensures exists v :: v in m && !NeedsWithin(steps, m, v)
  {
    if forall v :: v in m ==> NeedsWithin(steps, m, v) {
      var v :| v in m;
      WalkBack(steps, m, [v]);
    }
  }

  /** Along a path an order's positions strictly increase. */
  lemma {:induction false} OrderAlongPath(steps: Steps, order: seq<string>, p: seq<string>)
    requires Ordered(steps, order) && Distinct(order) && IsPath(steps, p) && forall v <- p :: v in order
    ensures exists i, j :: 0 <= i <= j < |order| && order[i] == p[0] && order[j] == p[|p| - 1] && (|p| >= 2 ==> i < j)
    decreases |p|
  {
    if |p| == 1 {
      assert p[0] in p;
      var i :| 0 <= i < |order| && order[i] == p[0];
    } else {
      var n := |p| - 1;
      PathSlice(steps, p, 0, n);
      assert p[0..n] == p[..n];
      OrderAlongPath(steps, order, p[..n]);
      var i, j :| 0 <= i <= j < |order| && order[i] == p[0] && order[j] == p[n - 1];
      assert p[n] in p && Edge(steps, p[n - 1], p[n]);
      var k :| 0 <= k < |order| && order[k] == p[n];
      assert p[n - 1] in order[..k];
    }
  }

  lemma {:induction false} PathInOrder(steps: Steps, order: seq<string>, p: seq<string>)
    requires Permutation(steps, order) && AllKnown(steps) && IsPath(steps, p) && |p| >= 2
    ensures forall v <- p :: v in order
  {
    forall v <- p ensures v in order {
      var i :| 0 <= i < |p| && p[i] == v;
      if i > 0 { assert Edge(steps, p[i - 1], p[i]); } else { assert Edge(steps, p[0], p[1]); }
    }
  }

  /** A complete order rules out cycles. */
  lemma OrderedIsAcyclic(steps: Steps, order: seq<string>)
    requires AllKnown(steps) && Permutation(steps, order) && Ordered(steps, order)
    ensures Acyclic(steps)
  {
    forall p ensures !IsCycle(steps, p) {
      if IsCycle(steps, p) {
        PathInOrder(steps, order, p);
        OrderAlongPath(steps, order, p);
      }
    }
  }

  /** Every node comes after everything that needs it. */
  ghost predicate DependentsFirst(steps: Steps, order: seq<string>) {
    forall i, v :: 0 <= i < |order| && Edge(steps, order[i], v) ==> v in order[..i]
  }

  lemma {:induction false} DependentsAlongPath(steps: Steps, order: seq<string>, p: seq<string>, i: nat)
    returns (j: nat)
    requires DependentsFirst(steps, order) && IsPath(steps, p) && i < |order| && order[i] == p[0]
    ensures j <= i && order[j] == p[|p| - 1] && (|p| >= 2 ==> j < i)
    decreases |p|
  {
    if |p| == 1 { return i; }
    assert Edge(steps, p[0], p[1]);
    var k :| 0 <= k < i && order[k] == p[1];
    PathSlice(steps, p, 1, |p|);
    j := DependentsAlongPath(steps, order, p[1..|p|], k);
  }

  lemma DependentsFirstIsAcyclic(steps: Steps, order: seq<string>)
    requires AllKnown(steps) && Permutation(steps, order) && DependentsFirst(steps, order)
    ensures Acyclic(steps)
  {
    forall p ensures !IsCycle(steps, p) {
      if IsCycle(steps, p) {
        PathInOrder(steps, order, p);
        assert p[0] in p;
        var i :| 0 <= i < |order| && order[i] == p[0];
        var j := DependentsAlongPath(steps, order, p, i);
      }
    }
  }
}
