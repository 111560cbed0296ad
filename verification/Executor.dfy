/** The step loop of `Executor::run` (`executor/mod.rs`). What a step does, and whether the run has to stop at it,
    belongs to the environment. */
module PipelineRun {
  import opened Outcome
  import opened DependencyGraph

  datatype StepResult = StepResult(name: string, exitCode: int)

  /** What happens when a step is processed after `earlier`: an exit code, from the
      command or from the cache, or an error that ends the run. */
  type Behaviour = (string, seq<StepResult>) -> Option<int>

  predicate Appears(results: seq<StepResult>, v: string) { exists r <- results :: r.name == v }

  predicate Succeeded(results: seq<StepResult>, v: string) { exists r <- results :: r.name == v && r.exitCode == 0 }

  /** `u` is a transitive dependency of `v`. */
  ghost predicate Ancestor(steps: Steps, u: string, v: string) {
    exists p :: IsPath(steps, p) && |p| >= 2 && p[0] == u && p[|p| - 1] == v
  }

  /** The need of a step that appears appeared before it, successfully. */
  predicate NeedMet(results: seq<StepResult>, k: nat, d: string)
    requires k <= |results|
  {
    Succeeded(results[..k], d)
  }

  ghost predicate OneEach(results: seq<StepResult>) {
    forall i, j :: 0 <= i < j < |results| ==> results[i].name != results[j].name
  }

  /** What a list of results owes to the needs of the pipeline and to the environment. */
  ghost predicate Faithful(steps: Steps, behave: Behaviour, results: seq<StepResult>) {
    && OneEach(results)
    && (forall k :: 0 <= k < |results| ==>
          results[k].name in steps && Some(results[k].exitCode) == behave(results[k].name, results[..k]))
    && (forall k :: 0 <= k < |results| ==> forall d <- steps[results[k].name] :: NeedMet(results, k, d))
  }

  /** A step is in the results exactly when all it needs succeeded. */
  ghost predicate Propagated(steps: Steps, results: seq<StepResult>, v: string) {
    v in steps && (Appears(results, v) <==> forall d <- steps[v] :: Succeeded(results, d))
  }

  /** A step can be reached that the environment gives no answer for: everything it needs
      succeeded in what came before, which is as a run leaves it. */
  ghost predicate Unanswered(steps: Steps, behave: Behaviour, v: string, earlier: seq<StepResult>) {
    && v in steps && Faithful(steps, behave, earlier) && !Appears(earlier, v)
    && (forall d <- steps[v] :: Succeeded(earlier, d))
    && behave(v, earlier) == None
  }

  // ---------------------------------------------------------------------
  // The loop
  // ---------------------------------------------------------------------

  /** The state of the loop after the steps of `seen`. */
  ghost predicate Processed(steps: Steps, behave: Behaviour, seen: seq<string>, results: seq<StepResult>,
                            completed: set<string>, unsuccessful: set<string>) {
    && Faithful(steps, behave, results)
    && (forall v :: v in completed <==> v in seen)
    && (forall v :: v in unsuccessful <==> v in seen && !Succeeded(results, v))
    && (forall r <- results :: r.name in seen)
    && (forall v <- seen :: Propagated(steps, results, v))
  }

  lemma AppearsMore(results: seq<StepResult>, r: StepResult, v: string)
    ensures Appears(results + [r], v) <==> Appears(results, v) || r.name == v
    ensures Succeeded(results + [r], v) <==> Succeeded(results, v) || (r.name == v && r.exitCode == 0)
  {
    var more := results + [r];
    assert more[|results|] == r;
    if Appears(results, v) {
      var x :| x in results && x.name == v;
      assert x in more;
    }
    if Succeeded(results, v) {
      var x :| x in results && x.name == v && x.exitCode == 0;
      assert x in more;
    }
  }

  lemma SuccessAppears(results: seq<StepResult>, v: string)
    requires Succeeded(results, v)
    ensures Appears(results, v)
  {
    var r :| r in results && r.name == v && r.exitCode == 0;
    assert r in results && r.name == v;
  }

  lemma SkipStep(steps: Steps, behave: Behaviour, seen: seq<string>, results: seq<StepResult>,
                 completed: set<string>, unsuccessful: set<string>, v: string, d: string)
    requires Processed(steps, behave, seen, results, completed, unsuccessful)
    requires v in steps && v !in seen && d in steps[v] && d in unsuccessful
    ensures Processed(steps, behave, seen + [v], results, completed + {v}, unsuccessful + {v})
  {
    hide Faithful, Succeeded;
    if Succeeded(results, v) { SuccessAppears(results, v); }
    assert Propagated(steps, results, v);
  }

  lemma FaithfulMore(steps: Steps, behave: Behaviour, results: seq<StepResult>, r: StepResult)
    requires Faithful(steps, behave, results) && r.name in steps && !Appears(results, r.name)
    requires behave(r.name, results) == Some(r.exitCode)
    requires forall d <- steps[r.name] :: Succeeded(results, d)
    ensures Faithful(steps, behave, results + [r])
  {
    hide Succeeded;
    var more := results + [r];
    var n := |results|;
    forall i, j | 0 <= i < j < |more| ensures more[i].name != more[j].name {
      if j == n { assert results[i] in results; }
    }
    forall k | 0 <= k < |more|
      ensures more[k].name in steps && Some(more[k].exitCode) == behave(more[k].name, more[..k])
      ensures forall d <- steps[more[k].name] :: NeedMet(more, k, d)
    {
      assert more[..k] == results[..k];
      if k == n {
        assert results[..n] == results;
      } else {
        forall d <- steps[more[k].name] ensures NeedMet(more, k, d) { assert NeedMet(results, k, d); }
      }
    }
  }

  lemma RunStep(steps: Steps, behave: Behaviour, seen: seq<string>, results: seq<StepResult>,
                completed: set<string>, unsuccessful: set<string>, v: string, code: int)
    requires Processed(steps, behave, seen, results, completed, unsuccessful)
    requires v in steps && v !in seen && behave(v, results) == Some(code)
    requires forall d <- steps[v] :: d in seen && d !in unsuccessful
    requires forall s <- seen, d <- steps[s] :: d in seen
    ensures Processed(steps, behave, seen + [v], results + [StepResult(v, code)], completed + {v},
                      if code != 0 then unsuccessful + {v} else unsuccessful)
  {
    hide Succeeded, Faithful;
    var r := StepResult(v, code);
    var more := results + [r];
    forall u ensures Appears(more, u) <==> Appears(results, u) || u == v { AppearsMore(results, r, u); }
    forall u ensures Succeeded(more, u) <==> Succeeded(results, u) || (u == v && code == 0) {
      AppearsMore(results, r, u);
    }
    if Succeeded(results, v) { SuccessAppears(results, v); }
    assert !Appears(results, v);
    FaithfulMore(steps, behave, results, r);
    forall x <- more ensures x.name in seen + [v] { if x in results { assert x.name in seen; } else { assert x == r; } }
    forall u <- seen + [v] ensures Propagated(steps, more, u) {
      if u in seen {
        assert Propagated(steps, results, u);
        assert forall d <- steps[u] :: d != v;
      }
    }
  }

  lemma NothingProcessed(steps: Steps, behave: Behaviour)
    ensures Processed(steps, behave, [], [], {}, {})
  {
  }

  lemma RunDone(steps: Steps, behave: Behaviour, order: seq<string>, results: seq<StepResult>,
                completed: set<string>, unsuccessful: set<string>)
    requires Processed(steps, behave, order, results, completed, unsuccessful) && Permutation(steps, order)
    ensures Faithful(steps, behave, results) && forall v <- steps :: Propagated(steps, results, v)
  {
    hide Faithful, Propagated, Distinct;
    forall v <- steps ensures Propagated(steps, results, v) { assert v in order; }
  }

  lemma CompletedSeen(steps: Steps, behave: Behaviour, seen: seq<string>, results: seq<StepResult>,
                      completed: set<string>, unsuccessful: set<string>)
    requires Processed(steps, behave, seen, results, completed, unsuccessful)
    ensures forall v :: v in completed <==> v in seen
  {
  }

  lemma Turn(steps: Steps, order: seq<string>, i: nat)
    requires Permutation(steps, order) && Ordered(steps, order) && i < |order|
    ensures order[i] in steps && order[i] !in order[..i]
    ensures forall d <- steps[order[i]] :: d in order[..i]
    ensures forall s <- order[..i], d <- steps[s] :: d in order[..i]
    ensures forall s <- order[..i] :: s in steps
  {
    assert order[i] in order;
    forall s <- order[..i] ensures s in steps { assert s in order; }
    forall s <- order[..i], d <- steps[s] ensures d in order[..i] {
      var k :| 0 <= k < i && order[k] == s;
      assert d in order[..k];
      var m :| 0 <= m < k && order[m] == d;
      assert order[..i][m] == d;
    }
  }

  lemma Stops(steps: Steps, behave: Behaviour, seen: seq<string>, results: seq<StepResult>,
              completed: set<string>, unsuccessful: set<string>, v: string)
    requires Processed(steps, behave, seen, results, completed, unsuccessful)
    requires v in steps && v !in seen && behave(v, results) == None
    requires forall d <- steps[v] :: d in seen && d !in unsuccessful
    ensures Unanswered(steps, behave, v, results)
  {
    hide Faithful, Succeeded, Propagated;
  }

  /** The step loop, over whatever order the sort returned. It gives up only at a step the
      environment does not answer for: a failing step is a result like any other. `waited` says whether
      the loop ever had to wait for a dependency; a wait, once entered, would never end,
      as only this loop completes steps. */
  method RunSteps(steps: Steps, order: seq<string>, behave: Behaviour)
    returns (outcome: Result<seq<StepResult>>, waited: bool)
    requires AllKnown(steps) && Permutation(steps, order) && Ordered(steps, order)
    ensures !waited
    ensures outcome.Ok? ==>
      Faithful(steps, behave, outcome.value) && forall v <- steps :: Propagated(steps, outcome.value, v)
    ensures outcome.Err? ==> exists v, earlier :: Unanswered(steps, behave, v, earlier)
  {
    hide Processed, Ordered, AllKnown, Edge, Distinct, Faithful, Succeeded, Appears, Propagated, Unanswered;
    var results: seq<StepResult> := [];
    var completed: set<string> := {};
    var unsuccessful: set<string> := {};
    waited := false;
    NothingProcessed(steps, behave);
    assert order[..0] == [];
    for i := 0 to |order|
      invariant !waited && Processed(steps, behave, order[..i], results, completed, unsuccessful)
    {
      var name := order[i];
      Turn(steps, order, i);
      CompletedSeen(steps, behave, order[..i], results, completed, unsuccessful);
      assert order[..i + 1] == order[..i] + [name];
      var needs := steps[name];
      if exists d <- needs :: d in unsuccessful {
        var d :| d in needs && d in unsuccessful;
        SkipStep(steps, behave, order[..i], results, completed, unsuccessful, name, d);
        unsuccessful := unsuccessful + {name};
        completed := completed + {name};
        continue;
      }
      for j := 0 to |needs|
        invariant !waited
      {
        assert needs[j] in needs;
        if needs[j] !in completed { waited := true; }
      }
      var code := behave(name, results);
      if code.None? {
        Stops(steps, behave, order[..i], results, completed, unsuccessful, name);
        return Err, waited;
      }
      RunStep(steps, behave, order[..i], results, completed, unsuccessful, name, code.value);
      if code.value != 0 { unsuccessful := unsuccessful + {name}; }
      results := results + [StepResult(name, code.value)];
      completed := completed + {name};
    }
    assert order[..|order|] == order;
    RunDone(steps, behave, order, results, completed, unsuccessful);
    return Ok(results), waited;
  }

  // ---------------------------------------------------------------------
  // What a run that yields a receipt guarantees
  // ---------------------------------------------------------------------

  /** A step whose needs propagate has only successful ancestors. */
  lemma {:induction false} AncestorsSucceeded(steps: Steps, results: seq<StepResult>, p: seq<string>)
    requires IsPath(steps, p) && |p| >= 2 && Appears(results, p[|p| - 1])
    requires forall v <- steps :: Propagated(steps, results, v)
    ensures Succeeded(results, p[0])
    decreases |p|
  {
    hide Succeeded, Appears;
    var n := |p| - 1;
    assert Edge(steps, p[n - 1], p[n]);
    assert Propagated(steps, results, p[n]);
    assert Succeeded(results, p[n - 1]);
    if n > 1 {
      SuccessAppears(results, p[n - 1]);
      PathSlice(steps, p, 0, n);
      AncestorsSucceeded(steps, results, p[0..n]);
    }
  }

  /** Failure propagates along every chain: a step is in the receipt exactly when every
      transitive dependency is there with exit code 0. */
  lemma AppearsIffAncestorsSucceeded(steps: Steps, results: seq<StepResult>, v: string)
    requires v in steps && forall u <- steps :: Propagated(steps, results, u)
    ensures Appears(results, v) <==> forall u | Ancestor(steps, u, v) :: Succeeded(results, u)
  {
    hide Succeeded, Appears;
    if Appears(results, v) {
      forall u | Ancestor(steps, u, v) ensures Succeeded(results, u) {
        var p :| IsPath(steps, p) && |p| >= 2 && p[0] == u && p[|p| - 1] == v;
        AncestorsSucceeded(steps, results, p);
      }
    }
    if forall u | Ancestor(steps, u, v) :: Succeeded(results, u) {
      forall d <- steps[v] ensures Succeeded(results, d) {
        assert IsPath(steps, [d, v]);
        assert Ancestor(steps, d, v);
      }
      assert Propagated(steps, results, v);
    }
  }

  lemma CodeOf(steps: Steps, behave: Behaviour, code: string -> int, results: seq<StepResult>, v: string)
    requires Faithful(steps, behave, results) && forall s, earlier :: behave(s, earlier) in {None, Some(code(s))}
    ensures Succeeded(results, v) <==> Appears(results, v) && code(v) == 0
  {
    if Appears(results, v) {
      var r :| r in results && r.name == v;
      var k :| 0 <= k < |results| && results[k] == r;
      assert behave(v, results[..k]) in {None, Some(code(v))};
    }
    if Succeeded(results, v) {
      var r :| r in results && r.name == v && r.exitCode == 0;
      var k :| 0 <= k < |results| && results[k] == r;
      assert behave(v, results[..k]) in {None, Some(code(v))};
    }
  }

  /** When exit codes depend on the step alone, every iteration order of the maps and
      every topological order yields the same steps in the receipt. */
  lemma {:induction false} OrderDoesNotMatter(steps: Steps, order: seq<string>, n: nat, code: string -> int,
                                              behave: Behaviour, results: seq<StepResult>,
                                              behave': Behaviour, results': seq<StepResult>)
    requires Ordered(steps, order) && n <= |order|
    requires Faithful(steps, behave, results) && forall v <- steps :: Propagated(steps, results, v)
    requires Faithful(steps, behave', results') && forall v <- steps :: Propagated(steps, results', v)
    requires forall s, earlier :: behave(s, earlier) in {None, Some(code(s))}
    requires forall s, earlier :: behave'(s, earlier) in {None, Some(code(s))}
    ensures forall v <- order[..n] :: Appears(results, v) <==> Appears(results', v)
  {
    hide Succeeded, Appears, Faithful;
    if n > 0 {
      var m := n - 1;
      OrderDoesNotMatter(steps, order, m, code, behave, results, behave', results');
      var v := order[m];
      assert Propagated(steps, results, v) && Propagated(steps, results', v);
      forall d <- steps[v] ensures Succeeded(results, d) <==> Succeeded(results', d) {
        assert d in order[..m];
        CodeOf(steps, behave, code, results, d);
        CodeOf(steps, behave', code, results', d);
      }
      assert order[..n] == order[..m] + [v];
    }
  }
}
