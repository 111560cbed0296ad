/** `record_causal_events` (`executor/mod.rs`), and a whole run: build, sort, step loop,
    events, receipt. */
module CausalEvents {
  import opened Outcome
  import opened DependencyGraph
  import opened ExecutionGraph
  import opened KahnSort
  import opened PipelineRun

  type EventId = string

  datatype Event = Event(id: EventId, name: string, parents: seq<EventId>)

  /** The ledger names an event from what is recorded; it may also fail. */
  type Ledger = (string, seq<EventId>, StepResult, nat) -> Option<EventId>

  /** `parent` is the event that stands before `k` for step `d`. */
  ghost predicate ParentAt(events: seq<Event>, k: nat, d: string, parent: EventId)
    requires k <= |events|
  {
    exists j :: 0 <= j < k && events[j].name == d && events[j].id == parent
  }

  /** Event `k` belongs to result `k`, the ledger named it, and its parents are the events of the
      step's needs, one for one and all earlier in the list. */
  ghost predicate CausalAt(steps: Steps, ledger: Ledger, results: seq<StepResult>, events: seq<Event>, k: nat)
    requires k < |events| <= |results|
  {
    && events[k].name == results[k].name && events[k].name in steps
    && ledger(events[k].name, events[k].parents, results[k], k) == Some(events[k].id)
    && |events[k].parents| == |steps[events[k].name]|
    && forall m :: 0 <= m < |events[k].parents| ==>
         ParentAt(events, k, steps[events[k].name][m], events[k].parents[m])
  }

  /** `by_step`: the event of each step recorded so far. */
  ghost predicate Indexed(results: seq<StepResult>, events: seq<Event>, byStep: map<string, EventId>) {
    && |events| <= |results|
    && (forall k :: 0 <= k < |events| ==> events[k].name == results[k].name)
    && (forall k :: 0 <= k < |events| ==> events[k].name in byStep && byStep[events[k].name] == events[k].id)
    && (forall d <- byStep :: ParentAt(events, |events|, d, byStep[d]))
  }

  lemma IndexedMore(results: seq<StepResult>, events: seq<Event>, byStep: map<string, EventId>, e: Event)
    requires Indexed(results, events, byStep) && OneEach(results)
    requires |events| < |results| && e.name == results[|events|].name
    ensures Indexed(results, events + [e], byStep[e.name := e.id])
  {
    var more := events + [e];
    var n := |events|;
    var byStep' := byStep[e.name := e.id];
    forall d <- byStep' ensures ParentAt(more, n + 1, d, byStep'[d]) {
      if d == e.name {
        assert more[n].id == e.id;
      } else {
        var j :| 0 <= j < n && events[j].name == d && events[j].id == byStep[d];
        assert more[j] == events[j];
      }
    }
  }

  /** The need of a recorded step already has its event. */
  lemma NeedIndexed(steps: Steps, behave: Behaviour, results: seq<StepResult>, events: seq<Event>,
                    byStep: map<string, EventId>, d: string)
    requires Faithful(steps, behave, results) && Indexed(results, events, byStep) && |events| < |results|
    requires d in steps[results[|events|].name]
    ensures d in byStep
  {
    var n := |events|;
    assert NeedMet(results, n, d);
    var r :| r in results[..n] && r.name == d && r.exitCode == 0;
    var j :| 0 <= j < n && results[j] == r;
    assert events[j].name == d;
  }

  lemma CausalKept(steps: Steps, ledger: Ledger, results: seq<StepResult>, events: seq<Event>, e: Event, k: nat)
    requires k < |events| < |results| && CausalAt(steps, ledger, results, events, k)
    ensures CausalAt(steps, ledger, results, events + [e], k)
  {
    var more := events + [e];
    forall m | 0 <= m < |events[k].parents| ensures ParentAt(more, k, steps[events[k].name][m], more[k].parents[m]) {
      assert ParentAt(events, k, steps[events[k].name][m], events[k].parents[m]);
      var j :| 0 <= j < k && events[j].name == steps[events[k].name][m] && events[j].id == events[k].parents[m];
      assert more[j] == events[j];
    }
  }

  lemma CausalNew(steps: Steps, ledger: Ledger, results: seq<StepResult>, events: seq<Event>,
                  byStep: map<string, EventId>, e: Event)
    requires Indexed(results, events, byStep) && |events| < |results| && e.name == results[|events|].name
    requires e.name in steps && |e.parents| == |steps[e.name]|
    requires ledger(e.name, e.parents, results[|events|], |events|) == Some(e.id)
    requires forall m :: 0 <= m < |e.parents| ==> steps[e.name][m] in byStep && e.parents[m] == byStep[steps[e.name][m]]
    ensures CausalAt(steps, ledger, results, events + [e], |events|)
  {
    var more := events + [e];
    var n := |events|;
    forall m | 0 <= m < |e.parents| ensures ParentAt(more, n, steps[e.name][m], e.parents[m]) {
      var d := steps[e.name][m];
      var j :| 0 <= j < n && events[j].name == d && events[j].id == byStep[d];
      assert more[j] == events[j];
    }
  }

  /** `needs.iter().filter_map(..)`: drops the needs without an event. */
  method Parents(needs: seq<string>, byStep: map<string, EventId>) returns (parents: seq<EventId>)
    ensures (forall d <- needs :: d in byStep) ==>
      |parents| == |needs| && forall m :: 0 <= m < |needs| ==> parents[m] == byStep[needs[m]]
  {
    parents := [];
    for j := 0 to |needs|
      invariant (forall d <- needs :: d in byStep) ==>
        |parents| == j && forall m :: 0 <= m < j ==> parents[m] == byStep[needs[m]]
    {
      if needs[j] in byStep { parents := parents + [byStep[needs[j]]]; }
    }
  }

  lemma IndexedNone(results: seq<StepResult>)
    ensures Indexed(results, [], map[])
  {
  }

  /** The ledger names no event for one of the results. */
  ghost predicate Unnamed(ledger: Ledger, results: seq<StepResult>, k: nat, parents: seq<EventId>) {
    k < |results| && ledger(results[k].name, parents, results[k], k) == None
  }

  /** One event per result; no parent is dropped and none is forged. Only the ledger can stop it. */
  method RecordCausalEvents(pipeline: Steps, ghost behave: Behaviour, results: seq<StepResult>, ledger: Ledger)
    returns (recorded: Result<seq<Event>>)
    requires Faithful(pipeline, behave, results)
    ensures recorded.Ok? ==>
      && |recorded.value| == |results|
      && forall k :: 0 <= k < |results| ==> CausalAt(pipeline, ledger, results, recorded.value, k)
    ensures recorded.Err? ==> exists k, parents :: Unnamed(ledger, results, k, parents)
  {
    hide CausalAt, Indexed, NeedMet;
    var byStep: map<string, EventId> := map[];
    var events: seq<Event> := [];
    IndexedNone(results);
    for k := 0 to |results|
      invariant |events| == k && Indexed(results, events, byStep)
      invariant forall i :: 0 <= i < k ==> CausalAt(pipeline, ledger, results, events, i)
    {
      var name := results[k].name;
      var needs := pipeline[name];
      var parents := Parents(needs, byStep);
      forall d <- needs ensures d in byStep { NeedIndexed(pipeline, behave, results, events, byStep, d); }
      var id := ledger(name, parents, results[k], k);
      if id.None? {
        assert Unnamed(ledger, results, k, parents);
        return Err;
      }
      var event := Event(id.value, name, parents);
      IndexedMore(results, events, byStep, event);
      CausalNew(pipeline, ledger, results, events, byStep, event);
      forall i | 0 <= i < k ensures CausalAt(pipeline, ledger, results, events + [event], i) {
        CausalKept(pipeline, ledger, results, events, event, i);
      }
      byStep := byStep[name := id.value];
      events := events + [event];
    }
    return Ok(events);
  }

  datatype Receipt = Receipt(steps: seq<StepResult>, causalEvents: seq<Event>)

  /** No step and no event meets an error. */
  ghost predicate AlwaysAnswer(behave: Behaviour, ledger: Ledger) {
    && (forall v, earlier :: behave(v, earlier).Some?)
    && (forall v, parents, r, k :: ledger(v, parents, r, k).Some?)
  }

  /** `Executor::run`: a receipt only for known, acyclic pipelines, with failure
      propagation and causal parents as the needs dictate, and no waiting. When the environment and
      the ledger always answer, every known, acyclic pipeline has its receipt, whatever fails. */
  method Execute(pipeline: Steps, behave: Behaviour, ledger: Ledger) returns (outcome: Result<Receipt>, waited: bool)
    ensures !waited
    ensures outcome.Ok? ==>
      && AllKnown(pipeline) && Acyclic(pipeline)
      && Faithful(pipeline, behave, outcome.value.steps)
      && (forall v <- pipeline ::
            Appears(outcome.value.steps, v) <==>
            forall u | Ancestor(pipeline, u, v) :: Succeeded(outcome.value.steps, u))
      && |outcome.value.causalEvents| == |outcome.value.steps|
      && forall k :: 0 <= k < |outcome.value.steps| ==>
           CausalAt(pipeline, ledger, outcome.value.steps, outcome.value.causalEvents, k)
    ensures outcome.Err? ==>
      || !AllKnown(pipeline) || !Acyclic(pipeline)
      || (exists v, earlier :: Unanswered(pipeline, behave, v, earlier))
      || (exists results, k, parents :: Faithful(pipeline, behave, results) && Unnamed(ledger, results, k, parents))
    ensures AllKnown(pipeline) && Acyclic(pipeline) && AlwaysAnswer(behave, ledger) ==> outcome.Ok?
  {
    hide AllKnown, Acyclic, Faithful, CausalAt, Appears, Succeeded, Represents, Ancestor, Propagated;
    var dag := Build(pipeline);
    if dag.Err? { return Err, false; }
    var order := TopologicalSort(dag.value, pipeline);
    var results;
    results, waited := RunSteps(pipeline, order.value, behave);
    if results.Err? { return Err, waited; }
    var events := RecordCausalEvents(pipeline, behave, results.value, ledger);
    if events.Err? { return Err, waited; }
    forall v <- pipeline
      ensures Appears(results.value, v) <==> forall u | Ancestor(pipeline, u, v) :: Succeeded(results.value, u)
    {
      AppearsIffAncestorsSucceeded(pipeline, results.value, v);
    }
    return Ok(Receipt(results.value, events.value)), waited;
  }
}
