/** Runs of the protocol, and what each event does for the publisher that takes it.

    A run of several events is the state transitions one after another, split wherever a
    proof needs it. Each lemma on an event starts from the phase the publisher is in and
    says which phase it is in afterwards, and that files, lock and requests are as they
    were unless the event is about them. The program of the client and the runs that
    exhibit a behaviour are followed with these, one event at a time. */
module PublicationSteps {
  import opened Numbers
  import opened Outcome
  import opened Merkle
  import opened PublicationEvidence
  import opened PublicationProtocol

  lemma RunStep(H: Digest, s: State, e: Event, rest: seq<Event>)
    ensures Run(H, s, [e] + rest) == Run(H, Next(H, s, e), rest)
  {
    hide Next;
    assert ([e] + rest)[1..] == rest;
  }

  lemma RunNothing(H: Digest, s: State)
    ensures Run(H, s, []) == s
  {
  }

  lemma RunOne(H: Digest, s: State, e: Event)
    ensures Run(H, s, [e]) == Next(H, s, e)
  {
    hide Next;
    assert Run(H, Next(H, s, e), [e][1..]) == Next(H, s, e);
  }

  lemma RunThree(H: Digest, s: State, a: Event, b: Event, c: Event)
    ensures Run(H, s, [a, b, c]) == Next(H, Next(H, Next(H, s, a), b), c)
  {
    hide Next, Run;
    RunStep(H, s, a, [b, c]);
    RunStep(H, Next(H, s, a), b, [c]);
    RunStep(H, Next(H, Next(H, s, a), b), c, []);
    assert [a, b, c] == [a] + [b, c] && [b, c] == [b] + [c] && [c] == [c] + [];
    RunNothing(H, Next(H, Next(H, Next(H, s, a), b), c));
  }

  lemma RunFour(H: Digest, s: State, a: Event, b: Event, c: Event, d: Event)
    ensures Run(H, s, [a, b, c, d]) == Next(H, Next(H, Next(H, Next(H, s, a), b), c), d)
  {
    hide Next, Run;
    var s1 := Next(H, s, a);
    var s2 := Next(H, s1, b);
    var s3 := Next(H, s2, c);
    RunStep(H, s, a, [b, c, d]);
    RunStep(H, s1, b, [c, d]);
    RunStep(H, s2, c, [d]);
    RunStep(H, s3, d, []);
    assert [a, b, c, d] == [a] + [b, c, d] && [b, c, d] == [b] + [c, d] && [c, d] == [c] + [d] && [d] == [d] + [];
    RunNothing(H, Next(H, s3, d));
  }

  lemma {:induction false} RunSnoc(H: Digest, s: State, events: seq<Event>, e: Event)
    ensures Run(H, s, events + [e]) == Next(H, Run(H, s, events), e)
    decreases |events|
  {
    hide Next;
    if events == [] {
      assert ([] + [e])[1..] == [];
      assert Run(H, s, [e]) == Run(H, Next(H, s, e), []);
    } else {
      assert (events + [e])[0] == events[0] && (events + [e])[1..] == events[1..] + [e];
      RunSnoc(H, Next(H, s, events[0]), events[1..], e);
    }
  }

  lemma {:induction false} RunSplit(H: Digest, s: State, a: seq<Event>, b: seq<Event>)
    ensures Run(H, s, a + b) == Run(H, Run(H, s, a), b)
    decreases |a|
  {
    hide Next;
    if a == [] {
      assert a + b == b;
    } else {
      assert (a + b)[0] == a[0] && (a + b)[1..] == a[1..] + b;
      RunSplit(H, Next(H, s, a[0]), a[1..], b);
    }
  }

  // ---------------------------------------------------------------------
  // What each event does for the publisher that takes it
  // ---------------------------------------------------------------------

  ghost predicate Runs(s: State, p: Pid, job: Job, phase: Phase) {
    p in s.procs && s.procs[p] == Proc(job, phase) && phase != Idle
  }

  ghost predicate SameFiles(s: State, t: State) { t.disk == s.disk && t.lock == s.lock && t.posts == s.posts }

  lemma OnEnter(H: Digest, s: State, p: Pid, job: Job, r: PublicationRecord)
    requires Runs(s, p, job, Loaded(r))
    ensures
      var t := Next(H, s, Act(p, Enter));
      SameFiles(s, t) && Runs(t, p, job,
        if EntryBytes(H, r, r.causalRoot).None? then Finishing(Closed(WithReason(r, InvalidProof))) else Deciding(r))
  {
    hide EntryBytes, Closed;
  }

  lemma OnDecide(H: Digest, s: State, p: Pid, job: Job, r: PublicationRecord, now: int)
    requires Runs(s, p, job, Deciding(r))
    ensures
      var t, index := Next(H, s, Act(p, Decide(now))), ReturnedIndex(r.submissions);
      SameFiles(s, t) && Runs(t, p, job,
        if index.Some? then Polling(r, index.value, 0)
        else if |r.submissions| < MAX_SUBMISSIONS
        then Intending(r.(submissions := r.submissions + [Submission(now, None)]))
        else Finishing(Closed(r)))
  {
    hide ReturnedIndex, Closed;
  }

  lemma OnSend(H: Digest, s: State, p: Pid, job: Job, r: PublicationRecord)
    requires Runs(s, p, job, Posting(r)) && EntryBytes(H, r, r.causalRoot).Some?
    ensures
      var t := Next(H, s, Act(p, Send));
      && t.disk == s.disk && t.lock == s.lock && Runs(t, p, job, Awaiting(r))
      && t.posts == s.posts + [Post(EntryBytes(H, r, r.causalRoot).value, |r.submissions|)]
  {
    hide EntryBytes;
  }

  lemma OnIndex(H: Digest, s: State, p: Pid, job: Job, r: PublicationRecord, i: u64)
    requires Runs(s, p, job, Awaiting(r)) && r.submissions != []
    ensures
      var t, n := Next(H, s, Act(p, Receive(Index(i)))), |r.submissions| - 1;
      var known := r.(submissions := r.submissions[n := r.submissions[n].(returnedIndex := Some(i))]);
      SameFiles(s, t) && Runs(t, p, job, Answered(WithReason(known, AwaitingInclusion)))
  {
  }

  lemma OnFault(H: Digest, s: State, p: Pid, job: Job, r: PublicationRecord, f: Fault)
    requires Runs(s, p, job, Awaiting(r)) || Runs(s, p, job, Posting(r))
    ensures
      var t := Next(H, s, Act(p, Receive(Reply.Fault(f))));
      SameFiles(s, t) && Runs(t, p, job, Refused(WithReason(r, ReasonOf(f)), Final(f)))
  {
    hide ReasonOf, Final;
  }

  lemma OnWake(H: Digest, s: State, p: Pid, job: Job, r: PublicationRecord)
    requires Runs(s, p, job, Sleeping(r))
    ensures
      var t := Next(H, s, Act(p, Wake));
      SameFiles(s, t) && Runs(t, p, job, Deciding(r))
  {
  }

  /** The deadline fires where the program waits. */
  lemma OnDeadline(H: Digest, s: State, p: Pid, job: Job, r: PublicationRecord, phase: Phase)
    requires Runs(s, p, job, phase)
    requires || phase == Posting(r) || phase == Awaiting(r) || phase == Sleeping(r)
             || (phase.Polling? && phase.record == r)
    ensures
      var t := Next(H, s, Act(p, Action.Deadline));
      SameFiles(s, t) && Runs(t, p, job, Finishing(WithReason(r, UnconfirmedReason.Deadline)))
  {
  }

  lemma OnPoll(H: Digest, s: State, p: Pid, job: Job, r: PublicationRecord, index: u64, polls: nat, look: Look)
    requires Runs(s, p, job, Polling(r, index, polls)) && polls < MAX_CHECKPOINT_POLLS
    ensures
      var t := Next(H, s, Act(p, Action.Poll(look)));
      SameFiles(s, t) &&
      match look
      case LookFault(f) => Runs(t, p, job, Finishing(Closed(WithReason(r, ReasonOf(f)))))
      case NotYet => Runs(t, p, job, Polling(r, index, polls + 1))
      case Found(note, path) =>
        var confirmed := r.(outcome := Confirmed(index, note, path));
        Runs(t, p, job, if VerifyRecord(H, confirmed, r.causalRoot, job.trust).Some? then Confirming(r, confirmed)
                        else Finishing(Closed(WithReason(r, InvalidProof))))
  {
    hide VerifyRecord, Closed, ReasonOf;
  }

  lemma OnLastPoll(H: Digest, s: State, p: Pid, job: Job, r: PublicationRecord, index: u64)
    requires Runs(s, p, job, Polling(r, index, MAX_CHECKPOINT_POLLS))
    ensures
      var t := Next(H, s, Act(p, Action.Poll(NotYet)));
      SameFiles(s, t) && Runs(t, p, job, Finishing(Closed(r)))
  {
    hide Closed;
  }

  /** Where a pending save leaves its publisher. */
  function AfterPhase(phase: Phase, ok: bool): Phase {
    match phase
    case Creating(r) => if ok then Loaded(r) else Idle
    case Intending(r) => if ok then Posting(r) else Finishing(Closed(WithReason(r, InvalidProof)))
    case Answered(r) => if ok then Deciding(r) else Finishing(Closed(WithReason(r, InvalidProof)))
    case Refused(r, stop) =>
      if !ok then Finishing(Closed(WithReason(r, InvalidProof))) else if stop then Finishing(Closed(r)) else Sleeping(r)
    case Confirming(r, c) => if ok then Finishing(c) else Finishing(Closed(WithReason(r, InvalidProof)))
    case Finishing(_) => Idle
    case _ => phase
  }

  lemma OnSave(H: Digest, s: State, p: Pid, job: Job, phase: Phase, saved: PublicationRecord, result: SaveResult)
    requires Runs(s, p, job, phase) && PendingSave(phase) == Some(saved)
    ensures
      var t := Next(H, s, Act(p, Action.Save(result)));
      var kept := result.NotSaved? || (phase.Creating? && s.disk.Some?);
      var next := AfterPhase(phase, !kept && result.Saved?);
      && t.disk == (if kept then s.disk else Some(saved)) && t.posts == s.posts
      && p in t.procs && t.procs[p] == Proc(job, next)
      && t.lock == if next == Idle then None else s.lock
  {
    hide Closed;
  }

  lemma OnAcquire(H: Digest, s: State, p: Pid, job: Job)
    requires s.lock.None? && At(s, p) == Idle
    ensures
      var t := Next(H, s, Acquire(p, job));
      t.disk == s.disk && t.posts == s.posts && t.lock == Some(p) && Runs(t, p, job, Locked)
  {
  }

  /** Where loading leads; `None` ends the run. */
  function LoadedPhase(H: Digest, job: Job, disk: Option<PublicationRecord>, readable: bool, nonce: string,
                       now: int): Option<Phase>
  {
    if !readable then None
    else if disk.None? then
      var created := NewRecord(H, job, nonce, now);
      if created.None? then None else Some(Creating(created.value))
    else
      var r := disk.value;
      if EntryBytes(H, r, job.root).None? || r.logId != job.logId || r.submitUrl != job.submitUrl
         || r.outcome.Confirmed?
      then None else Some(Loaded(r))
  }

  lemma OnLoad(H: Digest, s: State, p: Pid, job: Job, readable: bool, nonce: string, now: int)
    requires Runs(s, p, job, Locked)
    ensures
      var t, phase := Next(H, s, Act(p, Load(readable, nonce, now))), LoadedPhase(H, job, s.disk, readable, nonce, now);
      && t.disk == s.disk && t.posts == s.posts
      && (phase.Some? ==> t.lock == s.lock && Runs(t, p, job, phase.value))
      && (phase.None? ==> t.lock.None? && At(t, p) == Idle)
  {
    hide EntryBytes, NewRecord;
  }

  lemma {:induction false} NoIndex(submissions: seq<Submission>)
    ensures ReturnedIndex(submissions).None? <==> forall a <- submissions :: a.returnedIndex.None?
    decreases |submissions|
  {
    if submissions != [] {
      var n := |submissions| - 1;
      assert submissions == submissions[..n] + [submissions[n]];
      NoIndex(submissions[..n]);
    }
  }

  lemma NewRecordOf(H: Digest, job: Job, nonce: string, now: int)
    requires NewRecord(H, job, nonce, now).Some?
    ensures NewRecord(H, job, nonce, now).value.causalRoot == job.root
    ensures NewRecord(H, job, nonce, now).value.outcome.Unconfirmed?
  {
  }

  lemma RootOfEntry(H: Digest, r: PublicationRecord, root: string)
    requires EntryBytes(H, r, root).Some?
    ensures r.causalRoot == root
  {
  }

  lemma OnCrash(H: Digest, s: State, p: Pid, job: Job, phase: Phase)
    requires Runs(s, p, job, phase)
    ensures
      var t := Next(H, s, Act(p, Crash));
      SameFiles(s, t) && At(t, p) == Idle && forall q :: q != p ==> At(t, q) == At(s, q)
  {
  }

  lemma OnClear(H: Digest, s: State)
    requires s.lock.Some? && At(s, s.lock.value) == Idle
    ensures
      var t := Next(H, s, ClearStaleLock);
      t.disk == s.disk && t.posts == s.posts && t.lock.None? && t.procs == s.procs
  {
  }
}
