/** Runs from the initial state: one confirms, one loses its confirmation, one submits twice. */
module PublicationRuns {
  import opened Outcome
  import opened Merkle
  import opened LogProofs
  import opened PublicationEvidence
  import opened PublicationProtocol
  import opened PublicationSafety
  import opened PublicationSteps
  import opened PublicationHistory
  import opened PublicationResume

  // ---------------------------------------------------------------------
  // The stretches of a run
  // ---------------------------------------------------------------------

  /** A publisher takes the lock and saves a new record. */
  function Opening(job: Job, nonce: string): seq<Event> {
    [Acquire(0, job), Act(0, Load(true, nonce, 0)), Act(0, Save(Saved))]
  }

  lemma Opens(H: Digest, job: Job, nonce: string, r: PublicationRecord)
    requires NewRecord(H, job, nonce, 0) == Some(r)
    ensures
      var s := Run(H, INITIAL, Opening(job, nonce));
      Runs(s, 0, job, Loaded(r)) && s.disk == Some(r) && s.lock == Some(0) && s.posts == []
  {
    hide Next, NewRecord, Run;
    var acquire, load, save := Acquire(0, job), Act(0, Load(true, nonce, 0)), Act(0, Save(Saved));
    RunThree(H, INITIAL, acquire, load, save);
    OnAcquire(H, INITIAL, 0, job);
    OnLoad(H, Next(H, INITIAL, acquire), 0, job, true, nonce, 0);
    OnSave(H, Next(H, Next(H, INITIAL, acquire), load), 0, job, Creating(r), r, Saved);
  }

  /** It records an attempt and sends its entry. */
  function Submitting(): seq<Event> { [Act(0, Enter), Act(0, Decide(0)), Act(0, Save(Saved)), Act(0, Send)] }

  lemma Intends(H: Digest, s: State, job: Job, r: PublicationRecord)
    requires Runs(s, 0, job, Loaded(r)) && r.submissions == [] && EntryBytes(H, r, r.causalRoot).Some?
    ensures
      var t := Next(H, Next(H, s, Act(0, Enter)), Act(0, Decide(0)));
      SameFiles(s, t) && Runs(t, 0, job, Intending(r.(submissions := [Submission(0, None)])))
  {
    assert r.submissions + [Submission(0, None)] == [Submission(0, None)];
    hide Next, EntryBytes;
    OnEnter(H, s, 0, job, r);
    OnDecide(H, Next(H, s, Act(0, Enter)), 0, job, r, 0);
  }

  lemma Sends(H: Digest, s: State, job: Job, sent: PublicationRecord)
    requires Runs(s, 0, job, Intending(sent)) && EntryBytes(H, sent, sent.causalRoot).Some?
    ensures
      var t := Next(H, Next(H, s, Act(0, Save(Saved))), Act(0, Send));
      && Runs(t, 0, job, Awaiting(sent)) && t.disk == Some(sent) && t.lock == s.lock
      && t.posts == s.posts + [Post(EntryBytes(H, sent, sent.causalRoot).value, |sent.submissions|)]
  {
    hide Next, EntryBytes;
    OnSave(H, s, 0, job, Intending(sent), sent, Saved);
    OnSend(H, Next(H, s, Act(0, Save(Saved))), 0, job, sent);
  }

  lemma Submits(H: Digest, s: State, job: Job, r: PublicationRecord)
    requires Runs(s, 0, job, Loaded(r)) && r.submissions == [] && EntryBytes(H, r, r.causalRoot).Some?
    ensures
      var t, sent := Run(H, s, Submitting()), r.(submissions := [Submission(0, None)]);
      && Runs(t, 0, job, Awaiting(sent)) && t.disk == Some(sent) && t.lock == s.lock
      && t.posts == s.posts + [Post(EntryBytes(H, r, r.causalRoot).value, 1)]
  {
    var sent := r.(submissions := [Submission(0, None)]);
    SameOpens(H, sent, r);
    hide Next, Run, EntryBytes, Runs;
    RunFour(H, s, Act(0, Enter), Act(0, Decide(0)), Act(0, Save(Saved)), Act(0, Send));
    Intends(H, s, job, r);
    Sends(H, Next(H, Next(H, s, Act(0, Enter)), Act(0, Decide(0))), job, sent);
  }

  /** The service answers index 0, and the log shows a checkpoint that proves it. */
  function Confirming(note: string): seq<Event> {
    [Act(0, Receive(Index(0))), Act(0, Save(Saved)), Act(0, Decide(0)), Act(0, Poll(Found(note, [])))]
  }

  lemma Confirms(H: Digest, s: State, job: Job, sent: PublicationRecord, note: string)
    requires Runs(s, 0, job, Awaiting(sent)) && |sent.submissions| == 1
    requires
      var known := sent.(submissions := [sent.submissions[0].(returnedIndex := Some(0))]);
      VerifyRecord(H, known.(outcome := Confirmed(0, note, [])), sent.causalRoot, job.trust).Some?
    ensures
      var t := Run(H, s, Confirming(note));
      0 in t.procs && t.procs[0].phase.Confirming? && t.procs[0].job == job
  {
    var answer := [sent.submissions[0].(returnedIndex := Some(0))];
    var known := WithReason(sent.(submissions := answer), AwaitingInclusion);
    assert sent.submissions[0 := answer[0]] == answer;
    assert ReturnedIndex(answer) == Some(0);
    hide Next, Run, VerifyRecord, ReturnedIndex;
    var receive, save, decide := Act(0, Receive(Index(0))), Act(0, Save(Saved)), Act(0, Decide(0));
    var poll := Act(0, Poll(Found(note, [])));
    RunFour(H, s, receive, save, decide, poll);
    var s1 := Next(H, s, receive);
    var s2 := Next(H, s1, save);
    OnIndex(H, s, 0, job, sent, 0);
    OnSave(H, s1, 0, job, Answered(known), known, Saved);
    OnDecide(H, s2, 0, job, known, 0);
    OnPoll(H, Next(H, s2, decide), 0, job, known, 0, 0, Found(note, []));
  }

  // ---------------------------------------------------------------------
  // Whole runs
  // ---------------------------------------------------------------------

  predicate HashTexts(root: string, nonce: string) { Hex.HashBytes(root).Some? && Hex.HashBytes(nonce).Some? }

  /** A log that holds the one entry. */
  function OneEntryLog(H: Digest, root: string, nonce: string): LogTrust
    requires HashTexts(root, nonce)
  {
    LogTrust(Some(root), note => Some(Checkpoint(1, LeafHash(H, EntryForRoot(H, root, nonce).value), note)))
  }

  function OneEntryJob(H: Digest, root: string, nonce: string): Job
    requires HashTexts(root, nonce)
  {
    Job(root, root, "", OneEntryLog(H, root, nonce))
  }

  function FirstRecord(H: Digest, root: string, nonce: string): PublicationRecord
    requires HashTexts(root, nonce)
  {
    PublicationRecord(RECORD_FORMAT, root, nonce, Hex.Encode(EntryForRoot(H, root, nonce).value), root, "", 0, [],
                      Unconfirmed(Prepared))
  }

  lemma FirstRecordOpens(H: Digest, root: string, nonce: string)
    requires HashTexts(root, nonce)
    ensures NewRecord(H, OneEntryJob(H, root, nonce), nonce, 0) == Some(FirstRecord(H, root, nonce))
    ensures EntryBytes(H, FirstRecord(H, root, nonce), root) == EntryForRoot(H, root, nonce)
  {
    hide Hex.HashBytes, Hex.Encode;
  }

  /** The one entry is proved by an empty path. */
  lemma OneEntryVerifies(H: Digest, root: string, nonce: string, r: PublicationRecord, note: string)
    requires HashTexts(root, nonce)
    requires SameIdentity(r, FirstRecord(H, root, nonce)) && |r.submissions| <= MAX_SUBMISSIONS
    requires r.outcome == Confirmed(0, note, [])
    ensures VerifyRecord(H, r, root, OneEntryLog(H, root, nonce)).Some?
  {
    var entry := EntryForRoot(H, root, nonce).value;
    FirstRecordOpens(H, root, nonce);
    SameOpens(H, r, FirstRecord(H, root, nonce));
    hide EntryBytes, EntryForRoot;
    assert DecodeNodes([]) == Some([]);
    assert InclusionHolds(H, entry, 0, 1, [], LeafHash(H, entry));
  }

  function SubmittingRun(H: Digest, root: string, nonce: string): seq<Event>
    requires HashTexts(root, nonce)
  {
    Opening(OneEntryJob(H, root, nonce), nonce) + Submitting()
  }

  lemma Submitted(H: Digest, root: string, nonce: string)
    requires HashTexts(root, nonce)
    ensures
      var s := Run(H, INITIAL, SubmittingRun(H, root, nonce));
      var sent := FirstRecord(H, root, nonce).(submissions := [Submission(0, None)]);
      && Runs(s, 0, OneEntryJob(H, root, nonce), Awaiting(sent)) && Inv(H, s)
      && s.posts == [Post(EntryForRoot(H, root, nonce).value, 1)]
  {
    var job, r := OneEntryJob(H, root, nonce), FirstRecord(H, root, nonce);
    FirstRecordOpens(H, root, nonce);
    InitialInv(H);
    hide Next, Inv, EntryBytes, EntryForRoot, NewRecord;
    Opens(H, job, nonce, r);
    Submits(H, Run(H, INITIAL, Opening(job, nonce)), job, r);
    RunSplit(H, INITIAL, Opening(job, nonce), Submitting());
    RunKeeps(H, INITIAL, SubmittingRun(H, root, nonce));
  }

  function ConfirmingRun(H: Digest, root: string, nonce: string, note: string): seq<Event>
    requires HashTexts(root, nonce)
  {
    SubmittingRun(H, root, nonce) + Confirming(note)
  }

  lemma Verified(H: Digest, root: string, nonce: string, note: string)
    requires HashTexts(root, nonce)
    ensures
      var s := Run(H, INITIAL, ConfirmingRun(H, root, nonce, note));
      Inv(H, s) && 0 in s.procs && s.procs[0].phase.Confirming?
  {
    var job, r := OneEntryJob(H, root, nonce), FirstRecord(H, root, nonce);
    var s, sent := Run(H, INITIAL, SubmittingRun(H, root, nonce)), r.(submissions := [Submission(0, None)]);
    Submitted(H, root, nonce);
    InitialInv(H);
    RunKeeps(H, INITIAL, ConfirmingRun(H, root, nonce, note));
    hide Next, Inv, EntryForRoot, VerifyRecord, Run;
    var known := sent.(submissions := [sent.submissions[0].(returnedIndex := Some(0))]);
    OneEntryVerifies(H, root, nonce, known.(outcome := Confirmed(0, note, [])), note);
    Confirms(H, s, job, sent, note);
    RunSplit(H, INITIAL, SubmittingRun(H, root, nonce), Confirming(note));
  }

  lemma SavesConfirmation(H: Digest, s: State, p: Pid)
    requires Inv(H, s) && p in s.procs && s.procs[p].phase.Confirming?
    ensures IsConfirmed(Next(H, s, Act(p, Save(Saved))))
  {
    hide EntryBytes, VerifyRecord;
  }

  /** A run that ends with a stored Confirmed record, every save of it atomic. */
  lemma ConfirmationIsReached(H: Digest, root: string, nonce: string, note: string)
    requires HashTexts(root, nonce)
    ensures
      var run := ConfirmingRun(H, root, nonce, note) + [Act(0, Save(Saved))];
      IsConfirmed(Run(H, INITIAL, run)) && forall e <- run :: !IsUnsynced(e)
  {
    var past := ConfirmingRun(H, root, nonce, note);
    Verified(H, root, nonce, note);
    RunSnoc(H, INITIAL, past, Act(0, Save(Saved)));
    SavesConfirmation(H, Run(H, INITIAL, past), 0);
  }

  /** A run that loses a confirmation: the last save but one replaces the file and reports an
      error, and the next one takes the confirmation back. */
  lemma ConfirmationIsLost(H: Digest, root: string, nonce: string, note: string)
    requires HashTexts(root, nonce)
    ensures
      var run := ConfirmingRun(H, root, nonce, note) + [Act(0, Save(Unsynced))];
      var later := Run(H, INITIAL, run + [Act(0, Save(Saved))]);
      && IsConfirmed(Run(H, INITIAL, run))
      && later.disk.Some? && later.disk.value.outcome == Unconfirmed(InvalidProof)
  {
    var past := ConfirmingRun(H, root, nonce, note);
    Verified(H, root, nonce, note);
    hide Next, Run, Inv;
    RunSnoc(H, INITIAL, past, Act(0, Save(Unsynced)));
    RunSnoc(H, INITIAL, past + [Act(0, Save(Unsynced))], Act(0, Save(Saved)));
    UnsyncedConfirmationIsLost(H, Run(H, INITIAL, past), 0);
  }

  lemma OnlyOneRuns(H: Digest, root: string, nonce: string)
    requires HashTexts(root, nonce)
    ensures At(Run(H, INITIAL, SubmittingRun(H, root, nonce)), 1) == Idle
  {
    var s := Run(H, INITIAL, SubmittingRun(H, root, nonce));
    Submitted(H, root, nonce);
    hide Inv, Run;
    if 1 in s.procs { OthersIdle(H, s, 0); }
  }

  /** The first publisher awaits the reply to a record that `job` takes up. */
  ghost predicate Pending(H: Digest, s: State, job: Job, entry: Bytes) {
    && Inv(H, s) && 0 in s.procs && s.procs[0].phase.Awaiting? && At(s, 1) == Idle && s.posts == [Post(entry, 1)]
    && var sent := s.procs[0].phase.record;
       |sent.submissions| == 1 && Takes(job, sent) && EntryBytes(H, sent, sent.causalRoot) == Some(entry)
  }

  /** Two posts of one entry. */
  predicate TwicePosted(posts: seq<Post>, entry: Bytes) { posts == [Post(entry, 1), Post(entry, 2)] }

  lemma PostedAgain(posts: seq<Post>, entry: Bytes)
    requires posts == [Post(entry, 1)]
    ensures TwicePosted(posts + [Post(entry, 2)], entry)
  {
  }

  lemma CrashSubmitsTwice(H: Digest, past: seq<Event>, job: Job, entry: Bytes)
    requires Pending(H, Run(H, INITIAL, past), job, entry)
    ensures TwicePosted(Run(H, INITIAL, past + (CrashHandover(0, 0, 1, job) + Resume(1))).posts, entry)
  {
    hide Next, Run, Inv, EntryBytes, Resume, TwicePosted, CrashHandover;
    var s := Run(H, INITIAL, past);
    CrashBeforeSaveResubmits(H, s, 0, 0, 1, job);
    PostedAgain(s.posts, entry);
    RunSplit(H, INITIAL, past, CrashHandover(0, 0, 1, job) + Resume(1));
  }

  lemma FailuresSubmitTwice(H: Digest, past: seq<Event>, job: Job, entry: Bytes)
    requires Pending(H, Run(H, INITIAL, past), job, entry)
    ensures TwicePosted(Run(H, INITIAL, past + (FailedHandover(0, 0, 0, job) + Resume(0))).posts, entry)
  {
    hide Next, Run, Inv, EntryBytes, Resume, TwicePosted, FailedHandover;
    var s := Run(H, INITIAL, past);
    FailedSavesResubmit(H, s, 0, 0, 0, job);
    PostedAgain(s.posts, entry);
    RunSplit(H, INITIAL, past, FailedHandover(0, 0, 0, job) + Resume(0));
  }

  lemma Outstanding(H: Digest, root: string, nonce: string)
    requires HashTexts(root, nonce)
    ensures
      var s, entry := Run(H, INITIAL, SubmittingRun(H, root, nonce)), EntryForRoot(H, root, nonce).value;
      Pending(H, s, OneEntryJob(H, root, nonce), entry)
  {
    var r := FirstRecord(H, root, nonce);
    FirstRecordOpens(H, root, nonce);
    SameOpens(H, r.(submissions := [Submission(0, None)]), r);
    Submitted(H, root, nonce);
    OnlyOneRuns(H, root, nonce);
    hide Run, Inv, EntryBytes, EntryForRoot;
  }

  /** A run that submits one entry twice although the service answered the first time: the
      publisher crashes before the answer is saved, and another takes over. */
  lemma EntryIsSubmittedTwice(H: Digest, root: string, nonce: string)
    requires HashTexts(root, nonce)
    ensures
      var handover := CrashHandover(0, 0, 1, OneEntryJob(H, root, nonce));
      var s := Run(H, INITIAL, SubmittingRun(H, root, nonce) + (handover + Resume(1)));
      TwicePosted(s.posts, EntryForRoot(H, root, nonce).value)
  {
    Outstanding(H, root, nonce);
    CrashSubmitsTwice(H, SubmittingRun(H, root, nonce), OneEntryJob(H, root, nonce),
                      EntryForRoot(H, root, nonce).value);
  }

  /** The same without a crash: both saves after the reply fail, and the publisher runs again. */
  lemma EntryIsSubmittedTwiceAlive(H: Digest, root: string, nonce: string)
    requires HashTexts(root, nonce)
    ensures
      var handover := FailedHandover(0, 0, 0, OneEntryJob(H, root, nonce));
      var s := Run(H, INITIAL, SubmittingRun(H, root, nonce) + (handover + Resume(0)));
      TwicePosted(s.posts, EntryForRoot(H, root, nonce).value)
  {
    Outstanding(H, root, nonce);
    FailuresSubmitTwice(H, SubmittingRun(H, root, nonce), OneEntryJob(H, root, nonce),
                        EntryForRoot(H, root, nonce).value);
  }
}
