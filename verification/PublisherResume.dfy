/** When a record can still be submitted, and the ways in which one entry is submitted again. */
module PublicationResume {
  import opened Numbers
  import opened Outcome
  import opened Merkle
  import opened PublicationEvidence
  import opened PublicationProtocol
  import opened PublicationSafety
  import opened PublicationSteps
  import opened PublicationHistory

  /** A job that takes this record up. */
  predicate Takes(job: Job, r: PublicationRecord) {
    job.root == r.causalRoot && job.logId == r.logId && job.submitUrl == r.submitUrl
  }

  /** A record that a publisher submits when it takes it up. */
  predicate Unanswered(H: Digest, r: PublicationRecord) {
    && r.outcome.Unconfirmed? && |r.submissions| < MAX_SUBMISSIONS && !KnowsIndex(r.submissions)
    && EntryBytes(H, r, r.causalRoot).Some?
  }

  /** A publisher takes up an existing record and goes as far as its request. */
  function Resume(q: Pid): seq<Event> {
    [Act(q, Load(true, "", 0)), Act(q, Enter), Act(q, Decide(0)), Act(q, Save(Saved))] + [Act(q, Send)]
  }

  /** The reply arrives, its receiver crashes, and another publisher clears the lock and takes it. */
  function CrashHandover(p: Pid, index: u64, q: Pid, job: Job): seq<Event> {
    [Act(p, Receive(Index(index))), Act(p, Crash), ClearStaleLock, Acquire(q, job)]
  }

  /** The reply arrives, neither save after it takes effect, and a publisher runs next. */
  function FailedHandover(p: Pid, index: u64, q: Pid, job: Job): seq<Event> {
    [Act(p, Receive(Index(index))), Act(p, Save(NotSaved)), Act(p, Save(NotSaved)), Acquire(q, job)]
  }

  lemma ResumedIntends(H: Digest, s: State, q: Pid, job: Job, r: PublicationRecord)
    requires s.disk == Some(r) && Runs(s, q, job, Locked) && Unanswered(H, r) && Takes(job, r)
    ensures
      var s3 := Next(H, Next(H, Next(H, s, Act(q, Load(true, "", 0))), Act(q, Enter)), Act(q, Decide(0)));
      SameFiles(s, s3) && Runs(s3, q, job, Intending(r.(submissions := r.submissions + [Submission(0, None)])))
  {
    ReturnedIndexKnows(r.submissions);
    hide Next, EntryBytes, KnowsIndex, ReturnedIndex;
    var s1 := Next(H, s, Act(q, Load(true, "", 0)));
    OnLoad(H, s, q, job, true, "", 0);
    OnEnter(H, s1, q, job, r);
    OnDecide(H, Next(H, s1, Act(q, Enter)), q, job, r, 0);
  }

  /** An intent that is saved is followed by its request. */
  lemma IntentIsSent(H: Digest, s: State, q: Pid, job: Job, r: PublicationRecord)
    requires Runs(s, q, job, Intending(r)) && EntryBytes(H, r, r.causalRoot).Some?
    ensures
      var s' := Next(H, Next(H, s, Act(q, Save(Saved))), Act(q, Send));
      && Runs(s', q, job, Awaiting(r)) && s'.disk == Some(r) && s'.lock == s.lock
      && s'.posts == s.posts + [Post(EntryBytes(H, r, r.causalRoot).value, |r.submissions|)]
  {
    hide Next, EntryBytes;
    OnSave(H, s, q, job, Intending(r), r, Saved);
    OnSend(H, Next(H, s, Act(q, Save(Saved))), q, job, r);
  }

  lemma ResumedRun(H: Digest, s: State, q: Pid)
    ensures
      var s3 := Next(H, Next(H, Next(H, s, Act(q, Load(true, "", 0))), Act(q, Enter)), Act(q, Decide(0)));
      Run(H, s, Resume(q)) == Next(H, Next(H, s3, Act(q, Save(Saved))), Act(q, Send))
  {
    hide Next, Run;
    var load, enter, decide, save := Act(q, Load(true, "", 0)), Act(q, Enter), Act(q, Decide(0)), Act(q, Save(Saved));
    RunFour(H, s, load, enter, decide, save);
    RunSnoc(H, s, [load, enter, decide, save], Act(q, Send));
  }

  /** A publisher that resumes an unanswered record submits its entry. */
  lemma ResumedSubmits(H: Digest, s: State, q: Pid, job: Job, r: PublicationRecord)
    requires s.disk == Some(r) && Runs(s, q, job, Locked) && Unanswered(H, r) && Takes(job, r)
    ensures Run(H, s, Resume(q)).posts
         == s.posts + [Post(EntryBytes(H, r, r.causalRoot).value, |r.submissions| + 1)]
  {
    hide Next, Run, EntryBytes, Runs, KnowsIndex, Takes, Resume;
    var more := r.(submissions := r.submissions + [Submission(0, None)]);
    SameOpens(H, more, r);
    ResumedIntends(H, s, q, job, r);
    ResumedRun(H, s, q);
    var load, enter, decide := Act(q, Load(true, "", 0)), Act(q, Enter), Act(q, Decide(0));
    IntentIsSent(H, Next(H, Next(H, Next(H, s, load), enter), decide), q, job, more);
  }

  /** What a publisher that awaits a reply knows. */
  lemma AwaitingKnows(H: Digest, s: State, p: Pid)
    requires Inv(H, s) && p in s.procs && s.procs[p].phase.Awaiting?
    ensures
      var r := s.procs[p].phase.record;
      && s.disk == Some(r) && s.lock == Some(p) && r.submissions != [] && !KnowsIndex(r.submissions)
      && r.outcome.Unconfirmed?
  {
    Running(H, s, p);
    hide Inv, Sealed, PostsOk, KnowsIndex;
  }

  lemma OthersSame(H: Digest, s: State, e: Event, q: Pid)
    requires e.Act? && q != e.p
    ensures At(Next(H, s, e), q) == At(s, q)
  {
    hide NextAction;
    if q in Next(H, s, e).procs {
      OnlyOwnPhase(H, s, e, q);
    } else if e.p in s.procs {
      KeepsProcs(H, s, e.p, e.action);
    }
  }

  lemma CrashReleases(H: Digest, s: State, p: Pid, index: u64, q: Pid, job: Job)
    requires p in s.procs && s.procs[p].phase.Awaiting? && s.procs[p].phase.record.submissions != []
    requires At(s, q) == Idle && s.lock == Some(p)
    ensures
      var s4 := Run(H, s, CrashHandover(p, index, q, job));
      s4.disk == s.disk && s4.posts == s.posts && Runs(s4, q, job, Locked)
  {
    hide Next, Run;
    var mine, r := s.procs[p].job, s.procs[p].phase.record;
    var reply, crash := Act(p, Receive(Index(index))), Act(p, Crash);
    var s1 := Next(H, s, reply);
    OnIndex(H, s, p, mine, r, index);
    OthersSame(H, s, reply, q);
    var s2 := Next(H, s1, crash);
    OnCrash(H, s1, p, mine, s1.procs[p].phase);
    OnClear(H, s2);
    OnAcquire(H, Next(H, s2, ClearStaleLock), q, job);
    RunFour(H, s, reply, crash, ClearStaleLock, Acquire(q, job));
  }

  /** Knowing the index only in memory is not enough: a publisher that crashes
      between the reply and its save leaves a record from which another submits
      the same entry again. */
  lemma CrashBeforeSaveResubmits(H: Digest, s: State, p: Pid, index: u64, q: Pid, job: Job)
    requires Inv(H, s) && p in s.procs && s.procs[p].phase.Awaiting? && At(s, q) == Idle
    requires
      var r := s.procs[p].phase.record;
      |r.submissions| < MAX_SUBMISSIONS && EntryBytes(H, r, r.causalRoot).Some? && Takes(job, r)
    ensures
      var r := s.procs[p].phase.record;
      var again := Post(EntryBytes(H, r, job.root).value, |r.submissions| + 1);
      Run(H, s, CrashHandover(p, index, q, job) + Resume(q)).posts == s.posts + [again]
  {
    hide Inv, Next, Run, EntryBytes, KnowsIndex, Resume, CrashHandover;
    var r := s.procs[p].phase.record;
    AwaitingKnows(H, s, p);
    CrashReleases(H, s, p, index, q, job);
    ResumedSubmits(H, Run(H, s, CrashHandover(p, index, q, job)), q, job, r);
    RunSplit(H, s, CrashHandover(p, index, q, job), Resume(q));
  }

  lemma FailedSavesRelease(H: Digest, s: State, p: Pid, index: u64, q: Pid, job: Job)
    requires p in s.procs && s.procs[p].phase.Awaiting? && s.procs[p].phase.record.submissions != []
    requires q == p || At(s, q) == Idle
    ensures
      var s4 := Run(H, s, FailedHandover(p, index, q, job));
      s4.disk == s.disk && s4.posts == s.posts && Runs(s4, q, job, Locked)
  {
    hide Next, Run, Closed;
    var mine, r, n := s.procs[p].job, s.procs[p].phase.record, |s.procs[p].phase.record.submissions| - 1;
    var reply, failed := Act(p, Receive(Index(index))), Act(p, Save(NotSaved));
    var answer := r.submissions[n].(returnedIndex := Some(index));
    var known := WithReason(r.(submissions := r.submissions[n := answer]), AwaitingInclusion);
    OnIndex(H, s, p, mine, r, index);
    var s1 := Next(H, s, reply);
    OnSave(H, s1, p, mine, Answered(known), known, NotSaved);
    var s2, closing := Next(H, s1, failed), Closed(WithReason(known, InvalidProof));
    OnSave(H, s2, p, mine, Finishing(closing), closing, NotSaved);
    if q != p {
      OthersSame(H, s, reply, q);
      OthersSame(H, s1, failed, q);
      OthersSame(H, s2, failed, q);
    }
    OnAcquire(H, Next(H, s2, failed), q, job);
    RunFour(H, s, reply, failed, failed, Acquire(q, job));
  }

  /** No crash is needed: when both saves after the reply fail, the publisher leaves without the
      index on record, and the next run submits the same entry again. */
  lemma FailedSavesResubmit(H: Digest, s: State, p: Pid, index: u64, q: Pid, job: Job)
    requires Inv(H, s) && p in s.procs && s.procs[p].phase.Awaiting? && (q == p || At(s, q) == Idle)
    requires
      var r := s.procs[p].phase.record;
      |r.submissions| < MAX_SUBMISSIONS && EntryBytes(H, r, r.causalRoot).Some? && Takes(job, r)
    ensures
      var r := s.procs[p].phase.record;
      var again := Post(EntryBytes(H, r, job.root).value, |r.submissions| + 1);
      Run(H, s, FailedHandover(p, index, q, job) + Resume(q)).posts == s.posts + [again]
  {
    hide Inv, Next, Run, EntryBytes, KnowsIndex, Resume, FailedHandover;
    var r := s.procs[p].phase.record;
    AwaitingKnows(H, s, p);
    FailedSavesRelease(H, s, p, index, q, job);
    ResumedSubmits(H, Run(H, s, FailedHandover(p, index, q, job)), q, job, r);
    RunSplit(H, s, FailedHandover(p, index, q, job), Resume(q));
  }

  // ---------------------------------------------------------------------
  // Exactly when a record can still be submitted
  // ---------------------------------------------------------------------

  predicate IsPosting(s: State, p: Pid) { p in s.procs && s.procs[p].phase.Posting? }

  /** No index on record, a record whose entry opens, and an attempt left or already on record
      and about to be sent. */
  ghost predicate MaySubmit(H: Digest, s: State)
    requires s.disk.Some?
  {
    var r := s.disk.value;
    && !KnowsIndex(r.submissions) && EntryBytes(H, r, r.causalRoot).Some?
    && (|r.submissions| < MAX_SUBMISSIONS || exists p :: IsPosting(s, p))
  }

  lemma SavePosts(s: State, p: Pid, result: SaveResult)
    requires p in s.procs && !s.procs[p].phase.Posting? && IsPosting(NextSave(s, p, result), p)
    ensures s.procs[p].phase.Intending?
  {
    hide Closed, WithReason;
  }

  /** An attempt is about to be sent only after its intent was saved. */
  lemma PostingFollowsIntent(H: Digest, s: State, e: Event, p: Pid)
    requires IsPosting(Next(H, s, e), p) && !IsPosting(s, p)
    ensures p in s.procs && s.procs[p].phase.Intending?
  {
    hide EntryBytes, NewRecord, VerifyRecord, Closed, ReturnedIndex, WithReason, NextSave;
    if !(e.Act? && e.p == p) {
      if e.Acquire? && e.p == p { AcquiredLocks(H, s, e); } else { OnlyOwnPhase(H, s, e, p); }
    } else {
      ActsOnKnown(H, s, e);
      if e.action.Save? { SavePosts(s, p, e.action.result); }
    }
  }

  lemma IntendingBounded(H: Digest, s: State, p: Pid)
    requires Inv(H, s) && s.disk.Some? && p in s.procs && s.procs[p].phase.Intending?
    ensures |s.disk.value.submissions| < MAX_SUBMISSIONS
  {
    Running(H, s, p);
    hide Inv, Sealed, PostsOk, KnowsIndex;
  }

  /** An attempt about to be sent was an intent pending its save, so one more was left. */
  lemma PostingWasIntended(H: Digest, s: State, e: Event, p: Pid)
    requires Inv(H, s) && s.disk.Some? && IsPosting(Next(H, s, e), p) && !IsPosting(s, p)
    ensures |s.disk.value.submissions| < MAX_SUBMISSIONS
  {
    hide Inv, Next;
    PostingFollowsIntent(H, s, e, p);
    IntendingBounded(H, s, p);
  }

  lemma PostingMaySubmit(H: Digest, s: State, p: Pid)
    requires Inv(H, s) && IsPosting(s, p)
    requires EntryBytes(H, s.procs[p].phase.record, s.procs[p].phase.record.causalRoot).Some?
    ensures s.disk == Some(s.procs[p].phase.record) && MaySubmit(H, s)
  {
    hide Inv, EntryBytes, KnowsIndex;
    PostingKnowsNothing(H, s, p);
  }

  lemma BoundedRecord(H: Digest, s: State)
    requires Inv(H, s) && s.disk.Some?
    ensures |s.disk.value.submissions| <= MAX_SUBMISSIONS
  {
    hide VerifyRecord, PhaseOk;
  }

  lemma QuietNext(H: Digest, s: State, e: Event)
    requires Inv(H, s) && s.disk.Some? && !MaySubmit(H, s)
    ensures
      var s' := Next(H, s, e);
      Inv(H, s') && s'.posts == s.posts && s'.disk.Some? && !MaySubmit(H, s')
  {
    var s' := Next(H, s, e);
    NextKeeps(H, s, e);
    NextDescends(H, s, e);
    OnlySendPosts(H, s, e);
    BoundedRecord(H, s);
    BoundedRecord(H, s');
    SameOpens(H, s.disk.value, s'.disk.value);
    if s'.posts != s.posts { PostingMaySubmit(H, s, e.p); }
    hide Inv, Next, EntryBytes, KnowsIndex;
    if KnowsIndex(s.disk.value.submissions) {
      KnowledgeSurvives(s.disk.value.submissions, s'.disk.value.submissions);
    }
    if p :| IsPosting(s', p) && !IsPosting(s, p) { PostingWasIntended(H, s, e, p); }
  }

  lemma {:induction false} QuietRun(H: Digest, s: State, events: seq<Event>)
    requires Inv(H, s) && s.disk.Some? && !MaySubmit(H, s)
    ensures Run(H, s, events).posts == s.posts
    decreases |events|
  {
    hide Inv, Next, MaySubmit;
    if events != [] {
      QuietNext(H, s, events[0]);
      QuietRun(H, Next(H, s, events[0]), events[1..]);
    }
  }

  /** Whoever holds the lock dies, its lock is cleared as stale, and a publisher starts. */
  function Takeover(s: State, job: Job): seq<Event> {
    var holder := if s.lock.Some? then s.lock.value else 0;
    [Act(holder, Crash), ClearStaleLock, Acquire(0, job)]
  }

  /** Once the holder of the lock is dead, nobody runs. */
  lemma CrashFrees(H: Digest, s: State, holder: Pid)
    requires Inv(H, s) && (s.lock.Some? ==> holder == s.lock.value)
    ensures
      var s' := Next(H, s, Act(holder, Crash));
      SameFiles(s, s') && forall q :: At(s', q) == Idle
  {
    forall q ensures q != holder ==> At(s, q) == Idle {
      if q in s.procs { Running(H, s, q); }
    }
    hide Inv;
  }

  lemma ClearFrees(H: Digest, s: State)
    requires forall q :: At(s, q) == Idle
    ensures
      var s' := Next(H, s, ClearStaleLock);
      s'.disk == s.disk && s'.posts == s.posts && s'.lock.None? && s'.procs == s.procs
  {
  }

  lemma TakesOver(H: Digest, s: State, job: Job)
    requires Inv(H, s)
    ensures
      var t := Run(H, s, Takeover(s, job));
      t.disk == s.disk && t.posts == s.posts && Runs(t, 0, job, Locked)
  {
    hide Run;
    var events := Takeover(s, job);
    CrashFrees(H, s, events[0].p);
    var s1 := Next(H, s, events[0]);
    ClearFrees(H, s1);
    hide Inv, Next;
    OnAcquire(H, Next(H, s1, ClearStaleLock), 0, job);
    RunThree(H, s, events[0], ClearStaleLock, Acquire(0, job));
  }

  lemma UnknownIsUnconfirmed(H: Digest, s: State)
    requires Inv(H, s) && s.disk.Some? && !KnowsIndex(s.disk.value.submissions)
    ensures s.disk.value.outcome.Unconfirmed?
  {
    hide VerifyRecord, PhaseOk, KnowsIndex;
  }

  /** A record without an index is submitted again by whoever takes it up. */
  lemma TakeoverSubmits(H: Digest, s: State, trust: LogTrust)
    requires Inv(H, s) && s.disk.Some? && |s.disk.value.submissions| < MAX_SUBMISSIONS && MaySubmit(H, s)
    ensures
      var r := s.disk.value;
      Run(H, s, Takeover(s, Job(r.causalRoot, r.logId, r.submitUrl, trust)) + Resume(0)).posts
        == s.posts + [Post(EntryBytes(H, r, r.causalRoot).value, |r.submissions| + 1)]
  {
    var r := s.disk.value;
    var job := Job(r.causalRoot, r.logId, r.submitUrl, trust);
    UnknownIsUnconfirmed(H, s);
    hide Inv, Run, Next, EntryBytes, KnowsIndex, Takeover;
    TakesOver(H, s, job);
    ResumedSubmits(H, Run(H, s, Takeover(s, job)), 0, job, r);
    RunSplit(H, s, Takeover(s, job), Resume(0));
  }

  lemma PostingSends(H: Digest, s: State, p: Pid)
    requires Inv(H, s) && s.disk.Some? && IsPosting(s, p) && MaySubmit(H, s)
    ensures Next(H, s, Act(p, Send)).posts != s.posts
  {
    hide Inv, EntryBytes, KnowsIndex;
    PostingKnowsNothing(H, s, p);
    OnSend(H, s, p, s.procs[p].job, s.procs[p].phase.record);
  }

  /** From every reachable state with a record: another request can follow exactly when the
      record may be submitted. */
  lemma SubmittedAgainIff(H: Digest, s: State)
    requires Inv(H, s) && s.disk.Some?
    ensures (exists events :: Run(H, s, events).posts != s.posts) <==> MaySubmit(H, s)
  {
    hide Inv, EntryBytes;
    if !MaySubmit(H, s) {
      hide MaySubmit, Run;
      forall events ensures Run(H, s, events).posts == s.posts { QuietRun(H, s, events); }
    } else if |s.disk.value.submissions| < MAX_SUBMISSIONS {
      hide Run, KnowsIndex, Takeover, Resume;
      var r, trust := s.disk.value, LogTrust(None, note => None);
      TakeoverSubmits(H, s, trust);
      assert Run(H, s, Takeover(s, Job(r.causalRoot, r.logId, r.submitUrl, trust)) + Resume(0)).posts != s.posts;
    } else {
      var p :| IsPosting(s, p);
      PostingSends(H, s, p);
      RunOne(H, s, Act(p, Send));
      assert Run(H, s, [Act(p, Send)]).posts != s.posts;
    }
  }

  /** The promise that nothing is posted after an index was returned holds exactly when that
      index is on the durable record, as long as attempts are left. */
  lemma NoMorePostsIff(H: Digest, s: State)
    requires Inv(H, s) && s.disk.Some?
    requires
      var r := s.disk.value;
      |r.submissions| < MAX_SUBMISSIONS && EntryBytes(H, r, r.causalRoot).Some?
    ensures (forall events :: Run(H, s, events).posts == s.posts) <==> KnowsIndex(s.disk.value.submissions)
  {
    hide Inv, Run, EntryBytes, KnowsIndex;
    SubmittedAgainIff(H, s);
  }
}
