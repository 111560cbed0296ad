/** The invariant of the publication protocol, kept by every action.

    Whatever phase a publisher is in, it knows what the durable record says: the record
    it holds is the one on disk, or that record with one more attempt, or with one more
    answer. Requests made so far carry the recorded entry, one for each recorded
    attempt, and a stored Confirmed state has passed verification. One lemma per action
    shows that the action keeps all of this, whoever takes it and whatever the log, the
    clock or the file system answers. */
module PublicationSafety {
  import opened Numbers
  import opened Outcome
  import opened Merkle
  import opened PublicationEvidence
  import opened PublicationProtocol

  /** Everything a record is about: what it discloses, to which log, and its opening. */
  predicate SameIdentity(a: PublicationRecord, b: PublicationRecord) {
    && a.format == b.format && a.causalRoot == b.causalRoot && a.openingNonce == b.openingNonce
    && a.entry == b.entry && a.logId == b.logId && a.submitUrl == b.submitUrl && a.createdAt == b.createdAt
  }

  /** Attempts and outcome have no part in the entry. */
  lemma SameOpens(H: Digest, a: PublicationRecord, b: PublicationRecord)
    requires SameIdentity(a, b) && |a.submissions| <= MAX_SUBMISSIONS
    requires |b.submissions| <= MAX_SUBMISSIONS || EntryBytes(H, b, b.causalRoot).Some?
    ensures EntryBytes(H, a, a.causalRoot) == EntryBytes(H, b, b.causalRoot)
  {
  }

  /** `later` keeps every attempt of `earlier` and every index it knew. */
  predicate Extends(earlier: seq<Submission>, later: seq<Submission>) {
    && |earlier| <= |later|
    && forall i :: 0 <= i < |earlier| ==>
         && later[i].startedAt == earlier[i].startedAt
         && (earlier[i].returnedIndex.Some? ==> later[i].returnedIndex == earlier[i].returnedIndex)
  }

  predicate Descends(earlier: PublicationRecord, later: PublicationRecord) {
    SameIdentity(earlier, later) && Extends(earlier.submissions, later.submissions)
  }

  predicate KnowsIndex(submissions: seq<Submission>) {
    exists i :: 0 <= i < |submissions| && submissions[i].returnedIndex.Some?
  }

  lemma {:induction false} ReturnedIndexKnows(submissions: seq<Submission>)
    ensures ReturnedIndex(submissions).Some? <==> KnowsIndex(submissions)
  {
    if submissions != [] {
      var n := |submissions| - 1;
      ReturnedIndexKnows(submissions[..n]);
      if KnowsIndex(submissions[..n]) {
        var i :| 0 <= i < n && submissions[..n][i].returnedIndex.Some?;
        assert submissions[i].returnedIndex.Some?;
      }
      if KnowsIndex(submissions) && submissions[n].returnedIndex.None? {
        var i :| 0 <= i < |submissions| && submissions[i].returnedIndex.Some?;
        assert submissions[..n][i].returnedIndex.Some?;
      }
    }
  }

  // ---------------------------------------------------------------------
  // The invariant
  // ---------------------------------------------------------------------

  predicate Sealed(H: Digest, s: State) {
    s.disk.Some? && s.disk.value.outcome.Confirmed? ==>
      && KnowsIndex(s.disk.value.submissions)
      && s.seal.Some? && VerifyRecord(H, s.disk.value, s.disk.value.causalRoot, s.seal.value).Some?
  }

  /** Requests so far carried the recorded entry, one per recorded attempt. */
  predicate PostsOk(s: State) {
    && (s.disk.None? ==> s.posts == [])
    && (s.disk.Some? ==>
          && |s.disk.value.submissions| <= MAX_SUBMISSIONS
          && forall i :: 0 <= i < |s.posts| ==>
               && 1 <= s.posts[i].attempt <= |s.disk.value.submissions|
               && Hex.Encode(s.posts[i].entry) == s.disk.value.entry)
    && forall i, j :: 0 <= i < j < |s.posts| ==> s.posts[i].attempt < s.posts[j].attempt
  }

  predicate PostsBefore(s: State, attempt: nat) {
    forall i :: 0 <= i < |s.posts| ==> s.posts[i].attempt < attempt
  }

  predicate Unfinished(r: PublicationRecord) { r.outcome.Unconfirmed? && |r.submissions| <= MAX_SUBMISSIONS }

  /** What each phase knows about the durable record. */
  predicate PhaseOk(H: Digest, s: State, p: Pid, job: Job, phase: Phase) {
    phase != Idle ==>
      && s.lock == Some(p)
      && match phase {
           case Idle => true
           case Locked => true
           case Creating(r) => s.disk.None? && r.submissions == [] && Unfinished(r)
           case Loaded(r) => s.disk == Some(r) && Unfinished(r)
           case Deciding(r) => s.disk == Some(r) && Unfinished(r)
           case Sleeping(r) => s.disk == Some(r) && Unfinished(r)
           case Polling(r, _, _) => s.disk == Some(r) && Unfinished(r) && KnowsIndex(r.submissions)
           case Intending(r) =>
             && Unfinished(r) && r.submissions != [] && !KnowsIndex(r.submissions)
             && s.disk == Some(r.(submissions := r.submissions[..|r.submissions| - 1]))
           case Posting(r) =>
             && s.disk == Some(r) && Unfinished(r) && r.submissions != []
             && !KnowsIndex(r.submissions) && PostsBefore(s, |r.submissions|)
           case Awaiting(r) => s.disk == Some(r) && Unfinished(r) && r.submissions != [] && !KnowsIndex(r.submissions)
           case Answered(r) =>
             s.disk.Some? && s.disk.value.outcome.Unconfirmed? && Descends(s.disk.value, r) && Unfinished(r)
           case Refused(r, _) =>
             s.disk.Some? && s.disk.value.outcome.Unconfirmed? && Descends(s.disk.value, r) && Unfinished(r)
           case Confirming(r, c) =>
             && s.disk == Some(r) && Unfinished(r) && KnowsIndex(r.submissions)
             && c.outcome.Confirmed? && c == r.(outcome := c.outcome)
             && VerifyRecord(H, c, c.causalRoot, job.trust).Some?
           case Finishing(r) =>
             && s.disk.Some? && Descends(s.disk.value, r) && |r.submissions| <= MAX_SUBMISSIONS
             && (r.outcome.Confirmed? ==> s.disk == Some(r))
         }
  }

  predicate Inv(H: Digest, s: State) {
    && Sealed(H, s) && PostsOk(s)
    && forall p <- s.procs :: PhaseOk(H, s, p, s.procs[p].job, s.procs[p].phase)
  }

  lemma InitialInv(H: Digest)
    ensures Inv(H, INITIAL)
  {
  }

  /** Only the holder of the lock is running, so a step of `p` need only account for `p`. */
  lemma Reassemble(H: Digest, s: State, s': State, p: Pid)
    requires Inv(H, s) && p in s.procs && s.procs[p].phase != Idle
    requires s'.procs.Keys == s.procs.Keys && forall q <- s.procs :: q != p ==> s'.procs[q] == s.procs[q]
    requires Sealed(H, s') && PostsOk(s')
    requires PhaseOk(H, s', p, s'.procs[p].job, s'.procs[p].phase)
    ensures Inv(H, s')
  {
    assert s.lock == Some(p);
    forall q <- s'.procs ensures PhaseOk(H, s', q, s'.procs[q].job, s'.procs[q].phase) {
      if q != p {
        assert PhaseOk(H, s, q, s.procs[q].job, s.procs[q].phase);
        assert s.procs[q].phase == Idle;
      }
    }
  }

  lemma Running(H: Digest, s: State, p: Pid)
    requires Inv(H, s) && p in s.procs
    ensures PhaseOk(H, s, p, s.procs[p].job, s.procs[p].phase) && Sealed(H, s) && PostsOk(s)
  {
    hide PhaseOk, Sealed, PostsOk;
  }

  lemma PostsOfMove(s: State, s': State)
    requires PostsOk(s) && s'.disk == s.disk && s'.posts == s.posts
    ensures PostsOk(s')
  {
  }

  lemma SealedSame(H: Digest, s: State, s': State)
    requires Sealed(H, s) && s'.disk == s.disk && s'.seal == s.seal
    ensures Sealed(H, s')
  {
    hide VerifyRecord, KnowsIndex;
  }

  /** A move that touches no file is fine when the new phase knows what it claims. */
  lemma MoveKeeps(H: Digest, s: State, p: Pid, phase: Phase)
    requires Inv(H, s) && p in s.procs && s.procs[p].phase != Idle
    requires PhaseOk(H, s, p, s.procs[p].job, phase)
    ensures Inv(H, Move(s, p, phase))
  {
    hide Inv, VerifyRecord, KnowsIndex, Unfinished, Descends;
    var s' := Move(s, p, phase);
    Running(H, s, p);
    hide PostsOk, Sealed;
    PostsOfMove(s, s');
    SealedSame(H, s, s');
    Reassemble(H, s, s', p);
  }

  lemma ExtendsRefl(xs: seq<Submission>)
    ensures Extends(xs, xs)
  {
  }

  lemma ExtendsTrans(a: seq<Submission>, b: seq<Submission>, c: seq<Submission>)
    requires Extends(a, b) && Extends(b, c)
    ensures Extends(a, c)
  {
  }

  /** Replacing the durable record by a descendant keeps the posts accounted for. */
  lemma PostsOnDescendant(s: State, r: PublicationRecord)
    requires PostsOk(s) && s.disk.Some? && Descends(s.disk.value, r) && |r.submissions| <= MAX_SUBMISSIONS
    ensures PostsOk(s.(disk := Some(r)))
    ensures |s.disk.value.submissions| < |r.submissions| ==> PostsBefore(s, |r.submissions|)
  {
  }

  // ---------------------------------------------------------------------
  // One event keeps the invariant
  // ---------------------------------------------------------------------

  lemma NewRecordEmpty(H: Digest, job: Job, nonce: string, now: int)
    ensures
      var r := NewRecord(H, job, nonce, now);
      r.Some? ==> r.value.submissions == [] && r.value.outcome == Unconfirmed(Prepared)
  {
  }

  lemma LeaveKeeps(H: Digest, s: State, p: Pid)
    requires Inv(H, s) && p in s.procs && s.procs[p].phase != Idle
    ensures Inv(H, Leave(s, p))
  {
    Running(H, s, p);
    hide VerifyRecord, KnowsIndex, Unfinished, Descends, Sealed, PostsOk;
    var s' := Leave(s, p);
    assert PostsOk(s') by { PostsOfMove(s, s'); }
    assert Sealed(H, s') by { SealedSame(H, s, s'); }
    Reassemble(H, s, s', p);
  }

  lemma UnfinishedOnDisk(s: State)
    requires PostsOk(s)
    ensures s.disk.Some? && s.disk.value.outcome.Unconfirmed? ==> Unfinished(s.disk.value)
  {
  }

  lemma LoadKeeps(H: Digest, s: State, p: Pid, readable: bool, nonce: string, now: int)
    requires Inv(H, s) && p in s.procs && s.procs[p].phase != Idle
    ensures Inv(H, NextLoad(H, s, p, readable, nonce, now))
  {
    var s' := NextLoad(H, s, p, readable, nonce, now);
    if s' != s {
      Running(H, s, p);
      hide Inv, EntryBytes, VerifyRecord, NewRecord, KnowsIndex;
      NewRecordEmpty(H, s.procs[p].job, nonce, now);
      UnfinishedOnDisk(s);
      if s'.procs[p].phase == Idle {
        LeaveKeeps(H, s, p);
      } else {
        MoveKeeps(H, s, p, s'.procs[p].phase);
      }
    }
  }

  lemma IntentKnowsNothing(subs: seq<Submission>, now: int)
    ensures
      var more := subs + [Submission(now, None)];
      more[..|more| - 1] == subs && (KnowsIndex(more) <==> KnowsIndex(subs))
  {
    var more := subs + [Submission(now, None)];
    if i :| 0 <= i < |subs| && subs[i].returnedIndex.Some? { assert more[i].returnedIndex.Some?; }
    if i :| 0 <= i < |more| && more[i].returnedIndex.Some? { assert subs[i].returnedIndex.Some?; }
  }

  lemma DecideKeeps(H: Digest, s: State, p: Pid, now: int)
    requires Inv(H, s) && p in s.procs && s.procs[p].phase != Idle
    ensures Inv(H, NextDecide(s, p, now))
  {
    var phase := s.procs[p].phase;
    if phase.Deciding? {
      Running(H, s, p);
      hide Inv, Sealed, PostsOk, EntryBytes, VerifyRecord;
      var r := phase.record;
      ReturnedIndexKnows(r.submissions);
      IntentKnowsNothing(r.submissions, now);
      ExtendsRefl(r.submissions);
      hide KnowsIndex, ReturnedIndex, Extends;
      MoveKeeps(H, s, p, NextDecide(s, p, now).procs[p].phase);
    }
  }

  lemma EntryBytesEncode(H: Digest, r: PublicationRecord, root: string)
    ensures
      var entry := EntryBytes(H, r, root);
      entry.Some? ==> Hex.Encode(entry.value) == r.entry
  {
  }

  /** A new request for the latest attempt of the durable record. */
  lemma PostsGrow(s: State, s': State, post: Post)
    requires PostsOk(s) && s.disk.Some? && s'.disk == s.disk && s'.posts == s.posts + [post]
    requires PostsBefore(s, post.attempt) && 1 <= post.attempt == |s.disk.value.submissions|
    requires Hex.Encode(post.entry) == s.disk.value.entry
    ensures PostsOk(s')
  {
    hide Hex.Encode;
  }

  lemma SendKeeps(H: Digest, s: State, p: Pid)
    requires Inv(H, s) && p in s.procs && s.procs[p].phase != Idle
    ensures Inv(H, NextSend(H, s, p))
  {
    hide Inv, VerifyRecord;
    var phase := s.procs[p].phase;
    var s' := NextSend(H, s, p);
    if phase.Posting? && s' != s {
      var r := phase.record;
      Running(H, s, p);
      EntryBytesEncode(H, r, r.causalRoot);
      hide EntryBytes, KnowsIndex;
      PostsGrow(s, s', Post(EntryBytes(H, r, r.causalRoot).value, |r.submissions|));
      hide PostsOk, PostsBefore, Sealed;
      SealedSame(H, s, s');
      Reassemble(H, s, s', p);
    }
  }

  lemma LastAnswered(subs: seq<Submission>, index: u64)
    requires subs != [] && !KnowsIndex(subs)
    ensures
      var n := |subs| - 1;
      Extends(subs, subs[n := subs[n].(returnedIndex := Some(index))])
  {
  }

  lemma ReceiveKeeps(H: Digest, s: State, p: Pid, reply: Reply)
    requires Inv(H, s) && p in s.procs && s.procs[p].phase != Idle
    ensures Inv(H, NextReceive(s, p, reply))
  {
    var phase := s.procs[p].phase;
    if phase.Awaiting? || (phase.Posting? && reply.Fault?) {
      Running(H, s, p);
      hide Inv, Sealed, PostsOk, EntryBytes, VerifyRecord, KnowsIndex;
      var subs := phase.record.submissions;
      ExtendsRefl(subs);
      if reply.Index? { LastAnswered(subs, reply.index); }
      hide Extends;
      MoveKeeps(H, s, p, NextReceive(s, p, reply).procs[p].phase);
    }
  }

  /** Leaving the polling loop, or going round again, keeps the invariant. */
  lemma PollMoves(H: Digest, s: State, p: Pid, phase: Phase)
    requires Inv(H, s) && p in s.procs && s.procs[p].phase.Polling?
    requires
      var r := s.procs[p].phase.record;
      || phase == Finishing(Closed(r))
      || (exists reason :: phase == Finishing(Closed(WithReason(r, reason))))
      || (phase.Polling? && phase.record == r)
      || (phase.Confirming? && phase.record == r && phase.confirmed.outcome.Confirmed?
          && phase.confirmed == r.(outcome := phase.confirmed.outcome)
          && VerifyRecord(H, phase.confirmed, r.causalRoot, s.procs[p].job.trust).Some?)
    ensures Inv(H, Move(s, p, phase))
  {
    Running(H, s, p);
    hide Inv, Sealed, PostsOk, EntryBytes, VerifyRecord, KnowsIndex, Extends;
    ExtendsRefl(s.procs[p].phase.record.submissions);
    MoveKeeps(H, s, p, phase);
  }

  lemma PollKeeps(H: Digest, s: State, p: Pid, look: Look)
    requires Inv(H, s) && p in s.procs && s.procs[p].phase != Idle
    ensures Inv(H, NextPoll(H, s, p, look))
  {
    hide EntryBytes, VerifyRecord, Inv, Closed;
    if s.procs[p].phase.Polling? { PollMoves(H, s, p, NextPoll(H, s, p, look).procs[p].phase); }
  }

  lemma DeadlineKeeps(H: Digest, s: State, p: Pid)
    requires Inv(H, s) && p in s.procs && s.procs[p].phase != Idle
    ensures Inv(H, NextDeadline(s, p))
  {
    var phase := s.procs[p].phase;
    if phase.Posting? || phase.Awaiting? || phase.Sleeping? || phase.Polling? {
      Running(H, s, p);
      hide Inv, Sealed, PostsOk, EntryBytes, VerifyRecord, KnowsIndex, Extends;
      ExtendsRefl(phase.record.submissions);
      MoveKeeps(H, s, p, NextDeadline(s, p).procs[p].phase);
    }
  }

  lemma EnterKeeps(H: Digest, s: State, p: Pid)
    requires Inv(H, s) && p in s.procs && s.procs[p].phase != Idle
    ensures Inv(H, NextEnter(H, s, p))
  {
    var phase := s.procs[p].phase;
    if phase.Loaded? {
      Running(H, s, p);
      hide Inv, Sealed, PostsOk, EntryBytes, VerifyRecord, KnowsIndex, Extends;
      ExtendsRefl(phase.record.submissions);
      MoveKeeps(H, s, p, NextEnter(H, s, p).procs[p].phase);
    }
  }

  lemma WakeKeeps(H: Digest, s: State, p: Pid)
    requires Inv(H, s) && p in s.procs && s.procs[p].phase != Idle
    ensures Inv(H, NextWake(s, p))
  {
    if s.procs[p].phase.Sleeping? {
      Running(H, s, p);
      hide Inv, Sealed, PostsOk, EntryBytes, VerifyRecord, KnowsIndex;
      MoveKeeps(H, s, p, Deciding(s.procs[p].phase.record));
    }
  }

  lemma CrashKeeps(H: Digest, s: State, p: Pid)
    requires Inv(H, s) && p in s.procs && s.procs[p].phase != Idle
    ensures Inv(H, Move(s, p, Idle))
  {
    hide Inv;
    MoveKeeps(H, s, p, Idle);
  }

  /** After a failed save a run either ends or closes its record for the last save. */
  lemma FailureMoves(s: State, p: Pid)
    requires p in s.procs && PendingSave(s.procs[p].phase).Some?
    ensures
      var s', phase := AfterSave(s, p, false), s.procs[p].phase;
      if phase.Creating? || phase.Finishing? then s' == Leave(s, p)
      else s' == Move(s, p, Finishing(Closed(WithReason(phase.record, InvalidProof))))
  {
  }

  /** Whatever is about to be saved descends from what is stored. */
  lemma PendingDescends(H: Digest, s: State, p: Pid)
    requires Inv(H, s) && p in s.procs && s.procs[p].phase != Idle
    requires PendingSave(s.procs[p].phase).Some? && s.disk.Some?
    ensures
      var r := PendingSave(s.procs[p].phase).value;
      Descends(s.disk.value, r) && |r.submissions| <= MAX_SUBMISSIONS
  {
    hide EntryBytes, VerifyRecord;
  }

  lemma FailedPhaseOk(H: Digest, s: State, p: Pid)
    requires Inv(H, s) && p in s.procs && PendingSave(s.procs[p].phase).Some?
    ensures
      var s' := AfterSave(s, p, false);
      p in s'.procs && PhaseOk(H, s', p, s'.procs[p].job, s'.procs[p].phase)
  {
    Running(H, s, p);
    if s.disk.Some? { PendingDescends(H, s, p); }
    hide Inv, Sealed, PostsOk, EntryBytes, VerifyRecord, AfterSave, KnowsIndex, Extends, PostsBefore;
    ExtendsRefl(PendingSave(s.procs[p].phase).value.submissions);
    FailureMoves(s, p);
  }

  lemma SaveFails(H: Digest, s: State, p: Pid)
    requires Inv(H, s) && p in s.procs && PendingSave(s.procs[p].phase).Some?
    ensures Inv(H, AfterSave(s, p, false))
  {
    Running(H, s, p);
    FailedPhaseOk(H, s, p);
    hide Inv, Sealed, PostsOk, PhaseOk, AfterSave;
    var s' := AfterSave(s, p, false);
    FailureMoves(s, p);
    PostsOfMove(s, s');
    SealedSame(H, s, s');
    Reassemble(H, s, s', p);
  }

  /** Where a successful save leads, phase by phase. */
  lemma SuccessMoves(s: State, p: Pid)
    requires p in s.procs && PendingSave(s.procs[p].phase).Some?
    ensures
      var s', phase := AfterSave(s, p, true), s.procs[p].phase;
      if phase.Finishing? then s' == Leave(s, p)
      else
        s' == Move(s, p, if phase.Creating? then Loaded(phase.record)
                         else if phase.Intending? then Posting(phase.record)
                         else if phase.Answered? then Deciding(phase.record)
                         else if phase.Confirming? then Finishing(phase.confirmed)
                         else if phase.stop then Finishing(Closed(phase.record))
                         else Sleeping(phase.record))
  {
  }

  /** The state once the pending record is in place. */
  function Written(s: State, p: Pid): State
    requires p in s.procs && PendingSave(s.procs[p].phase).Some?
  {
    s.(disk := PendingSave(s.procs[p].phase),
       seal := if s.procs[p].phase.Confirming? then Some(s.procs[p].job.trust) else s.seal)
  }

  lemma WrittenOk(H: Digest, s: State, p: Pid)
    requires Inv(H, s) && p in s.procs && PendingSave(s.procs[p].phase).Some?
    requires !(s.procs[p].phase.Creating? && s.disk.Some?)
    ensures Sealed(H, Written(s, p)) && PostsOk(Written(s, p))
    ensures s.procs[p].phase.Intending? ==> PostsBefore(s, |s.procs[p].phase.record.submissions|)
  {
    hide EntryBytes, VerifyRecord;
    if s.disk.Some? {
      PendingDescends(H, s, p);
      PostsOnDescendant(s, PendingSave(s.procs[p].phase).value);
    }
  }

  lemma BoundedPosts(s: State)
    requires PostsOk(s) && s.disk.Some?
    ensures |s.disk.value.submissions| <= MAX_SUBMISSIONS
  {
  }

  lemma SamePostsBefore(s: State, s': State, attempt: nat)
    requires PostsBefore(s, attempt) && s'.posts == s.posts
    ensures PostsBefore(s', attempt)
  {
  }

  lemma SavedOk(H: Digest, s: State, p: Pid)
    requires Inv(H, s) && p in s.procs && PendingSave(s.procs[p].phase).Some?
    requires !(s.procs[p].phase.Creating? && s.disk.Some?)
    ensures
      var s' := AfterSave(Written(s, p), p, true);
      p in s'.procs && PhaseOk(H, s', p, s'.procs[p].job, s'.procs[p].phase)
  {
    hide Inv, Sealed, PostsOk, EntryBytes, VerifyRecord, AfterSave, KnowsIndex, Extends, PostsBefore;
    WrittenOk(H, s, p);
    Running(H, s, p);
    var w := Written(s, p);
    ExtendsRefl(w.disk.value.submissions);
    SuccessMoves(w, p);
    if s.procs[p].phase.Intending? {
      SamePostsBefore(s, AfterSave(w, p, true), |s.procs[p].phase.record.submissions|);
    }
  }

  lemma SavedDoubted(H: Digest, s: State, p: Pid)
    requires Inv(H, s) && p in s.procs && PendingSave(s.procs[p].phase).Some?
    requires !(s.procs[p].phase.Creating? && s.disk.Some?)
    ensures
      var s' := AfterSave(Written(s, p), p, false);
      p in s'.procs && PhaseOk(H, s', p, s'.procs[p].job, s'.procs[p].phase)
  {
    WrittenOk(H, s, p);
    Running(H, s, p);
    hide Inv, Sealed, PostsOk, EntryBytes, VerifyRecord, AfterSave, KnowsIndex, Extends, PostsBefore;
    var w := Written(s, p);
    ExtendsRefl(w.disk.value.submissions);
    BoundedPosts(w);
    FailureMoves(w, p);
  }

  /** What the next phase claims holds once the pending record is in place. */
  lemma SavedPhaseOk(H: Digest, s: State, p: Pid, ok: bool)
    requires Inv(H, s) && p in s.procs && PendingSave(s.procs[p].phase).Some?
    requires !(s.procs[p].phase.Creating? && s.disk.Some?)
    ensures
      var s' := AfterSave(Written(s, p), p, ok);
      p in s'.procs && PhaseOk(H, s', p, s'.procs[p].job, s'.procs[p].phase)
  {
    hide Inv, PhaseOk, AfterSave;
    if ok { SavedOk(H, s, p); } else { SavedDoubted(H, s, p); }
  }

  lemma SaveTakes(H: Digest, s: State, p: Pid, ok: bool)
    requires Inv(H, s) && p in s.procs && PendingSave(s.procs[p].phase).Some?
    requires !(s.procs[p].phase.Creating? && s.disk.Some?)
    ensures Inv(H, AfterSave(Written(s, p), p, ok))
  {
    WrittenOk(H, s, p);
    SavedPhaseOk(H, s, p, ok);
    hide Inv, Sealed, PostsOk, PhaseOk, AfterSave;
    var w := Written(s, p);
    var s' := AfterSave(w, p, ok);
    if ok { SuccessMoves(w, p); } else { FailureMoves(w, p); }
    PostsOfMove(w, s');
    SealedSame(H, w, s');
    Reassemble(H, s, s', p);
  }

  lemma SaveKeeps(H: Digest, s: State, p: Pid, result: SaveResult)
    requires Inv(H, s) && p in s.procs && s.procs[p].phase != Idle
    ensures Inv(H, NextSave(s, p, result))
  {
    hide Inv;
    var phase := s.procs[p].phase;
    if PendingSave(phase).Some? {
      if result.NotSaved? || (phase.Creating? && s.disk.Some?) {
        SaveFails(H, s, p);
      } else {
        SaveTakes(H, s, p, result.Saved?);
      }
    }
  }

  lemma ActionKeeps(H: Digest, s: State, p: Pid, action: Action)
    requires Inv(H, s) && p in s.procs && s.procs[p].phase != Idle
    ensures Inv(H, NextAction(H, s, p, action))
  {
    hide Inv;
    match action
    case Load(readable, nonce, now) => LoadKeeps(H, s, p, readable, nonce, now);
    case Save(result) => SaveKeeps(H, s, p, result);
    case Enter => EnterKeeps(H, s, p);
    case Decide(now) => DecideKeeps(H, s, p, now);
    case Send => SendKeeps(H, s, p);
    case Receive(reply) => ReceiveKeeps(H, s, p, reply);
    case Wake => WakeKeeps(H, s, p);
    case Poll(look) => PollKeeps(H, s, p, look);
    case Deadline => DeadlineKeeps(H, s, p);
    case Crash => CrashKeeps(H, s, p);
  }

  lemma LockKeeps(H: Digest, s: State, e: Event)
    requires Inv(H, s) && !e.Act?
    ensures Inv(H, Next(H, s, e))
  {
    hide VerifyRecord;
    var s' := Next(H, s, e);
    forall q <- s'.procs ensures PhaseOk(H, s', q, s'.procs[q].job, s'.procs[q].phase) {
      if q in s.procs { assert PhaseOk(H, s, q, s.procs[q].job, s.procs[q].phase); }
    }
  }
}
