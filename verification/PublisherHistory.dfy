/** What holds over whole runs: intent before disclosure, the bound on requests, the confirmed state. */
module PublicationHistory {
  import opened Outcome
  import opened Merkle
  import opened PublicationEvidence
  import opened PublicationProtocol
  import opened PublicationSafety
  import opened PublicationSteps

  /** Every event keeps the invariant. */
  lemma NextKeeps(H: Digest, s: State, e: Event)
    requires Inv(H, s)
    ensures Inv(H, Next(H, s, e))
  {
    hide Inv, NextAction;
    if e.Act? {
      if At(s, e.p) != Idle { ActionKeeps(H, s, e.p, e.action); }
    } else {
      LockKeeps(H, s, e);
    }
  }

  lemma {:induction false} RunKeeps(H: Digest, s: State, events: seq<Event>)
    requires Inv(H, s)
    ensures Inv(H, Run(H, s, events))
    decreases |events|
  {
    hide Inv, Next;
    if events != [] {
      NextKeeps(H, s, events[0]);
      RunKeeps(H, Next(H, s, events[0]), events[1..]);
    }
  }

  // ---------------------------------------------------------------------
  // Intent before disclosure, and the bound on disclosures
  // ---------------------------------------------------------------------

  /** At most one request per recorded attempt, so at most three. */
  lemma {:induction false} AttemptsBound(posts: seq<Post>, n: nat)
    requires forall i :: 0 <= i < |posts| ==> 1 <= posts[i].attempt <= n
    requires forall i, j :: 0 <= i < j < |posts| ==> posts[i].attempt < posts[j].attempt
    ensures |posts| <= n
  {
    if posts != [] {
      var k := |posts| - 1;
      AttemptsBound(posts[..k], posts[k].attempt - 1);
    }
  }

  /** Over every run, at most three requests are ever made for a record. */
  lemma AtMostThreePosts(H: Digest, events: seq<Event>)
    ensures |Run(H, INITIAL, events).posts| <= MAX_SUBMISSIONS
  {
    InitialInv(H);
    RunKeeps(H, INITIAL, events);
    var s := Run(H, INITIAL, events);
    if s.disk.Some? { AttemptsBound(s.posts, |s.disk.value.submissions|); }
  }

  /** `post` discloses what the durable record says it would, as a new attempt,
      while no index is on record. */
  predicate Intended(H: Digest, s: State, post: Post) {
    && s.disk.Some?
    && var record := s.disk.value;
       && EntryForRoot(H, record.causalRoot, record.openingNonce) == Some(post.entry)
       && Hex.Encode(post.entry) == record.entry
       && post.attempt == |record.submissions|
       && 1 <= post.attempt <= MAX_SUBMISSIONS
       && PostsBefore(s, post.attempt)
       && !KnowsIndex(record.submissions)
  }

  lemma OnlySendPosts(H: Digest, s: State, e: Event)
    ensures Next(H, s, e).posts != s.posts ==>
      && e.Act? && e.action.Send? && e.p in s.procs && s.procs[e.p].phase.Posting?
      && EntryBytes(H, s.procs[e.p].phase.record, s.procs[e.p].phase.record.causalRoot).Some?
  {
    hide EntryBytes, VerifyRecord, NewRecord;
  }

  lemma EntryBytesOpens(H: Digest, r: PublicationRecord)
    ensures
      var entry := EntryBytes(H, r, r.causalRoot);
      entry.Some? ==> entry == EntryForRoot(H, r.causalRoot, r.openingNonce) && Hex.Encode(entry.value) == r.entry
  {
  }

  lemma SendIntended(H: Digest, s: State, p: Pid)
    requires Inv(H, s) && p in s.procs && s.procs[p].phase.Posting?
    requires EntryBytes(H, s.procs[p].phase.record, s.procs[p].phase.record.causalRoot).Some?
    ensures
      var posts := Next(H, s, Act(p, Send)).posts;
      |posts| == |s.posts| + 1 && posts[..|s.posts|] == s.posts && Intended(H, s, posts[|s.posts|])
  {
    var r := s.procs[p].phase.record;
    EntryBytesOpens(H, r);
    Running(H, s, p);
    hide Inv, Sealed, VerifyRecord, EntryBytes, KnowsIndex, PostsBefore;
    BoundedPosts(s);
    hide PostsOk;
  }

  /** Intent before disclosure: whenever a request leaves, the durable record
      already holds that exact entry and that attempt. */
  lemma PostsAreIntended(H: Digest, events: seq<Event>, e: Event)
    ensures
      var s := Run(H, INITIAL, events);
      var posts := Next(H, s, e).posts;
      || posts == s.posts
      || (|posts| == |s.posts| + 1 && posts[..|s.posts|] == s.posts && Intended(H, s, posts[|s.posts|]))
  {
    InitialInv(H);
    RunKeeps(H, INITIAL, events);
    var s := Run(H, INITIAL, events);
    hide Run, Inv, Next, Intended, EntryBytes;
    OnlySendPosts(H, s, e);
    if Next(H, s, e).posts != s.posts {
      SendIntended(H, s, e.p);
      assert e == Act(e.p, Send);
    }
  }

  // ---------------------------------------------------------------------
  // What a run never changes
  // ---------------------------------------------------------------------

  /** Only a save that takes effect changes the stored record. */
  lemma OnlySaveWrites(H: Digest, s: State, e: Event)
    ensures
      var s' := Next(H, s, e);
      || s'.disk == s.disk
      || (&& e.Act? && e.action.Save? && !e.action.result.NotSaved? && e.p in s.procs
          && PendingSave(s.procs[e.p].phase).Some? && s'.disk == PendingSave(s.procs[e.p].phase))
  {
    hide EntryBytes, VerifyRecord, NewRecord, Closed, ReturnedIndex;
  }

  /** The stored record only ever descends from itself. */
  lemma NextDescends(H: Digest, s: State, e: Event)
    requires Inv(H, s) && s.disk.Some?
    ensures Next(H, s, e).disk.Some? && Descends(s.disk.value, Next(H, s, e).disk.value)
  {
    hide Next, Inv, Extends;
    OnlySaveWrites(H, s, e);
    ExtendsRefl(s.disk.value.submissions);
    if Next(H, s, e).disk != s.disk { PendingDescends(H, s, e.p); }
  }

  /** Entry, opening and destination never change, no attempt is forgotten and no
      returned index is lost, over every run. */
  lemma {:induction false} RecordNeverChanges(H: Digest, s: State, events: seq<Event>)
    requires Inv(H, s) && s.disk.Some?
    ensures Run(H, s, events).disk.Some? && Descends(s.disk.value, Run(H, s, events).disk.value)
    decreases |events|
  {
    hide Inv, Next;
    ExtendsRefl(s.disk.value.submissions);
    if events != [] {
      var s' := Next(H, s, events[0]);
      NextKeeps(H, s, events[0]);
      NextDescends(H, s, events[0]);
      RecordNeverChanges(H, s', events[1..]);
      ExtendsTrans(s.disk.value.submissions, s'.disk.value.submissions, Run(H, s', events[1..]).disk.value.submissions);
    }
  }

  lemma KnowledgeSurvives(a: seq<Submission>, b: seq<Submission>)
    requires Extends(a, b) && KnowsIndex(a)
    ensures KnowsIndex(b)
  {
    var i :| 0 <= i < |a| && a[i].returnedIndex.Some?;
    assert b[i].returnedIndex.Some?;
  }

  lemma PostingKnowsNothing(H: Digest, s: State, p: Pid)
    requires Inv(H, s) && p in s.procs && s.procs[p].phase.Posting?
    ensures s.disk == Some(s.procs[p].phase.record) && !KnowsIndex(s.disk.value.submissions)
  {
    Running(H, s, p);
    hide Inv, Sealed, PostsOk, PostsBefore, KnowsIndex;
  }

  /** Once an index is on record, nothing is ever submitted again. */
  lemma {:induction false} NoPostAfterIndex(H: Digest, s: State, events: seq<Event>)
    requires Inv(H, s) && s.disk.Some? && KnowsIndex(s.disk.value.submissions)
    ensures Run(H, s, events).posts == s.posts
    decreases |events|
  {
    hide Inv, Next, EntryBytes, KnowsIndex, Extends;
    if events != [] {
      var s' := Next(H, s, events[0]);
      NextKeeps(H, s, events[0]);
      NextDescends(H, s, events[0]);
      KnowledgeSurvives(s.disk.value.submissions, s'.disk.value.submissions);
      OnlySendPosts(H, s, events[0]);
      if s'.posts != s.posts { PostingKnowsNothing(H, s, events[0].p); }
      NoPostAfterIndex(H, s', events[1..]);
    }
  }

  // ---------------------------------------------------------------------
  // Confirmation
  // ---------------------------------------------------------------------

  /** A stored Confirmed state has passed verification, over every run. */
  lemma ConfirmedIsVerified(H: Digest, events: seq<Event>)
    ensures
      var s := Run(H, INITIAL, events);
      s.disk.Some? && s.disk.value.outcome.Confirmed? ==>
        s.seal.Some? && VerifyRecord(H, s.disk.value, s.disk.value.causalRoot, s.seal.value).Some?
  {
    InitialInv(H);
    RunKeeps(H, INITIAL, events);
  }

  /** The one way out of a stored Confirmed state: a publisher whose confirming
      save reported an error after the file was already in place. */
  predicate Doubted(s: State) {
    exists p <- s.procs :: s.procs[p].phase.Finishing? && s.procs[p].phase.record.outcome.Unconfirmed?
  }

  predicate IsConfirmed(s: State) { s.disk.Some? && s.disk.value.outcome.Confirmed? }

  /** While a Confirmed record is stored, a publisher is idle, has not read it yet, or is about
      to make its last save. */
  lemma ConfirmedPhases(H: Digest, s: State, p: Pid)
    requires Inv(H, s) && IsConfirmed(s) && p in s.procs
    ensures
      var phase := s.procs[p].phase;
      || phase == Idle || phase == Locked
      || (phase.Finishing? && (phase.record.outcome.Unconfirmed? || s.disk == Some(phase.record)))
  {
    Running(H, s, p);
    hide Inv, Sealed, PostsOk, EntryBytes, VerifyRecord, KnowsIndex, Descends, PostsBefore;
  }

  lemma SaveOwnPhase(s: State, p: Pid, result: SaveResult, q: Pid)
    requires p in s.procs && q != p && q in NextSave(s, p, result).procs
    ensures q in s.procs && NextSave(s, p, result).procs[q] == s.procs[q]
  {
    hide Closed, WithReason;
  }

  lemma ActionOwnPhase(H: Digest, s: State, p: Pid, action: Action, q: Pid)
    requires p in s.procs && q != p && q in NextAction(H, s, p, action).procs
    ensures q in s.procs && NextAction(H, s, p, action).procs[q] == s.procs[q]
  {
    hide EntryBytes, VerifyRecord, NewRecord, Closed, ReturnedIndex, WithReason;
    if action.Save? {
      hide NextSave;
      SaveOwnPhase(s, p, action.result, q);
    }
  }

  lemma KeepsProcs(H: Digest, s: State, p: Pid, action: Action)
    requires p in s.procs
    ensures NextAction(H, s, p, action).procs.Keys == s.procs.Keys
  {
    hide EntryBytes, VerifyRecord, NewRecord, Closed, ReturnedIndex, WithReason;
  }

  /** An event changes the phase of the publisher that takes it, and of no other. */
  lemma OnlyOwnPhase(H: Digest, s: State, e: Event, q: Pid)
    requires q in Next(H, s, e).procs && !(e.Act? && q == e.p) && !(e.Acquire? && q == e.p)
    ensures q in s.procs && Next(H, s, e).procs[q] == s.procs[q]
  {
    hide NextAction;
    if e.Act? && At(s, e.p) != Idle { ActionOwnPhase(H, s, e.p, e.action, q); }
  }

  /** What a publisher that is locked or about to make its last save does next. */
  lemma LastPhases(H: Digest, s: State, e: Event)
    requires e.Act? && e.p in s.procs && IsConfirmed(s)
    requires
      var phase := s.procs[e.p].phase;
      phase == Idle || phase == Locked || (phase.Finishing? && s.disk == Some(phase.record))
    ensures
      var s' := Next(H, s, e);
      && s'.disk == s.disk && e.p in s'.procs
      && (s'.procs[e.p].phase.Finishing? ==> s.disk == Some(s'.procs[e.p].phase.record))
  {
    hide EntryBytes, VerifyRecord, NewRecord, Closed, ReturnedIndex;
  }

  lemma AcquiredLocks(H: Digest, s: State, e: Event)
    requires e.Acquire? && e.p in Next(H, s, e).procs
    ensures
      var phase := Next(H, s, e).procs[e.p].phase;
      phase == Locked || (e.p in s.procs && phase == s.procs[e.p].phase)
  {
  }

  lemma ActsOnKnown(H: Digest, s: State, e: Event)
    requires e.Act? && e.p in Next(H, s, e).procs
    ensures e.p in s.procs
  {
    hide NextAction;
  }

  /** From a confirmed, undoubted state every event keeps record and verdict. */
  lemma ConfirmedStays(H: Digest, s: State, e: Event)
    requires Inv(H, s) && IsConfirmed(s) && !Doubted(s)
    ensures Next(H, s, e).disk == s.disk && !Doubted(Next(H, s, e))
  {
    if e.Act? && e.p in s.procs {
      ConfirmedPhases(H, s, e.p);
      LastPhases(H, s, e);
    }
    OnlySaveWrites(H, s, e);
    var s' := Next(H, s, e);
    forall q <- s'.procs ensures !(s'.procs[q].phase.Finishing? && s'.procs[q].phase.record.outcome.Unconfirmed?) {
      if !(e.Act? && q == e.p) {
        if e.Acquire? && q == e.p { AcquiredLocks(H, s, e); } else { OnlyOwnPhase(H, s, e, q); }
      } else {
        ActsOnKnown(H, s, e);
      }
    }
  }

  /** Exactly when a stored Confirmed state is overwritten. */
  lemma ConfirmedLeftIff(H: Digest, s: State, e: Event)
    requires Inv(H, s) && IsConfirmed(s)
    ensures Next(H, s, e).disk != s.disk <==>
      && e.Act? && e.action.Save? && !e.action.result.NotSaved?
      && At(s, e.p).Finishing? && At(s, e.p).record.outcome.Unconfirmed?
  {
    hide EntryBytes, VerifyRecord, NewRecord;
  }

  predicate IsUnsynced(e: Event) { e.Act? && e.action == Save(Unsynced) }

  lemma OthersIdle(H: Digest, s: State, p: Pid)
    requires Inv(H, s) && p in s.procs && s.procs[p].phase != Idle
    ensures forall q <- s.procs :: q != p ==> s.procs[q].phase == Idle
  {
    hide VerifyRecord;
    forall q <- s.procs ensures q != p ==> s.procs[q].phase == Idle {
      assert PhaseOk(H, s, q, s.procs[q].job, s.procs[q].phase);
    }
  }

  lemma ConfirmingOnly(H: Digest, s: State, p: Pid)
    requires Inv(H, s) && !IsConfirmed(s) && p in s.procs
    requires PendingSave(s.procs[p].phase).Some? && PendingSave(s.procs[p].phase).value.outcome.Confirmed?
    ensures s.procs[p].phase.Confirming? && s.disk.Some?
  {
    Running(H, s, p);
    hide Inv, Sealed, PostsOk, PostsBefore, KnowsIndex, Descends, VerifyRecord;
  }

  lemma SavedConfirmation(H: Digest, s: State, p: Pid)
    requires p in s.procs && s.procs[p].phase.Confirming?
    ensures
      var s' := Next(H, s, Act(p, Save(Saved)));
      s'.procs == s.procs[p := s.procs[p].(phase := Finishing(s.procs[p].phase.confirmed))]
  {
  }

  /** A record becomes Confirmed only by the save of a checked confirmation. */
  lemma BecomesConfirmed(H: Digest, s: State, e: Event)
    requires Inv(H, s) && !IsUnsynced(e) && !IsConfirmed(s) && IsConfirmed(Next(H, s, e))
    ensures e.Act? && e.p in s.procs && s.procs[e.p].phase.Confirming?
    ensures
      var s' := Next(H, s, e);
      s'.procs == s.procs[e.p := s.procs[e.p].(phase := Finishing(s.procs[e.p].phase.confirmed))]
  {
    hide Inv, Next;
    OnlySaveWrites(H, s, e);
    ConfirmingOnly(H, s, e.p);
    SavedConfirmation(H, s, e.p);
    assert e == Act(e.p, Save(Saved));
  }

  /** Doubt needs a save that reported an error after replacing the file. */
  lemma DoubtNeedsUnsynced(H: Digest, s: State, e: Event)
    requires Inv(H, s) && !IsUnsynced(e)
    requires IsConfirmed(s) ==> !Doubted(s)
    ensures IsConfirmed(Next(H, s, e)) ==> !Doubted(Next(H, s, e))
  {
    if IsConfirmed(s) {
      ConfirmedStays(H, s, e);
    } else if IsConfirmed(Next(H, s, e)) {
      BecomesConfirmed(H, s, e);
      hide Next;
      OthersIdle(H, s, e.p);
    }
  }

  lemma {:induction false} RunUndoubted(H: Digest, s: State, events: seq<Event>)
    requires Inv(H, s) && (IsConfirmed(s) ==> !Doubted(s))
    requires forall e <- events :: !IsUnsynced(e)
    ensures
      var s' := Run(H, s, events);
      && Inv(H, s') && (IsConfirmed(s') ==> !Doubted(s'))
      && (IsConfirmed(s) ==> s'.disk == s.disk)
    decreases |events|
  {
    hide Inv, Next, Doubted;
    if events != [] {
      NextKeeps(H, s, events[0]);
      DoubtNeedsUnsynced(H, s, events[0]);
      if IsConfirmed(s) { ConfirmedStays(H, s, events[0]); }
      RunUndoubted(H, Next(H, s, events[0]), events[1..]);
    }
  }

  lemma {:induction false} RunStaysConfirmed(H: Digest, s: State, events: seq<Event>)
    requires Inv(H, s) && IsConfirmed(s) && !Doubted(s)
    ensures Run(H, s, events).disk == s.disk
    decreases |events|
  {
    hide Inv, Next, Doubted;
    if events != [] {
      NextKeeps(H, s, events[0]);
      ConfirmedStays(H, s, events[0]);
      RunStaysConfirmed(H, Next(H, s, events[0]), events[1..]);
    }
  }

  /** A stored Confirmed record stays for good, whatever happens, exactly when no publisher is
      about to close with an unconfirmed one. */
  lemma ConfirmedForeverIff(H: Digest, s: State)
    requires Inv(H, s) && IsConfirmed(s)
    ensures (forall events :: Run(H, s, events).disk == s.disk) <==> !Doubted(s)
  {
    if Doubted(s) {
      var p :| p in s.procs && s.procs[p].phase.Finishing? && s.procs[p].phase.record.outcome.Unconfirmed?;
      var e := Act(p, Save(Saved));
      ConfirmedLeftIff(H, s, e);
      hide Inv, Next;
      RunOne(H, s, e);
      assert Run(H, s, [e]).disk != s.disk;
    } else {
      hide Inv, Next, Doubted;
      forall events ensures Run(H, s, events).disk == s.disk { RunStaysConfirmed(H, s, events); }
    }
  }

  /** When every save until then either took effect or reported failure, a stored Confirmed
      record is never left nor altered, whatever follows. */
  lemma ConfirmedNeverLeft(H: Digest, past: seq<Event>, future: seq<Event>)
    requires forall e <- past :: !IsUnsynced(e)
    requires IsConfirmed(Run(H, INITIAL, past))
    ensures Run(H, INITIAL, past + future).disk == Run(H, INITIAL, past).disk
  {
    hide Next, Inv;
    InitialInv(H);
    RunUndoubted(H, INITIAL, past);
    RunStaysConfirmed(H, Run(H, INITIAL, past), future);
    RunSplit(H, INITIAL, past, future);
  }

  lemma UnsyncedSave(H: Digest, s: State, p: Pid)
    requires p in s.procs && s.procs[p].phase.Confirming?
    ensures
      var s', phase := Next(H, s, Act(p, Save(Unsynced))), s.procs[p].phase;
      && s'.disk == Some(phase.confirmed) && p in s'.procs
      && s'.procs[p].phase == Finishing(Closed(WithReason(phase.record, InvalidProof)))
  {
    hide Closed;
  }

  lemma LastSave(H: Digest, s: State, p: Pid, r: PublicationRecord)
    requires p in s.procs && s.procs[p].phase == Finishing(r)
    ensures Next(H, s, Act(p, Save(Saved))).disk == Some(r)
  {
  }

  /** The atomicity of saves is needed: if the confirming save reports an error
      after replacing the file, the next save withdraws the confirmation. */
  lemma UnsyncedConfirmationIsLost(H: Digest, s: State, p: Pid)
    requires Inv(H, s) && p in s.procs && s.procs[p].phase.Confirming?
    ensures
      var s1 := Next(H, s, Act(p, Save(Unsynced)));
      var s2 := Next(H, s1, Act(p, Save(Saved)));
      IsConfirmed(s1) && s2.disk.Some? && s2.disk.value.outcome == Unconfirmed(InvalidProof)
  {
    var phase := s.procs[p].phase;
    Running(H, s, p);
    hide Inv;
    UnsyncedSave(H, s, p);
    var s1 := Next(H, s, Act(p, Save(Unsynced)));
    hide Next;
    LastSave(H, s1, p, Closed(WithReason(phase.record, InvalidProof)));
  }
}
