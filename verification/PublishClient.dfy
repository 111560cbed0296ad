/** `publish` (`publication/client.rs`) as it runs: the protocol's machine, driven by its surroundings. */
module PublicationClient {
  import opened Numbers
  import opened Outcome
  import opened Merkle
  import opened PublicationEvidence
  import opened PublicationProtocol
  import opened PublicationSafety
  import opened PublicationSteps
  import opened PublicationDrive
  import History = PublicationHistory

  /** How `obtain_inclusion` ended, under its deadline. */
  datatype Ended = Done | Erred(fault: Fault) | TimedOut

  /** The record with the outcome that `publish` saves last. */
  function Closing(record: PublicationRecord, ended: Ended): PublicationRecord {
    match ended
    case Done => Closed(record)
    case Erred(f) => Closed(WithReason(record, ReasonOf(f)))
    case TimedOut => Closed(WithReason(record, UnconfirmedReason.Deadline))
  }

  /** Where one look at the log leaves the polling loop. */
  function AfterLook(H: Digest, job: Job, r: PublicationRecord, index: u64, polls: nat, look: Look): Phase {
    match look
    case LookFault(f) => Finishing(Closing(r, Erred(f)))
    case NotYet => Polling(r, index, polls + 1)
    case Found(note, path) =>
      var confirmed := r.(outcome := Confirmed(index, note, path));
      if VerifyRecord(H, confirmed, r.causalRoot, job.trust).Some? then Confirming(r, confirmed)
      else Finishing(Closing(r, Erred(Other)))
  }

  predicate SameOpening(a: PublicationRecord, b: PublicationRecord) {
    a == b.(submissions := a.submissions, outcome := a.outcome)
  }

  lemma IntentHasNoIndex(subs: seq<Submission>, now: int)
    ensures ReturnedIndex(subs + [Submission(now, None)]) == ReturnedIndex(subs)
  {
    assert (subs + [Submission(now, None)])[..|subs|] == subs;
  }

  lemma AnswerIsIndex(subs: seq<Submission>, i: u64)
    requires subs != []
    ensures
      var n := |subs| - 1;
      ReturnedIndex(subs[n := subs[n].(returnedIndex := Some(i))]) == Some(i)
  {
  }

  class Publisher {
    const H: Digest
    const p: Pid
    const job: Job
    const world: Surroundings
    /** The record file, its lock, and the requests made. */
    var disk: Option<PublicationRecord>
    var lock: Option<Pid>
    var posts: seq<Post>
    var record: PublicationRecord
    var tick: nat
    /** The state machine beside the program, and the events so far. */
    ghost const origin: State
    ghost var machine: State
    ghost var trace: seq<Event>
    /** Where the present run began, the events up to there, and the steps taken since. */
    ghost var base: Point
    ghost var prior: seq<Event>
    ghost var taken: nat

    constructor (H: Digest, p: Pid, job: Job, world: Surroundings, ghost origin: State,
                 disk: Option<PublicationRecord>, lock: Option<Pid>, posts: seq<Post>, blank: PublicationRecord)
      requires disk == origin.disk && lock == origin.lock && posts == origin.posts
      ensures this.H == H && this.p == p && this.job == job && this.world == world && this.origin == origin
      ensures this.disk == disk && this.lock == lock && this.posts == posts && machine == origin && trace == []
      ensures Tracked() && Synced()
    {
      this.H, this.p, this.job, this.world, this.origin := H, p, job, world, origin;
      this.disk, this.lock, this.posts, record, tick := disk, lock, posts, blank, 0;
      machine, trace := origin, [];
      base, prior, taken := Point(origin, 0, Err), [], 0;
    }

    /** The machine has run exactly the events of the trace. */
    ghost predicate Tracked()
      reads this`machine, this`trace
    {
      machine == Run(H, origin, trace)
    }

    /** Files and requests are those of the machine. */
    ghost predicate Synced()
      reads this
    {
      disk == machine.disk && lock == machine.lock && posts == machine.posts
    }

    /** The machine has taken exactly the steps its surroundings answer with, up to tick `t`. */
    ghost predicate Drove(t: nat, result: Result<PublicationRecord>)
      reads this`machine, this`trace, this`base, this`prior, this`taken
    {
      && trace == prior + Events(H, world, p, base, taken)
      && Drive(H, world, p, base, taken) == Point(machine, t, result)
    }

    /** The publisher runs, in this phase of the machine. */
    ghost predicate In(phase: Phase)
      reads this
    {
      Tracked() && Synced() && Drove(tick, Err) && Runs(machine, p, job, phase)
    }

    /** The run is over for the machine; the lock file is about to go. */
    ghost predicate Left(result: Result<PublicationRecord>)
      reads this
    {
      && Tracked() && Drove(tick, result)
      && disk == machine.disk && posts == machine.posts && At(machine, p) == Idle && machine.lock == None
    }

    /** One step of the machine, with what the surroundings answer at this tick. */
    ghost method Step(phase: Phase, action: Action, t: nat, next: Phase)
      requires Tracked() && Drove(tick, Err) && Runs(machine, p, job, phase)
      requires Answer(world, phase, tick) == (action, t)
      requires
        var s := Next(H, machine, Act(p, action));
        if next == Idle then At(s, p) == Idle else Runs(s, p, job, next)
      modifies this`machine, this`trace, this`taken
      ensures Tracked() && machine == Next(H, old(machine), Act(p, action))
      ensures
        Drove(t, if next == Idle then Ending(H, job, world, old(machine.disk), phase, tick) else Err)
    {
      hide Next, Run, Answer, Ending;
      RunSnoc(H, origin, trace, Act(p, action));
      AdvanceFrom(H, world, p, job, Point(machine, tick, Err), phase);
      machine, trace, taken := Next(H, machine, Act(p, action)), trace + [Act(p, action)], taken + 1;
    }

    /** The deadline, where the program waits. */
    method Lapse(ghost phase: Phase)
      requires In(phase) && Answer(world, phase, tick) == (Action.Deadline, tick + 1)
      requires phase == Posting(record) || phase == Awaiting(record) || phase == Sleeping(record)
            || (phase.Polling? && phase.record == record)
      modifies this`tick, this`machine, this`trace, this`taken
      ensures In(Finishing(Closing(record, TimedOut)))
    {
      hide Next, Runs, Run, Tracked, Drove, Answer;
      OnDeadline(H, machine, p, job, record, phase);
      Step(phase, Action.Deadline, tick + 1, Finishing(Closing(record, TimedOut)));
      tick := tick + 1;
    }

    /** `RecordStore::save`: whether it reports success; the file may be replaced either way. */
    method Save(saved: PublicationRecord, initial: bool, ghost phase: Phase) returns (ok: bool)
      requires In(phase) && PendingSave(phase) == Some(saved) && initial == phase.Creating?
      modifies this`disk, this`tick, this`machine, this`trace, this`taken
      ensures if AfterPhase(phase, ok) == Idle then Left(if ok then Ok(saved) else Err) else In(AfterPhase(phase, ok))
      ensures
        var kept := world.save(old(tick)).NotSaved? || (initial && old(disk).Some?);
        (ok <==> !kept && world.save(old(tick)).Saved?) && disk == if kept then old(disk) else Some(saved)
      ensures tick == old(tick) + 1
    {
      hide Next, Run, VerifyRecord, Tracked, Drove;
      var result := world.save(tick);
      OnSave(H, machine, p, job, phase, saved, result);
      var kept := result.NotSaved? || (initial && disk.Some?);
      Step(phase, Action.Save(result), tick + 1, AfterPhase(phase, !kept && result.Saved?));
      tick := tick + 1;
      if kept { return false; }
      disk := Some(saved);
      return result.Saved?;
    }

    /** The disclosure boundary: the attempt is on record before anything is sent. */
    method Intend(ghost first: PublicationRecord) returns (ok: bool)
      requires In(Deciding(record)) && SameOpening(record, first) && record.outcome.Unconfirmed?
      requires ReturnedIndex(record.submissions).None? && |record.submissions| < MAX_SUBMISSIONS
      modifies this`disk, this`tick, this`machine, this`trace, this`taken, this`record
      ensures In(if ok then Posting(record) else Finishing(Closed(WithReason(record, InvalidProof))))
      ensures |record.submissions| == old(|record.submissions|) + 1 && SameOpening(record, first)
      ensures ReturnedIndex(record.submissions).None? && record.outcome.Unconfirmed?
    {
      hide Next, Runs, Run, EntryBytes, VerifyRecord, Tracked, Drove, Closed, ReturnedIndex;
      var intent := Intent(record, world.now(tick));
      OnDecide(H, machine, p, job, record, world.now(tick));
      Step(Deciding(record), Decide(world.now(tick)), tick, Intending(intent));
      IntentHasNoIndex(record.submissions, world.now(tick));
      record := intent;
      ok := Save(record, false, Intending(record));
    }

    /** The request, up to the reply or the failure; `None` where the deadline fires. */
    method Send(entry: Bytes) returns (reply: Option<Reply>)
      requires In(Posting(record)) && EntryBytes(H, record, record.causalRoot) == Some(entry)
      modifies this`tick, this`machine, this`trace, this`taken, this`posts
      ensures reply.None? ==> In(Finishing(Closing(record, TimedOut)))
      ensures reply.Some? ==>
        || (In(Awaiting(record)) && world.attempt(tick) == Replied(reply.value))
        || (In(Posting(record)) && reply.value.Fault? && world.attempt(tick) == FailedBefore(reply.value.fault))
    {
      hide Next, Run, Runs, EntryBytes, VerifyRecord, Tracked, Drove;
      var attempt := world.attempt(tick);
      if attempt.LateAfter? || attempt.Replied? {
        OnSend(H, machine, p, job, record);
        Step(Posting(record), Action.Send, tick, Awaiting(record));
        posts := posts + [Post(entry, |record.submissions|)];
      }
      if attempt.LateBefore? || attempt.LateAfter? {
        Lapse(if attempt.LateAfter? then Awaiting(record) else Posting(record));
        return None;
      }
      return Some(if attempt.Replied? then attempt.reply else Reply.Fault(attempt.fault));
    }

    /** An index: recorded and saved. */
    method Keep(i: u64, ghost first: PublicationRecord) returns (ok: bool)
      requires In(Awaiting(record)) && world.attempt(tick) == Replied(Index(i))
      requires SameOpening(record, first) && record.submissions != []
      modifies this`disk, this`tick, this`machine, this`trace, this`taken, this`record
      ensures In(if ok then Deciding(record) else Finishing(Closed(WithReason(record, InvalidProof))))
      ensures |record.submissions| == old(|record.submissions|) && SameOpening(record, first)
      ensures ReturnedIndex(record.submissions) == Some(i) && record.outcome.Unconfirmed?
    {
      hide Next, Runs, Run, EntryBytes, VerifyRecord, Tracked, Drove, Closed, ReturnedIndex;
      OnIndex(H, machine, p, job, record, i);
      AnswerIsIndex(record.submissions, i);
      var n := |record.submissions| - 1;
      var known := record.(submissions := record.submissions[n := record.submissions[n].(returnedIndex := Some(i))]);
      Step(Awaiting(record), Receive(Index(i)), tick + 1, Answered(WithReason(known, AwaitingInclusion)));
      tick := tick + 1;
      record := WithReason(known, AwaitingInclusion);
      ok := Save(record, false, Answered(record));
    }

    /** The pause between attempts, unless the deadline ends it. */
    method Rest() returns (rested: bool)
      requires In(Sleeping(record))
      modifies this`tick, this`machine, this`trace, this`taken
      ensures In(if rested then Deciding(record) else Finishing(Closing(record, TimedOut)))
    {
      hide Next, Runs, Run, EntryBytes, VerifyRecord, Tracked, Drove;
      rested := world.rest(tick);
      if rested {
        OnWake(H, machine, p, job, record);
        Step(Sleeping(record), Action.Wake, tick + 1, Deciding(record));
        tick := tick + 1;
      } else {
        Lapse(Sleeping(record));
      }
    }

    /** A failure, recorded and saved. */
    method Refuse(f: Fault) returns (ok: bool)
      requires (In(Awaiting(record)) && world.attempt(tick) == Replied(Reply.Fault(f)))
            || (In(Posting(record)) && world.attempt(tick) == FailedBefore(f))
      modifies this`disk, this`tick, this`machine, this`trace, this`taken, this`record
      ensures In(AfterPhase(Refused(record, Final(f)), ok)) && record == WithReason(old(record), ReasonOf(f))
    {
      hide Next, Runs, Run, EntryBytes, VerifyRecord, Tracked, Drove, Final, Closed, ReasonOf;
      OnFault(H, machine, p, job, record, f);
      ghost var phase := if world.attempt(tick).Replied? then Awaiting(record) else Posting(record);
      Step(phase, Receive(Reply.Fault(f)), tick + 1, Refused(WithReason(record, ReasonOf(f)), Final(f)));
      tick := tick + 1;
      record := WithReason(record, ReasonOf(f));
      ok := Save(record, false, Refused(record, Final(f)));
    }

    /** After a failure: the end or a rest. `None` to go on. */
    method Regret(f: Fault) returns (stop: Option<Ended>)
      requires (In(Awaiting(record)) && world.attempt(tick) == Replied(Reply.Fault(f)))
            || (In(Posting(record)) && world.attempt(tick) == FailedBefore(f))
      modifies this`disk, this`tick, this`machine, this`trace, this`taken, this`record
      ensures In(if stop.None? then Deciding(record) else Finishing(Closing(record, stop.value)))
      ensures record == WithReason(old(record), ReasonOf(f))
    {
      hide In, Final, Closed;
      var ok := Refuse(f);
      if !ok { return Some(Erred(Other)); }
      if Final(f) { return Some(Done); }
      var rested := Rest();
      return if rested then None else Some(TimedOut);
    }

    /** One turn of the submission loop. */
    method Submit(entry: Bytes, ghost first: PublicationRecord) returns (stop: Option<Ended>, index: Option<u64>)
      requires In(Deciding(record)) && SameOpening(record, first) && record.outcome.Unconfirmed?
      requires ReturnedIndex(record.submissions).None? && |record.submissions| < MAX_SUBMISSIONS
      requires EntryBytes(H, first, first.causalRoot) == Some(entry)
      modifies this`disk, this`tick, this`machine, this`trace, this`taken, this`record, this`posts
      ensures stop.None? ==> In(Deciding(record)) && index == ReturnedIndex(record.submissions)
      ensures stop.Some? ==> In(Finishing(Closing(record, stop.value)))
      ensures |record.submissions| == old(|record.submissions|) + 1 && SameOpening(record, first)
      ensures record.outcome.Unconfirmed?
    {
      hide Next, Run, EntryBytes, VerifyRecord, Tracked, Drove, Runs, ReturnedIndex, Closed, Answer;
      var intended := Intend(first);
      if !intended { return Some(Erred(Other)), None; }
      SameOpens(H, record, first);
      var reply := Send(entry);
      if reply.None? { return Some(TimedOut), None; }
      match reply.value
      case Index(i) =>
        var ok := Keep(i, first);
        if !ok { return Some(Erred(Other)), None; }
        return None, Some(i);
      case Fault(f) =>
        stop := Regret(f);
        return stop, None;
    }

    /** A proof was found: checked, saved, and only then taken over. */
    method Confirm(index: u64, note: string, path: seq<string>) returns (ok: bool)
      requires record.causalRoot == job.root && record.outcome.Unconfirmed?
      requires
        var confirmed := record.(outcome := Confirmed(index, note, path));
        In(if VerifyRecord(H, confirmed, record.causalRoot, job.trust).Some? then Confirming(record, confirmed)
           else Finishing(Closed(WithReason(record, InvalidProof))))
      modifies this`disk, this`tick, this`machine, this`trace, this`taken, this`record
      ensures In(Finishing(Closing(record, if ok then Done else Erred(Other))))
      ensures SameOpening(record, old(record))
      ensures if ok then VerifyRecord(H, record, job.root, job.trust).Some? else record == old(record)
    {
      hide Next, Run, EntryBytes, VerifyRecord, Tracked, Drove;
      var confirmed := record.(outcome := Confirmed(index, note, path));
      if VerifyRecord(H, confirmed, record.causalRoot, job.trust).None? { return false; }
      ok := Save(confirmed, false, Confirming(record, confirmed));
      if ok { record := confirmed; }
    }

    /** One look at the log; `None` where the deadline fires. */
    method Peek(index: u64, ghost polls: nat) returns (look: Option<Look>)
      requires In(Polling(record, index, polls)) && polls < MAX_CHECKPOINT_POLLS
      modifies this`tick, this`machine, this`trace, this`taken
      ensures In(if look.None? then Finishing(Closing(record, TimedOut))
                 else AfterLook(H, job, record, index, polls, look.value))
    {
      hide Next, Runs, Run, VerifyRecord, Tracked, Drove, Closed;
      ghost var phase := Polling(record, index, polls);
      look := world.look(tick);
      if look.None? {
        Lapse(phase);
      } else {
        OnPoll(H, machine, p, job, record, index, polls, look.value);
        Step(phase, Action.Poll(look.value), tick + 1, AfterLook(H, job, record, index, polls, look.value));
        tick := tick + 1;
      }
    }

    /** One turn of the polling loop; `None` to look again. */
    method LookOnce(index: u64, ghost polls: nat) returns (ended: Option<Ended>)
      requires In(Polling(record, index, polls)) && polls < MAX_CHECKPOINT_POLLS
      requires record.causalRoot == job.root && record.outcome.Unconfirmed?
      modifies this`disk, this`tick, this`machine, this`trace, this`taken, this`record
      ensures ended.None? ==> In(Polling(record, index, polls + 1)) && record == old(record)
      ensures ended.Some? ==> In(Finishing(Closing(record, ended.value)))
      ensures SameOpening(record, old(record))
      ensures record.outcome.Confirmed? ==>
        ended == Some(Done) && VerifyRecord(H, record, job.root, job.trust).Some?
    {
      hide In, VerifyRecord, Closed;
      var look := Peek(index, polls);
      if look.None? { return Some(TimedOut); }
      match look.value
      case LookFault(f) => return Some(Erred(f));
      case NotYet => return None;
      case Found(note, path) =>
        var ok := Confirm(index, note, path);
        return Some(if ok then Done else Erred(Other));
    }

    /** The polling loop. */
    method Poll(index: u64) returns (ended: Ended)
      requires In(Polling(record, index, 0)) && record.causalRoot == job.root && record.outcome.Unconfirmed?
      modifies this`disk, this`tick, this`machine, this`trace, this`taken, this`record
      ensures In(Finishing(Closing(record, ended)))
      ensures SameOpening(record, old(record))
      ensures record.outcome.Confirmed? ==> ended.Done? && VerifyRecord(H, record, job.root, job.trust).Some?
    {
      hide Next, Runs, Run, EntryBytes, VerifyRecord, Tracked, Drove, Closed;
      for polls := 0 to MAX_CHECKPOINT_POLLS
        invariant In(Polling(record, index, polls)) && record == old(record)
      {
        var last := LookOnce(index, polls);
        if last.Some? { return last.value; }
      }
      ghost var phase := Polling(record, index, MAX_CHECKPOINT_POLLS);
      var rested := world.rest(tick);
      if !rested {
        Lapse(phase);
        return TimedOut;
      }
      OnLastPoll(H, machine, p, job, record, index);
      Step(phase, Action.Poll(NotYet), tick + 1, Finishing(Closed(record)));
      tick := tick + 1;
      return Done;
    }

    /** The submission and polling loops, on the record in place. */
    method ObtainInclusion() returns (ended: Ended)
      requires In(Loaded(record)) && record.causalRoot == job.root && record.outcome.Unconfirmed?
      modifies this`disk, this`tick, this`machine, this`trace, this`taken, this`record, this`posts
      ensures In(Finishing(Closing(record, ended)))
      ensures SameOpening(record, old(record))
      ensures record.outcome.Confirmed? ==> ended.Done? && VerifyRecord(H, record, job.root, job.trust).Some?
    {
      hide Next, Runs, Run, EntryBytes, VerifyRecord, Tracked, Drove, Closed;
      OnEnter(H, machine, p, job, record);
      var entry := EntryBytes(H, record, record.causalRoot);
      Step(Loaded(record), Enter, tick,
           if entry.None? then Finishing(Closing(record, Erred(Other))) else Deciding(record));
      if entry.None? { return Erred(Other); }
      var index := ReturnedIndex(record.submissions);
      while index.None? && |record.submissions| < MAX_SUBMISSIONS
        invariant In(Deciding(record))
        invariant SameOpening(record, old(record)) && record.outcome.Unconfirmed?
        invariant index == ReturnedIndex(record.submissions)
        decreases MAX_SUBMISSIONS - |record.submissions|
      {
        var stop;
        stop, index := Submit(entry.value, old(record));
        if stop.Some? { return stop.value; }
      }
      OnDecide(H, machine, p, job, record, world.now(tick));
      Step(Deciding(record), Decide(world.now(tick)), tick,
           if index.Some? then Polling(record, index.value, 0) else Finishing(Closed(record)));
      if index.None? { return Done; }
      ended := Poll(index.value);
    }

    /** The record to work on: the stored one, resumed, or a new one, saved first. `None`
        when the run is over already, with its result. */
    method Begin() returns (over: Option<Result<PublicationRecord>>)
      requires In(Locked)
      modifies this`disk, this`tick, this`machine, this`trace, this`taken, this`record
      ensures over.None? ==> In(Loaded(record)) && record.causalRoot == job.root && record.outcome.Unconfirmed?
      ensures over.Some? ==> Left(over.value) && posts == old(posts)
      ensures over.Some? && over.value.Ok? ==>
        disk == Some(over.value.value) && VerifyRecord(H, over.value.value, job.root, job.trust).Some?
      ensures Returned(H, job, world, old(disk)) ==> over == Some(Ok(old(disk).value)) && disk == old(disk)
      ensures Barred(H, job, world, old(disk), world.now(old(tick))) ==> over == Some(Err) && disk == old(disk)
      ensures over.Some? ==>
        if Returned(H, job, world, old(disk)) || Barred(H, job, world, old(disk), world.now(old(tick)))
        then tick == old(tick)
        else over.value.Err? && tick == old(tick) + 1 && !world.save(old(tick)).Saved?
    {
      hide Next, Run, EntryBytes, VerifyRecord, Tracked, Drove, NewRecord;
      var now := world.now(tick);
      ghost var phase := LoadedPhase(H, job, disk, world.readable, world.nonce, now);
      OnLoad(H, machine, p, job, world.readable, world.nonce, now);
      Step(Locked, Load(world.readable, world.nonce, now), tick, if phase.Some? then phase.value else Idle);
      if !world.readable { return Some(Err); }
      if disk.Some? {
        var r := disk.value;
        if EntryBytes(H, r, job.root).None? { return Some(Err); }
        if !(r.logId == job.logId && r.submitUrl == job.submitUrl) { return Some(Err); }
        VerifiedIsConfirmed(H, r, job.root, job.trust);
        if r.outcome.Confirmed? {
          if VerifyRecord(H, r, job.root, job.trust).None? { return Some(Err); }
          return Some(Ok(r));
        }
        RootOfEntry(H, r, job.root);
        record := r;
        return None;
      }
      var created := NewRecord(H, job, world.nonce, now);
      if created.None? { return Some(Err); }
      NewRecordOf(H, job, world.nonce, now);
      record := created.value;
      var ok := Save(record, true, Creating(record));
      if !ok { return Some(Err); }
      return None;
    }

    /** The outcome that is saved last. */
    method Close(ended: Ended)
      modifies this`record
      ensures record == Closing(old(record), ended)
      ensures record.outcome.Confirmed? ==> ended.Done? && record == old(record)
    {
      match ended {
        case Done =>
        case Erred(f) => record := WithReason(record, ReasonOf(f));
        case TimedOut => record := WithReason(record, UnconfirmedReason.Deadline);
      }
      NoIndex(record.submissions);
      if !record.outcome.Confirmed? && |record.submissions| >= MAX_SUBMISSIONS
         && (forall a <- record.submissions :: a.returnedIndex.None?) {
        if record.outcome == Unconfirmed(Prepared) { record := WithReason(record, AttemptLimit); }
      }
    }

    /** The last save: what is returned is what is stored. */
    method Finish(ended: Ended) returns (outcome: Result<PublicationRecord>)
      requires In(Finishing(Closing(record, ended)))
      requires record.outcome.Confirmed? ==> ended.Done? && VerifyRecord(H, record, job.root, job.trust).Some?
      modifies this`disk, this`tick, this`machine, this`trace, this`taken, this`record
      ensures Left(outcome) && tick == old(tick) + 1
      ensures outcome.Ok? <==> world.save(old(tick)).Saved?
      ensures outcome.Ok? ==> disk == Some(outcome.value)
      ensures outcome.Ok? && outcome.value.outcome.Confirmed? ==>
        VerifyRecord(H, outcome.value, job.root, job.trust).Some?
    {
      hide Next, Runs, Run, EntryBytes, VerifyRecord, Tracked, Drove, Closing;
      Close(ended);
      var ok := Save(record, false, Finishing(record));
      return if ok then Ok(record) else Err;
    }

    /** The lock file is created. */
    method Take()
      requires Tracked() && Synced() && At(machine, p) == Idle && lock.None?
      modifies this`lock, this`machine, this`trace, this`base, this`prior, this`taken
      ensures In(Locked) && prior == old(trace) + [Acquire(p, job)]
      ensures base == Point(machine, tick, Err) && machine == Next(H, old(machine), Acquire(p, job))
    {
      hide Next, Run;
      OnAcquire(H, machine, p, job);
      RunSnoc(H, origin, trace, Acquire(p, job));
      machine, trace := Next(H, machine, Acquire(p, job)), trace + [Acquire(p, job)];
      base, prior, taken := Point(machine, tick, Err), trace, 0;
      lock := Some(p);
    }

    /** The run below the lock. */
    method Carry() returns (outcome: Result<PublicationRecord>)
      requires In(Locked) && base == Point(machine, tick, Err)
      modifies this`disk, this`tick, this`machine, this`trace, this`taken, this`record, this`posts
      ensures Left(outcome)
      ensures outcome.Ok? ==> disk == Some(outcome.value)
      ensures outcome.Ok? && outcome.value.outcome.Confirmed? ==>
        VerifyRecord(H, outcome.value, job.root, job.trust).Some?
      ensures outcome.Err? <==>
        || Barred(H, job, world, old(disk), world.now(old(tick)))
        || (!Returned(H, job, world, old(disk)) && tick > old(tick) && !world.save(tick - 1).Saved?)
      ensures Returned(H, job, world, old(disk)) ==> outcome == Ok(old(disk).value)
    {
      hide Next, Run, EntryBytes, VerifyRecord, Tracked, Drive, Events, Runs, Closing, SameOpening, Returned, Barred;
      var over := Begin();
      if over.Some? { return over.value; }
      var ended := ObtainInclusion();
      TicksOnly(H, world, p, base, taken);
      outcome := Finish(ended);
    }

    /** A whole run. A held lock refuses it without touching anything; otherwise it is the
        machine driven by the surroundings from the moment the lock is taken, up to its end. The
        lock is free again, what is returned is what is stored, and a Confirmed result has passed
        verification. It fails exactly when there is no record to work on or the last save
        reports an error. */
    method Publish() returns (outcome: Result<PublicationRecord>)
      requires Tracked() && Synced() && At(machine, p) == Idle
      modifies this
      ensures Tracked() && Synced() && At(machine, p) == Idle
      ensures old(lock).Some? ==> outcome.Err? && trace == old(trace)
      ensures old(lock).None? ==> lock.None?
      ensures old(lock).None? ==>
        var start := Point(Next(H, old(machine), Acquire(p, job)), old(tick), Err);
        exists n: nat ::
          && Drive(H, world, p, start, n) == Point(machine, tick, outcome)
          && trace == old(trace) + [Acquire(p, job)] + Events(H, world, p, start, n)
      ensures outcome.Ok? ==> disk == Some(outcome.value)
      ensures outcome.Ok? && outcome.value.outcome.Confirmed? ==>
        VerifyRecord(H, outcome.value, job.root, job.trust).Some?
      ensures old(lock).None? ==>
        (outcome.Err? <==>
          || Barred(H, job, world, old(disk), world.now(old(tick)))
          || (!Returned(H, job, world, old(disk)) && tick > old(tick) && !world.save(tick - 1).Saved?))
      ensures old(lock).None? && Returned(H, job, world, old(disk)) ==> outcome == Ok(old(disk).value)
      ensures old(lock).None? ==>
        forall index, idle, note, path | Resumable(H, world, job, old(disk), index, old(tick), idle, note, path) ::
          outcome == Ok(old(disk).value.(outcome := Confirmed(index, note, path)))
    {
      hide Next, Run, VerifyRecord, Tracked, Drive, Events, Runs, Returned, Barred, Confirms, ReturnedIndex, Matches;
      if lock.Some? { return Err; }
      Take();
      outcome := Carry();
      lock := None;
      forall index, idle, note, path | Resumable(H, world, job, old(disk), index, old(tick), idle, note, path)
        ensures outcome == Ok(old(disk).value.(outcome := Confirmed(index, note, path)))
      {
        ResumableEnds(H, world, p, job, base, Point(machine, tick, outcome), index, idle, note, path);
      }
    }
  }

  /** What holds of every run of the machine holds of the program, at every point where it
      is in step with it: the files, the requests, and what is stored. */
  lemma ProgramIsSafe(publisher: Publisher)
    requires publisher.Tracked() && publisher.Synced() && publisher.origin == INITIAL
    ensures |publisher.posts| <= MAX_SUBMISSIONS
    ensures publisher.disk.Some? && publisher.disk.value.outcome.Confirmed? ==>
      exists trust :: VerifyRecord(publisher.H, publisher.disk.value, publisher.disk.value.causalRoot, trust).Some?
  {
    hide Run, VerifyRecord;
    History.AtMostThreePosts(publisher.H, publisher.trace);
    History.ConfirmedIsVerified(publisher.H, publisher.trace);
  }
}
