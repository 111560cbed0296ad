/** The protocol driven by one publisher's surroundings, and how such a run ends. */
module PublicationDrive {
  import opened Numbers
  import opened Outcome
  import opened Merkle
  import opened PublicationEvidence
  import opened PublicationProtocol
  import opened PublicationSafety
  import opened PublicationSteps

  /** What becomes of one submission: the deadline or a failure before it is sent, or,
      once sent, the deadline or a reply. */
  datatype Attempt = LateBefore | FailedBefore(fault: Fault) | LateAfter | Replied(reply: Reply)

  /** What the surroundings answer, tick by tick. A look or a rest that is `None` or
      `false` is where the deadline fires. */
  datatype Surroundings = Surroundings(
    readable: bool,
    nonce: string,
    now: nat -> int,
    save: nat -> SaveResult,
    attempt: nat -> Attempt,
    rest: nat -> bool,
    look: nat -> Option<Look>)

  /** A run so far: the machine, the next tick, and what `publish` returned once it did. */
  datatype Point = Point(state: State, tick: nat, result: Result<PublicationRecord>)

  /** What a publisher does in a phase, with what its surroundings answer at this tick, and
      the tick after it. A submission has one answer, which may come after the request. */
  function Answer(world: Surroundings, phase: Phase, t: nat): (Action, nat) {
    match phase
    case Locked => (Load(world.readable, world.nonce, world.now(t)), t)
    case Deciding(_) => (Decide(world.now(t)), t)
    case Posting(_) =>
      (match world.attempt(t)
       case LateBefore => (Action.Deadline, t + 1)
       case FailedBefore(f) => (Receive(Reply.Fault(f)), t + 1)
       case _ => (Action.Send, t))
    case Awaiting(_) =>
      (match world.attempt(t)
       case Replied(reply) => (Receive(reply), t + 1)
       case _ => (Action.Deadline, t + 1))
    case Sleeping(_) => (if world.rest(t) then Wake else Action.Deadline, t + 1)
    case Polling(_, _, polls) =>
      if polls < MAX_CHECKPOINT_POLLS then
        (if world.look(t).Some? then Action.Poll(world.look(t).value) else Action.Deadline, t + 1)
      else (if world.rest(t) then Action.Poll(NotYet) else Action.Deadline, t + 1)
    case _ => if PendingSave(phase).Some? then (Action.Save(world.save(t)), t + 1) else (Enter, t)
  }

  /** A stored record of this receipt and this log. */
  predicate Matches(H: Digest, job: Job, r: PublicationRecord) {
    EntryBytes(H, r, job.root).Some? && r.logId == job.logId && r.submitUrl == job.submitUrl
  }

  /** A stored Confirmed record that is returned as it is. */
  predicate Returned(H: Digest, job: Job, world: Surroundings, disk: Option<PublicationRecord>) {
    && world.readable && disk.Some? && Matches(H, job, disk.value)
    && VerifyRecord(H, disk.value, job.root, job.trust).Some?
  }

  /** What leaves a run without a record to work on. */
  predicate Barred(H: Digest, job: Job, world: Surroundings, disk: Option<PublicationRecord>, now: int) {
    || !world.readable
    || (disk.None? && NewRecord(H, job, world.nonce, now).None?)
    || (disk.Some? && !Matches(H, job, disk.value))
    || (disk.Some? && disk.value.outcome.Confirmed? && VerifyRecord(H, disk.value, job.root, job.trust).None?)
  }

  /** What a run that ends in this phase returns. */
  function Ending(H: Digest, job: Job, world: Surroundings, disk: Option<PublicationRecord>, phase: Phase,
                  t: nat): Result<PublicationRecord>
  {
    match phase
    case Locked => if Returned(H, job, world, disk) then Ok(disk.value) else Err
    case Finishing(r) => if world.save(t).Saved? then Ok(r) else Err
    case _ => Err
  }

  /** One step of a publisher that still runs. */
  function Advance(H: Digest, world: Surroundings, p: Pid, x: Point): Point {
    var phase := At(x.state, p);
    if phase == Idle then x
    else
      var (action, t) := Answer(world, phase, x.tick);
      var s := Next(H, x.state, Act(p, action));
      Point(s, t, if At(s, p) == Idle then Ending(H, x.state.procs[p].job, world, x.state.disk, phase, x.tick)
                  else x.result)
  }

  function Drive(H: Digest, world: Surroundings, p: Pid, x: Point, n: nat): Point {
    if n == 0 then x else Advance(H, world, p, Drive(H, world, p, x, n - 1))
  }

  /** The events of the first `n` steps. */
  function Events(H: Digest, world: Surroundings, p: Pid, x: Point, n: nat): seq<Event> {
    if n == 0 then []
    else
      var y := Drive(H, world, p, x, n - 1);
      var phase := At(y.state, p);
      Events(H, world, p, x, n - 1) + if phase == Idle then [] else [Act(p, Answer(world, phase, y.tick).0)]
  }

  ghost predicate Reaches(H: Digest, world: Surroundings, p: Pid, x: Point, y: Point) {
    exists n: nat :: Drive(H, world, p, x, n) == y
  }

  /** A finished run. */
  ghost predicate Ends(H: Digest, world: Surroundings, p: Pid, x: Point, end: Point) {
    At(end.state, p) == Idle && Reaches(H, world, p, x, end)
  }

  /** The run ends with this record stored and returned. */
  ghost predicate EndsWith(H: Digest, world: Surroundings, p: Pid, x: Point, r: PublicationRecord) {
    exists end :: Ends(H, world, p, x, end) && end.result == Ok(r) && end.state.disk == Some(r)
  }

  // ---------------------------------------------------------------------
  // What a driven run does, step by step
  // ---------------------------------------------------------------------

  lemma VerifiedIsConfirmed(H: Digest, r: PublicationRecord, root: string, trust: LogTrust)
    ensures VerifyRecord(H, r, root, trust).Some? ==> r.outcome.Confirmed?
  {
    hide EntryBytes;
  }

  lemma AdvanceFrom(H: Digest, world: Surroundings, p: Pid, job: Job, x: Point, phase: Phase)
    requires Runs(x.state, p, job, phase)
    ensures
      var (action, t) := Answer(world, phase, x.tick);
      var s := Next(H, x.state, Act(p, action));
      Advance(H, world, p, x)
        == Point(s, t, if At(s, p) == Idle then Ending(H, job, world, x.state.disk, phase, x.tick) else x.result)
  {
    hide Next, Answer, Ending;
  }

  lemma {:induction false} TicksOnly(H: Digest, world: Surroundings, p: Pid, x: Point, n: nat)
    ensures x.tick <= Drive(H, world, p, x, n).tick
  {
    hide Next, Ending;
    if n > 0 { TicksOnly(H, world, p, x, n - 1); }
  }

  lemma DriveOne(H: Digest, world: Surroundings, p: Pid, x: Point)
    ensures Drive(H, world, p, x, 1) == Advance(H, world, p, x)
  {
    hide Advance;
    assert Drive(H, world, p, x, 0) == x;
  }

  lemma {:induction false} DriveSplit(H: Digest, world: Surroundings, p: Pid, x: Point, m: nat, n: nat)
    ensures Drive(H, world, p, x, m + n) == Drive(H, world, p, Drive(H, world, p, x, m), n)
    decreases n
  {
    hide Advance;
    if n > 0 { DriveSplit(H, world, p, x, m, n - 1); }
  }

  lemma {:induction false} DriveStuck(H: Digest, world: Surroundings, p: Pid, x: Point, n: nat)
    requires At(x.state, p) == Idle
    ensures Drive(H, world, p, x, n) == x
  {
    hide Next, Answer, Ending, At;
    if n > 0 { DriveStuck(H, world, p, x, n - 1); }
  }

  /** A run can end in one way only. */
  lemma EndsOnce(H: Digest, world: Surroundings, p: Pid, x: Point, a: Point, b: Point)
    requires Ends(H, world, p, x, a) && Ends(H, world, p, x, b)
    ensures a == b
  {
    hide Drive, At;
    var m: nat :| Drive(H, world, p, x, m) == a;
    var n: nat :| Drive(H, world, p, x, n) == b;
    if m <= n {
      DriveSplit(H, world, p, x, m, n - m);
      DriveStuck(H, world, p, a, n - m);
    } else {
      DriveSplit(H, world, p, x, n, m - n);
      DriveStuck(H, world, p, b, m - n);
    }
  }

  /** What a run ends with is what it returns and stores. */
  lemma EndsWithOnly(H: Digest, world: Surroundings, p: Pid, x: Point, end: Point, r: PublicationRecord)
    requires Ends(H, world, p, x, end) && EndsWith(H, world, p, x, r)
    ensures end.result == Ok(r) && end.state.disk == Some(r)
  {
    hide Ends;
    var other :| Ends(H, world, p, x, other) && other.result == Ok(r) && other.state.disk == Some(r);
    EndsOnce(H, world, p, x, end, other);
  }

  lemma ReachesFurther(H: Digest, world: Surroundings, p: Pid, x: Point, y: Point, z: Point)
    requires Reaches(H, world, p, x, y) && Reaches(H, world, p, y, z)
    ensures Reaches(H, world, p, x, z)
  {
    hide Drive;
    var m: nat :| Drive(H, world, p, x, m) == y;
    var n: nat :| Drive(H, world, p, y, n) == z;
    DriveSplit(H, world, p, x, m, n);
  }

  /** From `x` the publisher comes, after its first or further steps, to `y` and is in `phase`. */
  ghost predicate Comes(H: Digest, world: Surroundings, p: Pid, job: Job, x: Point, y: Point, phase: Phase) {
    Reaches(H, world, p, x, y) && Runs(y.state, p, job, phase)
  }

  lemma Starts(H: Digest, world: Surroundings, p: Pid, job: Job, x: Point, phase: Phase)
    requires Runs(x.state, p, job, phase)
    ensures Comes(H, world, p, job, x, x, phase)
  {
    assert Drive(H, world, p, x, 0) == x;
  }

  /** One more step. */
  lemma StepsOn(H: Digest, world: Surroundings, p: Pid, job: Job, x: Point, y: Point, phase: Phase, next: Phase)
    returns (z: Point)
    requires Comes(H, world, p, job, x, y, phase)
    requires Runs(Next(H, y.state, Act(p, Answer(world, phase, y.tick).0)), p, job, next)
    ensures Comes(H, world, p, job, x, z, next)
    ensures z.state == Next(H, y.state, Act(p, Answer(world, phase, y.tick).0))
    ensures z.tick == Answer(world, phase, y.tick).1
  {
    hide Next, Drive, Answer, Ending, Advance;
    z := Advance(H, world, p, y);
    AdvanceFrom(H, world, p, job, y, phase);
    DriveOne(H, world, p, y);
    assert Reaches(H, world, p, y, z);
    ReachesFurther(H, world, p, x, y, z);
  }

  /** A save that succeeds, unless it is the last or the first. */
  lemma Saves(H: Digest, world: Surroundings, p: Pid, job: Job, x: Point, y: Point, phase: Phase,
              saved: PublicationRecord) returns (z: Point)
    requires Comes(H, world, p, job, x, y, phase) && PendingSave(phase) == Some(saved) && world.save(y.tick).Saved?
    requires (phase.Creating? ==> y.state.disk.None?) && !phase.Finishing?
    ensures Comes(H, world, p, job, x, z, AfterPhase(phase, true)) && z.tick == y.tick + 1
  {
    hide Next, Reaches, Closed;
    OnSave(H, y.state, p, job, phase, saved, world.save(y.tick));
    z := StepsOn(H, world, p, job, x, y, phase, AfterPhase(phase, true));
  }

  /** The last save, when it succeeds. */
  lemma LastSave(H: Digest, world: Surroundings, p: Pid, job: Job, x: Point, y: Point, r: PublicationRecord)
    requires Comes(H, world, p, job, x, y, Finishing(r)) && world.save(y.tick).Saved?
    ensures EndsWith(H, world, p, x, r)
  {
    hide Next, Drive, Advance;
    OnSave(H, y.state, p, job, Finishing(r), r, world.save(y.tick));
    AdvanceFrom(H, world, p, job, y, Finishing(r));
    var end := Advance(H, world, p, y);
    DriveOne(H, world, p, y);
    assert Reaches(H, world, p, y, end);
    ReachesFurther(H, world, p, x, y, end);
    assert Ends(H, world, p, x, end);
  }

  // ---------------------------------------------------------------------
  // How runs end
  // ---------------------------------------------------------------------

  /** The surroundings let a publisher that polls from tick `t` confirm the index: after some looks
      that find nothing yet, one finds a path that verifies, and the two saves succeed. */
  ghost predicate Confirms(H: Digest, world: Surroundings, job: Job, r: PublicationRecord, index: u64, t: nat,
                           idle: nat, note: string, path: seq<string>)
  {
    && (forall k :: t <= k < t + idle ==> world.look(k) == Some(NotYet))
    && world.look(t + idle) == Some(Found(note, path))
    && VerifyRecord(H, r.(outcome := Confirmed(index, note, path)), r.causalRoot, job.trust).Some?
    && world.save(t + idle + 1).Saved? && world.save(t + idle + 2).Saved?
  }

  lemma {:induction false} PollingConfirms(H: Digest, world: Surroundings, p: Pid, job: Job, x: Point, y: Point,
                                           r: PublicationRecord, index: u64, polls: nat, idle: nat, note: string,
                                           path: seq<string>)
    requires Comes(H, world, p, job, x, y, Polling(r, index, polls)) && polls + idle < MAX_CHECKPOINT_POLLS
    requires Confirms(H, world, job, r, index, y.tick, idle, note, path)
    ensures EndsWith(H, world, p, x, r.(outcome := Confirmed(index, note, path)))
    decreases idle
  {
    hide Next, EndsWith, VerifyRecord, Runs, Reaches, Closed;
    var phase, confirmed := Polling(r, index, polls), r.(outcome := Confirmed(index, note, path));
    OnPoll(H, y.state, p, job, r, index, polls, world.look(y.tick).value);
    if idle == 0 {
      var z := StepsOn(H, world, p, job, x, y, phase, Confirming(r, confirmed));
      var last := Saves(H, world, p, job, x, z, Confirming(r, confirmed), confirmed);
      LastSave(H, world, p, job, x, last, confirmed);
    } else {
      var z := StepsOn(H, world, p, job, x, y, phase, Polling(r, index, polls + 1));
      PollingConfirms(H, world, p, job, x, z, r, index, polls + 1, idle - 1, note, path);
    }
  }

  /** An index on record is polled for, and nothing else is done about it. */
  lemma IndexedConfirms(H: Digest, world: Surroundings, p: Pid, job: Job, x: Point, y: Point, r: PublicationRecord,
                        index: u64, idle: nat, note: string, path: seq<string>)
    requires Comes(H, world, p, job, x, y, Deciding(r)) && ReturnedIndex(r.submissions) == Some(index)
    requires idle < MAX_CHECKPOINT_POLLS && Confirms(H, world, job, r, index, y.tick, idle, note, path)
    ensures EndsWith(H, world, p, x, r.(outcome := Confirmed(index, note, path)))
  {
    hide Next, EndsWith, VerifyRecord, Runs, ReturnedIndex, Confirms, Reaches, Closed;
    OnDecide(H, y.state, p, job, r, world.now(y.tick));
    var z := StepsOn(H, world, p, job, x, y, Deciding(r), Polling(r, index, 0));
    PollingConfirms(H, world, p, job, x, z, r, index, 0, idle, note, path);
  }

  /** A stored record of this receipt that is not confirmed is taken up as it is. */
  lemma Resumes(H: Digest, world: Surroundings, p: Pid, job: Job, x: Point, r: PublicationRecord) returns (z: Point)
    requires Runs(x.state, p, job, Locked) && world.readable && x.state.disk == Some(r)
    requires Matches(H, job, r) && r.outcome.Unconfirmed?
    ensures Comes(H, world, p, job, x, z, Deciding(r)) && z.tick == x.tick
  {
    hide Next, Reaches, EntryBytes, Closed;
    OnLoad(H, x.state, p, job, world.readable, world.nonce, world.now(x.tick));
    Starts(H, world, p, job, x, Locked);
    var loaded := StepsOn(H, world, p, job, x, x, Locked, Loaded(r));
    RootOfEntry(H, r, job.root);
    OnEnter(H, loaded.state, p, job, r);
    z := StepsOn(H, world, p, job, x, loaded, Loaded(r), Deciding(r));
  }

  /** A stored record with an index is confirmed without another request. */
  lemma ResumedConfirms(H: Digest, world: Surroundings, p: Pid, job: Job, x: Point, r: PublicationRecord, index: u64,
                        idle: nat, note: string, path: seq<string>)
    requires Runs(x.state, p, job, Locked) && world.readable && x.state.disk == Some(r)
    requires Matches(H, job, r) && r.outcome.Unconfirmed? && ReturnedIndex(r.submissions) == Some(index)
    requires idle < MAX_CHECKPOINT_POLLS && Confirms(H, world, job, r, index, x.tick, idle, note, path)
    ensures EndsWith(H, world, p, x, r.(outcome := Confirmed(index, note, path)))
  {
    hide Reaches, Runs, Matches, Confirms, ReturnedIndex, EndsWith;
    var y := Resumes(H, world, p, job, x, r);
    IndexedConfirms(H, world, p, job, x, y, r, index, idle, note, path);
  }

  /** An index is on record and the surroundings let it be confirmed. */
  ghost predicate Resumable(H: Digest, world: Surroundings, job: Job, disk: Option<PublicationRecord>, index: u64,
                            t: nat, idle: nat, note: string, path: seq<string>)
  {
    && world.readable && disk.Some? && Matches(H, job, disk.value) && disk.value.outcome.Unconfirmed?
    && ReturnedIndex(disk.value.submissions) == Some(index)
    && idle < MAX_CHECKPOINT_POLLS && Confirms(H, world, job, disk.value, index, t, idle, note, path)
  }

  lemma ResumableEnds(H: Digest, world: Surroundings, p: Pid, job: Job, x: Point, end: Point, index: u64, idle: nat,
                      note: string, path: seq<string>)
    requires Runs(x.state, p, job, Locked) && Ends(H, world, p, x, end)
    requires Resumable(H, world, job, x.state.disk, index, x.tick, idle, note, path)
    ensures end.result == Ok(x.state.disk.value.(outcome := Confirmed(index, note, path)))
  {
    hide Ends, EndsWith, Runs, Confirms, Matches, ReturnedIndex;
    var r := x.state.disk.value;
    ResumedConfirms(H, world, p, job, x, r, index, idle, note, path);
    EndsWithOnly(H, world, p, x, end, r.(outcome := Confirmed(index, note, path)));
  }

  function Intent(r: PublicationRecord, now: int): PublicationRecord {
    r.(submissions := r.submissions + [Submission(now, None)])
  }

  /** The record once the attempt begun at `now` has returned this index. */
  function WithIndex(r: PublicationRecord, now: int, index: u64): PublicationRecord {
    WithReason(r.(submissions := r.submissions + [Submission(now, Some(index))]), AwaitingInclusion)
  }

  lemma IndexIsKept(r: PublicationRecord, now: int, index: u64)
    ensures ReturnedIndex(WithIndex(r, now, index).submissions) == Some(index)
  {
  }

  /** The head of the loop, with room for another attempt: its intent is saved first. */
  lemma Intends(H: Digest, world: Surroundings, p: Pid, job: Job, x: Point, y: Point, r: PublicationRecord)
    returns (z: Point)
    requires Comes(H, world, p, job, x, y, Deciding(r)) && ReturnedIndex(r.submissions).None?
    requires |r.submissions| < MAX_SUBMISSIONS && world.save(y.tick).Saved?
    ensures Comes(H, world, p, job, x, z, Posting(Intent(r, world.now(y.tick)))) && z.tick == y.tick + 1
  {
    hide Next, Runs, ReturnedIndex, Reaches, Closed;
    var intent := Intent(r, world.now(y.tick));
    OnDecide(H, y.state, p, job, r, world.now(y.tick));
    var decided := StepsOn(H, world, p, job, x, y, Deciding(r), Intending(intent));
    z := Saves(H, world, p, job, x, decided, Intending(intent), intent);
  }

  /** A request goes out whenever a reply or the deadline comes after it. */
  lemma Requests(H: Digest, world: Surroundings, p: Pid, job: Job, x: Point, y: Point, r: PublicationRecord)
    returns (z: Point)
    requires Comes(H, world, p, job, x, y, Posting(r)) && EntryBytes(H, r, r.causalRoot).Some?
    requires world.attempt(y.tick).Replied? || world.attempt(y.tick).LateAfter?
    ensures Comes(H, world, p, job, x, z, Awaiting(r)) && z.tick == y.tick
    ensures z.state.posts == y.state.posts + [Post(EntryBytes(H, r, r.causalRoot).value, |r.submissions|)]
  {
    hide Next, Runs, EntryBytes, Reaches;
    OnSend(H, y.state, p, job, r);
    z := StepsOn(H, world, p, job, x, y, Posting(r), Awaiting(r));
  }

  /** A returned index is on record when the loop goes on. */
  lemma Answers(H: Digest, world: Surroundings, p: Pid, job: Job, x: Point, y: Point, r: PublicationRecord, now: int,
                index: u64)
    returns (z: Point)
    requires Comes(H, world, p, job, x, y, Posting(Intent(r, now))) && EntryBytes(H, r, r.causalRoot).Some?
    requires |r.submissions| < MAX_SUBMISSIONS
    requires world.attempt(y.tick) == Replied(Index(index)) && world.save(y.tick + 1).Saved?
    ensures Comes(H, world, p, job, x, z, Deciding(WithIndex(r, now, index))) && z.tick == y.tick + 2
  {
    hide Next, Runs, EntryBytes, Reaches, Closed;
    var intent, answered := Intent(r, now), WithIndex(r, now, index);
    SameOpens(H, intent, r);
    var sent := Requests(H, world, p, job, x, y, intent);
    OnIndex(H, sent.state, p, job, intent, index);
    var n := |r.submissions|;
    assert intent.submissions[n := Submission(now, Some(index))] == r.submissions + [Submission(now, Some(index))];
    var replied := StepsOn(H, world, p, job, x, sent, Awaiting(intent), Answered(answered));
    z := Saves(H, world, p, job, x, replied, Answered(answered), answered);
  }

  /** From the head of the loop: one request, its index, and the proof. */
  lemma RequestConfirms(H: Digest, world: Surroundings, p: Pid, job: Job, x: Point, y: Point, r: PublicationRecord,
                        index: u64, idle: nat, note: string, path: seq<string>)
    requires Comes(H, world, p, job, x, y, Deciding(r)) && ReturnedIndex(r.submissions).None?
    requires |r.submissions| < MAX_SUBMISSIONS && EntryBytes(H, r, r.causalRoot).Some?
    requires world.save(y.tick).Saved? && world.attempt(y.tick + 1) == Replied(Index(index))
    requires world.save(y.tick + 2).Saved? && idle < MAX_CHECKPOINT_POLLS
    requires Confirms(H, world, job, WithIndex(r, world.now(y.tick), index), index, y.tick + 3, idle, note, path)
    ensures EndsWith(H, world, p, x,
                     WithIndex(r, world.now(y.tick), index).(outcome := Confirmed(index, note, path)))
  {
    hide Comes, Confirms, ReturnedIndex, EndsWith, EntryBytes, WithIndex;
    var now := world.now(y.tick);
    var posting := Intends(H, world, p, job, x, y, r);
    var answered := Answers(H, world, p, job, x, posting, r, now, index);
    IndexIsKept(r, now, index);
    IndexedConfirms(H, world, p, job, x, answered, WithIndex(r, now, index), index, idle, note, path);
  }

  /** Where there is no file, a new record is saved before anything else. */
  lemma Creates(H: Digest, world: Surroundings, p: Pid, job: Job, x: Point, r: PublicationRecord) returns (z: Point)
    requires Runs(x.state, p, job, Locked) && world.readable && x.state.disk.None?
    requires NewRecord(H, job, world.nonce, world.now(x.tick)) == Some(r) && EntryBytes(H, r, r.causalRoot).Some?
    requires world.save(x.tick).Saved?
    ensures Comes(H, world, p, job, x, z, Deciding(r)) && z.tick == x.tick + 1
  {
    hide Next, Reaches, EntryBytes, Closed, NewRecord;
    OnLoad(H, x.state, p, job, world.readable, world.nonce, world.now(x.tick));
    Starts(H, world, p, job, x, Locked);
    var creating := StepsOn(H, world, p, job, x, x, Locked, Creating(r));
    var saved := Saves(H, world, p, job, x, creating, Creating(r), r);
    OnEnter(H, saved.state, p, job, r);
    z := StepsOn(H, world, p, job, x, saved, Loaded(r), Deciding(r));
  }

  /** A first publication that meets no obstacle. */
  lemma FirstConfirms(H: Digest, world: Surroundings, p: Pid, job: Job, x: Point, r: PublicationRecord, index: u64,
                      idle: nat, note: string, path: seq<string>)
    requires Runs(x.state, p, job, Locked) && world.readable && x.state.disk.None?
    requires NewRecord(H, job, world.nonce, world.now(x.tick)) == Some(r) && EntryBytes(H, r, r.causalRoot).Some?
    requires world.save(x.tick).Saved? && world.save(x.tick + 1).Saved?
    requires world.attempt(x.tick + 2) == Replied(Index(index)) && world.save(x.tick + 3).Saved?
    requires idle < MAX_CHECKPOINT_POLLS
    requires Confirms(H, world, job, WithIndex(r, world.now(x.tick + 1), index), index, x.tick + 4, idle, note, path)
    ensures EndsWith(H, world, p, x,
                     WithIndex(r, world.now(x.tick + 1), index).(outcome := Confirmed(index, note, path)))
  {
    var now := world.now(x.tick);
    assert r.submissions == [] && ReturnedIndex([]).None?;
    hide Comes, Confirms, ReturnedIndex, EndsWith, EntryBytes, WithIndex, NewRecord, Runs;
    var y := Creates(H, world, p, job, x, r);
    RequestConfirms(H, world, p, job, x, y, r, index, idle, note, path);
  }

  // ---------------------------------------------------------------------
  // Failures
  // ---------------------------------------------------------------------

  /** What may pass: no connection, a server error, or a rate limit. */
  predicate Passing(f: Fault) { f.Rejected? ==> 500 <= f.code < 600 || f.code == 429 }

  /** The reason on record for each fault, and which of them end the attempts. */
  lemma FaultsAre(f: Fault)
    ensures Final(f) <==> !Passing(f)
    ensures ReasonOf(f)
         == if f.Unavailable? then RequestFailed else if f.Rejected? then ServiceRefused else InvalidProof
    ensures Final(f) ==> f.Rejected?
  {
  }

  /** A failed request, before or after it was sent, on record. */
  lemma Fails(H: Digest, world: Surroundings, p: Pid, job: Job, x: Point, y: Point, r: PublicationRecord, f: Fault)
    returns (z: Point)
    requires Comes(H, world, p, job, x, y, Posting(r)) && EntryBytes(H, r, r.causalRoot).Some?
    requires world.attempt(y.tick) == FailedBefore(f) || world.attempt(y.tick) == Replied(Reply.Fault(f))
    requires world.save(y.tick + 1).Saved?
    ensures Comes(H, world, p, job, x, z, AfterPhase(Refused(WithReason(r, ReasonOf(f)), Final(f)), true))
    ensures z.tick == y.tick + 2
  {
    hide Next, Runs, EntryBytes, Reaches, Closed, Final, ReasonOf;
    var refused, phase, at := Refused(WithReason(r, ReasonOf(f)), Final(f)), Posting(r), y;
    if world.attempt(y.tick).Replied? {
      phase := Awaiting(r);
      at := Requests(H, world, p, job, x, y, r);
    }
    OnFault(H, at.state, p, job, r, f);
    var failed := StepsOn(H, world, p, job, x, at, phase, refused);
    z := Saves(H, world, p, job, x, failed, refused, WithReason(r, ReasonOf(f)));
  }

  /** A failure that may pass: after a rest the loop goes on, with the reason on record. */
  lemma Retries(H: Digest, world: Surroundings, p: Pid, job: Job, x: Point, y: Point, r: PublicationRecord, f: Fault)
    returns (z: Point)
    requires Comes(H, world, p, job, x, y, Posting(r)) && EntryBytes(H, r, r.causalRoot).Some? && Passing(f)
    requires world.attempt(y.tick) == FailedBefore(f) || world.attempt(y.tick) == Replied(Reply.Fault(f))
    requires world.save(y.tick + 1).Saved? && world.rest(y.tick + 2)
    ensures
      var reason := if f.Unavailable? then RequestFailed else if f.Rejected? then ServiceRefused else InvalidProof;
      Comes(H, world, p, job, x, z, Deciding(WithReason(r, reason))) && z.tick == y.tick + 3
  {
    hide Next, Runs, EntryBytes, Reaches, Final, Passing, ReasonOf, Closed;
    FaultsAre(f);
    var failed := WithReason(r, ReasonOf(f));
    var sleeping := Fails(H, world, p, job, x, y, r, f);
    OnWake(H, sleeping.state, p, job, failed);
    z := StepsOn(H, world, p, job, x, sleeping, Sleeping(failed), Deciding(failed));
  }

  /** A final refusal ends the attempts: no further request, and the refusal is what is stored. */
  lemma RefusalEnds(H: Digest, world: Surroundings, p: Pid, job: Job, x: Point, y: Point, r: PublicationRecord,
                    f: Fault)
    requires Comes(H, world, p, job, x, y, Posting(r)) && EntryBytes(H, r, r.causalRoot).Some? && !Passing(f)
    requires world.attempt(y.tick) == FailedBefore(f) || world.attempt(y.tick) == Replied(Reply.Fault(f))
    requires world.save(y.tick + 1).Saved? && world.save(y.tick + 2).Saved?
    ensures EndsWith(H, world, p, x, WithReason(r, ServiceRefused))
  {
    hide Next, Comes, EntryBytes, Final, Passing, ReasonOf, EndsWith;
    FaultsAre(f);
    var z := Fails(H, world, p, job, x, y, r, f);
    LastSave(H, world, p, job, x, z, WithReason(r, ServiceRefused));
  }

  /** After the third attempt without an index there is no other; a better reason is kept. */
  lemma AttemptsEnd(H: Digest, world: Surroundings, p: Pid, job: Job, x: Point, y: Point, r: PublicationRecord)
    requires Comes(H, world, p, job, x, y, Deciding(r)) && ReturnedIndex(r.submissions).None?
    requires |r.submissions| >= MAX_SUBMISSIONS && world.save(y.tick).Saved?
    ensures EndsWith(H, world, p, x,
                     if r.outcome == Unconfirmed(Prepared) then WithReason(r, AttemptLimit) else r)
  {
    var last := Closed(r);
    assert last == if r.outcome == Unconfirmed(Prepared) then WithReason(r, AttemptLimit) else r;
    hide Next, Runs, ReturnedIndex, Reaches, Closed, EndsWith;
    OnDecide(H, y.state, p, job, r, world.now(y.tick));
    var z := StepsOn(H, world, p, job, x, y, Deciding(r), Finishing(last));
    LastSave(H, world, p, job, x, z, last);
  }

  /** The deadline fires at this tick: before or after the request is sent, in a rest, or at a look. */
  predicate Late(world: Surroundings, phase: Phase, t: nat) {
    || (phase.Posting? && world.attempt(t).LateBefore?)
    || (phase.Awaiting? && world.attempt(t).LateAfter?)
    || (phase.Sleeping? && !world.rest(t))
    || (phase.Polling? && phase.polls < MAX_CHECKPOINT_POLLS && world.look(t).None?)
    || (phase.Polling? && phase.polls >= MAX_CHECKPOINT_POLLS && !world.rest(t))
  }

  /** Wherever the program waits, the deadline ends the run with that reason stored. */
  lemma DeadlineEnds(H: Digest, world: Surroundings, p: Pid, job: Job, x: Point, y: Point, phase: Phase)
    requires Comes(H, world, p, job, x, y, phase) && Late(world, phase, y.tick)
    requires world.save(y.tick + 1).Saved?
    ensures EndsWith(H, world, p, x, WithReason(phase.record, UnconfirmedReason.Deadline))
  {
    hide Next, Runs, Reaches, EndsWith;
    var late := WithReason(phase.record, UnconfirmedReason.Deadline);
    OnDeadline(H, y.state, p, job, phase.record, phase);
    var z := StepsOn(H, world, p, job, x, y, phase, Finishing(late));
    LastSave(H, world, p, job, x, z, late);
  }

  /** Looks that find nothing, up to the last rest: the run ends with what it had. */
  lemma {:induction false} NothingFoundEnds(H: Digest, world: Surroundings, p: Pid, job: Job, x: Point, y: Point,
                                            r: PublicationRecord, index: u64, polls: nat)
    requires Comes(H, world, p, job, x, y, Polling(r, index, polls)) && polls <= MAX_CHECKPOINT_POLLS
    requires forall k :: y.tick <= k < y.tick + MAX_CHECKPOINT_POLLS - polls ==> world.look(k) == Some(NotYet)
    requires world.rest(y.tick + MAX_CHECKPOINT_POLLS - polls)
    requires world.save(y.tick + MAX_CHECKPOINT_POLLS - polls + 1).Saved?
    ensures EndsWith(H, world, p, x, Closed(r))
    decreases MAX_CHECKPOINT_POLLS - polls
  {
    hide Next, EndsWith, Runs, Reaches, Closed;
    if polls == MAX_CHECKPOINT_POLLS {
      OnLastPoll(H, y.state, p, job, r, index);
      var z := StepsOn(H, world, p, job, x, y, Polling(r, index, polls), Finishing(Closed(r)));
      LastSave(H, world, p, job, x, z, Closed(r));
    } else {
      OnPoll(H, y.state, p, job, r, index, polls, NotYet);
      var z := StepsOn(H, world, p, job, x, y, Polling(r, index, polls), Polling(r, index, polls + 1));
      NothingFoundEnds(H, world, p, job, x, z, r, index, polls + 1);
    }
  }
}
