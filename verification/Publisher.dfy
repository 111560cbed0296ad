/** The publication protocol of `publication/client.rs` as a state machine.

    Any number of publishers share one record file and its lock. Each event is
    one atomic action of the program or of its surroundings; what the surroundings
    choose (replies, failed saves, deadlines, crashes) is part of the event, so a
    sequence of events is one interleaving and every interleaving is one. */
module PublicationProtocol {
  import opened Numbers
  import opened Outcome
  import opened Merkle
  import opened PublicationEvidence

  const MAX_CHECKPOINT_POLLS: nat := 30

  type Pid = nat

  /** What one run of `publish` was asked to do. */
  datatype Job = Job(root: string, logId: string, submitUrl: string, trust: LogTrust)

  datatype Phase =
    | Idle                                                   // not running
    | Locked                                                 // lock held, record not yet read
    | Creating(record: PublicationRecord)                    // new record, first save pending
    | Loaded(record: PublicationRecord)                      // about to enter obtain_inclusion
    | Deciding(record: PublicationRecord)                    // head of the submission loop
    | Intending(record: PublicationRecord)                   // attempt recorded, save pending
    | Posting(record: PublicationRecord)                     // intent durable, request not sent
    | Awaiting(record: PublicationRecord)                    // request sent
    | Answered(record: PublicationRecord)                    // index received, save pending
    | Refused(record: PublicationRecord, stop: bool)         // attempt failed, save pending
    | Sleeping(record: PublicationRecord)                    // between attempts
    | Polling(record: PublicationRecord, index: u64, polls: nat)
    | Confirming(record: PublicationRecord, confirmed: PublicationRecord)  // proof checked, save pending
    | Finishing(record: PublicationRecord)                   // last save pending

  datatype Proc = Proc(job: Job, phase: Phase)

  datatype Post = Post(entry: Bytes, attempt: nat)

  datatype State = State(
    disk: Option<PublicationRecord>,
    lock: Option<Pid>,
    procs: map<Pid, Proc>,
    posts: seq<Post>,
    /** The trust under which the stored Confirmed state was verified. */
    seal: Option<LogTrust>)

  /** `Unsynced`: the new file is in place but the save reports an error, because
      syncing the directory failed after the rename. */
  datatype SaveResult = Saved | NotSaved | Unsynced

  /** Why a request failed. */
  datatype Fault = Unavailable | Rejected(code: nat) | Other

  datatype Reply = Index(index: u64) | Fault(fault: Fault)

  /** One look at the log: an error, nothing usable yet, or a checkpoint with a path. */
  datatype Look = LookFault(fault: Fault) | NotYet | Found(note: string, path: seq<string>)

  /** What a running publisher, or its surroundings at that point, can do. */
  datatype Action =
    | Load(readable: bool, nonce: string, now: int)
    | Save(result: SaveResult)
    | Enter
    | Decide(now: int)
    | Send
    | Receive(reply: Reply)
    | Wake
    | Poll(look: Look)
    | Deadline
    | Crash

  datatype Event = Acquire(p: Pid, job: Job) | ClearStaleLock | Act(p: Pid, action: Action)

  function ReasonOf(fault: Fault): UnconfirmedReason {
    match fault
    case Unavailable => RequestFailed
    case Rejected(_) => ServiceRefused
    case Other => InvalidProof
  }

  /** A refusal that is neither a server error nor a rate limit ends the attempts. */
  predicate Final(fault: Fault) {
    fault.Rejected? && !(500 <= fault.code < 600) && fault.code != 429
  }

  function WithReason(record: PublicationRecord, reason: UnconfirmedReason): PublicationRecord {
    record.(outcome := Unconfirmed(reason))
  }

  /** The latest index any attempt returned. */
  function ReturnedIndex(submissions: seq<Submission>): Option<u64> {
    if submissions == [] then None
    else
      var n := |submissions| - 1;
      if submissions[n].returnedIndex.Some? then submissions[n].returnedIndex else ReturnedIndex(submissions[..n])
  }

  function NewRecord(H: Digest, job: Job, nonce: string, now: int): Option<PublicationRecord> {
    var entry := EntryForRoot(H, job.root, nonce);
    if entry.None? then None
    else Some(PublicationRecord(RECORD_FORMAT, job.root, nonce, Hex.Encode(entry.value), job.logId, job.submitUrl, now,
                                [], Unconfirmed(Prepared)))
  }

  /** The outcome with which `publish` makes its last save. */
  function Closed(record: PublicationRecord): PublicationRecord {
    if record.outcome == Unconfirmed(Prepared) && |record.submissions| >= MAX_SUBMISSIONS
       && ReturnedIndex(record.submissions).None?
    then WithReason(record, AttemptLimit)
    else record
  }

  function At(s: State, p: Pid): Phase { if p in s.procs then s.procs[p].phase else Idle }

  function Move(s: State, p: Pid, phase: Phase): State
    requires p in s.procs
  {
    s.(procs := s.procs[p := s.procs[p].(phase := phase)])
  }

  /** The run ends and drops the lock file. */
  function Leave(s: State, p: Pid): State
    requires p in s.procs
  {
    Move(s, p, Idle).(lock := None)
  }

  /** The record whose save is pending, if any. */
  function PendingSave(phase: Phase): Option<PublicationRecord> {
    match phase
    case Creating(r) => Some(r)
    case Intending(r) => Some(r)
    case Answered(r) => Some(r)
    case Refused(r, _) => Some(r)
    case Confirming(_, c) => Some(c)
    case Finishing(r) => Some(r)
    case _ => None
  }

  /** Where a run goes after its pending save succeeded or reported an error. */
  function AfterSave(s: State, p: Pid, ok: bool): State
    requires p in s.procs
  {
    match s.procs[p].phase
    case Creating(r) => if ok then Move(s, p, Loaded(r)) else Leave(s, p)
    case Intending(r) => Move(s, p, if ok then Posting(r) else Finishing(Closed(WithReason(r, InvalidProof))))
    case Answered(r) => Move(s, p, if ok then Deciding(r) else Finishing(Closed(WithReason(r, InvalidProof))))
    case Refused(r, stop) =>
      Move(s, p, if !ok then Finishing(Closed(WithReason(r, InvalidProof)))
                 else if stop then Finishing(Closed(r))
                 else Sleeping(r))
    case Confirming(r, c) => Move(s, p, if ok then Finishing(c) else Finishing(Closed(WithReason(r, InvalidProof))))
    case Finishing(r) => Leave(s, p)
    case _ => s
  }

  function NextSave(s: State, p: Pid, result: SaveResult): State
    requires p in s.procs
  {
    var phase := s.procs[p].phase;
    var pending := PendingSave(phase);
    if pending.None? then s
    else if result.NotSaved? || (phase.Creating? && s.disk.Some?) then AfterSave(s, p, false)
    else
      var written := s.(disk := pending,
                        seal := if phase.Confirming? then Some(s.procs[p].job.trust) else s.seal);
      AfterSave(written, p, result.Saved?)
  }

  function NextLoad(H: Digest, s: State, p: Pid, readable: bool, nonce: string, now: int): State
    requires p in s.procs
  {
    var job := s.procs[p].job;
    if s.procs[p].phase != Locked then s
    else if !readable then Leave(s, p)
    else if s.disk.None? then
      var created := NewRecord(H, job, nonce, now);
      if created.None? then Leave(s, p) else Move(s, p, Creating(created.value))
    else
      var r := s.disk.value;
      if EntryBytes(H, r, job.root).None? then Leave(s, p)
      else if !(r.logId == job.logId && r.submitUrl == job.submitUrl) then Leave(s, p)
      else if r.outcome.Confirmed? then Leave(s, p)
      else Move(s, p, Loaded(r))
  }

  /** The head of the submission loop: another attempt, polling, or giving up. */
  function NextDecide(s: State, p: Pid, now: int): State
    requires p in s.procs
  {
    var phase := s.procs[p].phase;
    if !phase.Deciding? then s
    else
      var r := phase.record;
      var index := ReturnedIndex(r.submissions);
      if index.Some? then Move(s, p, Polling(r, index.value, 0))
      else if |r.submissions| < MAX_SUBMISSIONS then
        Move(s, p, Intending(r.(submissions := r.submissions + [Submission(now, None)])))
      else Move(s, p, Finishing(Closed(r)))
  }

  function NextSend(H: Digest, s: State, p: Pid): State
    requires p in s.procs
  {
    var phase := s.procs[p].phase;
    if !phase.Posting? then s
    else
      var entry := EntryBytes(H, phase.record, phase.record.causalRoot);
      if entry.None? then s
      else Move(s.(posts := s.posts + [Post(entry.value, |phase.record.submissions|)]), p, Awaiting(phase.record))
  }

  /** A reply, or a failure before anything was sent. */
  function NextReceive(s: State, p: Pid, reply: Reply): State
    requires p in s.procs
  {
    var phase := s.procs[p].phase;
    if !(phase.Awaiting? || (phase.Posting? && reply.Fault?)) then s
    else
      var r := phase.record;
      match reply
      case Index(i) =>
        if r.submissions == [] then s
        else
          var n := |r.submissions| - 1;
          var known := r.(submissions := r.submissions[n := r.submissions[n].(returnedIndex := Some(i))]);
          Move(s, p, Answered(WithReason(known, AwaitingInclusion)))
      case Fault(f) => Move(s, p, Refused(WithReason(r, ReasonOf(f)), Final(f)))
  }

  function NextPoll(H: Digest, s: State, p: Pid, look: Look): State
    requires p in s.procs
  {
    var phase := s.procs[p].phase;
    if !phase.Polling? then s
    else
      var r := phase.record;
      if phase.polls >= MAX_CHECKPOINT_POLLS then Move(s, p, Finishing(Closed(r)))
      else
        match look
        case LookFault(f) => Move(s, p, Finishing(Closed(WithReason(r, ReasonOf(f)))))
        case NotYet => Move(s, p, Polling(r, phase.index, phase.polls + 1))
        case Found(note, path) =>
          var confirmed := r.(outcome := Confirmed(phase.index, note, path));
          if VerifyRecord(H, confirmed, r.causalRoot, s.procs[p].job.trust).Some?
          then Move(s, p, Confirming(r, confirmed))
          else Move(s, p, Finishing(Closed(WithReason(r, InvalidProof))))
  }

  /** The deadline fires only where the program waits. */
  function NextDeadline(s: State, p: Pid): State
    requires p in s.procs
  {
    match s.procs[p].phase
    case Posting(r) => Move(s, p, Finishing(WithReason(r, UnconfirmedReason.Deadline)))
    case Awaiting(r) => Move(s, p, Finishing(WithReason(r, UnconfirmedReason.Deadline)))
    case Sleeping(r) => Move(s, p, Finishing(WithReason(r, UnconfirmedReason.Deadline)))
    case Polling(r, _, _) => Move(s, p, Finishing(WithReason(r, UnconfirmedReason.Deadline)))
    case _ => s
  }

  function NextEnter(H: Digest, s: State, p: Pid): State
    requires p in s.procs
  {
    var phase := s.procs[p].phase;
    if !phase.Loaded? then s
    else if EntryBytes(H, phase.record, phase.record.causalRoot).None?
    then Move(s, p, Finishing(Closed(WithReason(phase.record, InvalidProof))))
    else Move(s, p, Deciding(phase.record))
  }

  function NextWake(s: State, p: Pid): State
    requires p in s.procs
  {
    if s.procs[p].phase.Sleeping? then Move(s, p, Deciding(s.procs[p].phase.record)) else s
  }

  function NextAction(H: Digest, s: State, p: Pid, action: Action): State
    requires p in s.procs
  {
    match action
    case Load(readable, nonce, now) => NextLoad(H, s, p, readable, nonce, now)
    case Save(result) => NextSave(s, p, result)
    case Enter => NextEnter(H, s, p)
    case Decide(now) => NextDecide(s, p, now)
    case Send => NextSend(H, s, p)
    case Receive(reply) => NextReceive(s, p, reply)
    case Wake => NextWake(s, p)
    case Poll(look) => NextPoll(H, s, p, look)
    case Deadline => NextDeadline(s, p)
    case Crash => Move(s, p, Idle)
  }

  /** One event; an event that cannot happen in this state changes nothing. */
  function Next(H: Digest, s: State, e: Event): State {
    match e
    case Acquire(p, job) =>
      if s.lock.None? && At(s, p) == Idle then s.(lock := Some(p), procs := s.procs[p := Proc(job, Locked)]) else s
    case ClearStaleLock =>
      if s.lock.Some? && At(s, s.lock.value) == Idle then s.(lock := None) else s
    case Act(p, action) =>
      if At(s, p) == Idle then s else NextAction(H, s, p, action)
  }

  function Run(H: Digest, s: State, events: seq<Event>): State
    decreases |events|
  {
    if events == [] then s else Run(H, Next(H, s, events[0]), events[1..])
  }

  const INITIAL: State := State(None, None, map[], [], None)
}
