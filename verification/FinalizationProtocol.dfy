/** One project-backed capture from its first frame to its settled outcome, as a step system:
    the recorder (runtime/canx/recorder/project_recorder.py), its data-session writer
    (runtime/canx/data/session.py), the session row (runtime/canx/data/repository.py) and the
    runtime that owns them (runtime/canx/runtime/service.py).

    Threads: the event loop (which blocks while it closes the finalization gate), the append
    thread, the finalization worker, and the settle thread the gate spawns. One step is one
    database transaction, one lock operation, or thread-local work nobody else can observe.
    Storage faults and deadlines may strike at any step that can meet them. */
module FinalizationProtocol {
  import opened Wrappers
  import opened DataModel

  /** TERMINAL_GRACE_SECONDS, in milliseconds. */
  const TERMINAL_GRACE := 250

  datatype RecorderState = Recording | Stopped | RecorderFailed
  datatype FinalizationOutcome = OutcomeCompleted | OutcomeFailed | OutcomePending
  datatype GateReport = NotReported | ReportedCompleted | ReportedFailed | ReportedPending
  datatype Deadline = Unarmed | At(time: nat)
  datatype RowRead = NotRead | Saw(state: SessionState)
  datatype CaptureState = Running | Degraded | Finalizing | CaptureFailed | Idle

  datatype Holder = Free | ByAppender | ByWorker | ByOwner

  /** The append thread: waiting for the writer lock, cutting full segments, or finished. */
  datatype AppendPc =
    | AppendIdle
    | AppendWantsLock(frames: nat)
    | AppendCuts
    | AppendRegisters
    | AppendMarksFailed
    | AppendRaised

  /** The finalization worker: _finish_serially, then _decide_terminally. */
  datatype WorkerPc =
    | NotSpawned
    | TestsFailure
    | FlushWantsLock
    | Flushes
    | FlushRegisters
    | FlushMarksFailed
    | FlushDiagnoses
    | WantsTerminalLock
    | ChecksGate
    | CommitWantsLock
    | Commits
    | CommitMarksFailed
    | CommitDiagnoses
    | SetsCompleted
    | ReleasesStopped
    | Refuses
    | FailWantsLock
    | FailsWriter
    | FailMarksRow
    | ClearsInFlight
    | SetsSettled
    | WorkerDone

  /** The event loop, as far as this capture's cleanup is concerned. */
  datatype OwnerPc =
    | Capturing
    | Draining
    | CleanupReady
    | AwaitsStop
    | WantsGate
    | HoldsGate
    | JoinsSettleThread
    | CleanupDone

  datatype SettleThreadPc = SettleNotSpawned | SettleFailsRow | SettleReadsRow | SettleExited

  /** The durable row, and the writer's in-memory view of the same session. */
  datatype Session = Session(
    row: SessionState,
    rowFrames: nat,
    mem: SessionState,
    memFrames: nat,
    buffered: nat,
    accepted: nat,
    lock: Holder)

  datatype Recorder = Recorder(
    state: RecorderState,
    failure: bool,
    deadline: Deadline,
    completed: bool,
    started: bool,
    inFlight: bool,
    settled: bool,
    terminalLock: Holder)

  datatype Runtime = Runtime(
    owner: OwnerPc,
    appendAwaited: bool,
    stopRequested: bool,
    hasSession: bool,
    gateReport: GateReport,
    settlementTask: bool,
    failure: bool,
    capture: CaptureState)

  datatype State = State(
    now: nat,
    maxFrames: nat,
    data: Session,
    rec: Recorder,
    rt: Runtime,
    appender: AppendPc,
    worker: WorkerPc,
    settleThread: SettleThreadPc,
    settleRead: RowRead)

  /** The state right after start_capture succeeded. */
  function Started(now: nat, maxFrames: nat): State {
    State(
      now, maxFrames,
      Session(Active, 0, Active, 0, 0, 0, Free),
      Recorder(Recording, false, Unarmed, false, false, false, true, Free),
      Runtime(Capturing, false, false, true, NotReported, false, false, Running),
      AppendIdle, NotSpawned, SettleNotSpawned, NotRead)
  }

  datatype Step =
    | Tick(elapsed: nat)
    | Recover                        // recover_incomplete_sessions on the row
    | StartAppend(frames: nat)       // the archive consumer hands over a batch
    | AppendReturns                  // ... and its await resumes
    | CaptureFails                   // _handle_recorder_failure, from any source outside cleanup
    | RequestStop
    | DrainEnds
    | BeginCleanup(budget: nat)      // arm_stop_deadline, then stop() spawns the worker
    | StopReturns
    | StopTimesOut
    | GateGivesUp                    // the terminal lock stayed taken for the whole grace
    | Gate                           // the event loop's next step inside close_finalization_gate
    | FinishStop
    | Settlement                     // the settlement task resumes after the worker settled
    | AbandonSettlement              // aclose cancels the settlement task
    | Appender(fault: bool)
    | Worker(fault: bool)
    | SettleThread(fault: bool)

  /** finalization_outcome. */
  function FinalizationResult(r: Recorder): FinalizationOutcome {
    if r.inFlight || !r.started then OutcomePending
    else if r.completed then OutcomeCompleted
    else OutcomeFailed
  }

  /** _finalization_outstanding: what refuses a new capture. */
  predicate Outstanding(s: State) {
    s.rt.settlementTask || (s.rec.inFlight && !s.rec.settled)
  }

  /** The guard of start_capture. */
  predicate MayStartCapture(s: State) {
    !s.rt.hasSession && !Outstanding(s)
  }

  /** The deadline face of the gate is shut for good. */
  predicate GateClosed(r: Recorder) {
    r.deadline.At? && r.deadline.time == 0
  }

  predicate GateOpen(r: Recorder, now: nat) {
    !r.failure && (r.deadline.Unarmed? || now + TERMINAL_GRACE <= r.deadline.time)
  }

  /** UPDATE ... WHERE state = ACTIVE, unless the storage faults. */
  function Advance(d: Session, to: SessionState, fault: bool): Session {
    if d.row.Active? && !fault then d.(row := to) else d
  }

  /** The registration transaction rewrites the whole row from the writer's session, state
      included, whatever state the row had meanwhile. */
  function Register(d: Session, frames: nat): Session
    requires frames <= d.buffered
  {
    var total := d.memFrames + frames;
    d.(row := d.mem, rowFrames := total, memFrames := total, buffered := d.buffered - frames)
  }

  function Locked(d: Session, holder: Holder): Session {
    d.(lock := holder)
  }

  function Fail(r: Recorder): Recorder {
    r.(failure := true, state := RecorderFailed)
  }

  function AppenderNext(s: State, fault: bool): Option<State> {
    match s.appender
    case AppendIdle => None
    case AppendWantsLock(n) =>
      if !s.data.lock.Free? then None
      else if !s.data.mem.Active? then Some(s.(appender := AppendRaised))
      else
        var filled := s.data.(buffered := s.data.buffered + n, accepted := s.data.accepted + n, lock := ByAppender);
        Some(s.(data := filled, appender := AppendCuts))
    case AppendCuts =>
      if s.data.buffered < s.maxFrames then Some(s.(data := Locked(s.data, Free), appender := AppendIdle))
      else if fault then Some(s.(data := s.data.(mem := Failed), appender := AppendMarksFailed))
      else Some(s.(appender := AppendRegisters))
    case AppendRegisters =>
      if fault then Some(s.(data := s.data.(mem := Failed), appender := AppendMarksFailed))
      else if s.maxFrames <= s.data.buffered then
        Some(s.(data := Register(s.data, s.maxFrames), appender := AppendCuts))
      else None
    case AppendMarksFailed =>
      Some(s.(data := Locked(Advance(s.data, Failed, fault), Free), appender := AppendRaised))
    case AppendRaised => None
  }

  /** _finish_serially up to its `finally`: flush the tail unless a failure is already recorded. */
  function FlushNext(s: State, fault: bool): Option<State> {
    match s.worker
    case TestsFailure =>
      if s.rec.failure then Some(s.(worker := WantsTerminalLock)) else Some(s.(worker := FlushWantsLock))
    case FlushWantsLock =>
      if !s.data.lock.Free? then None else Some(s.(data := Locked(s.data, ByWorker), worker := Flushes))
    case Flushes =>
      if !s.data.mem.Active? then Some(s.(data := Locked(s.data, Free), worker := FlushDiagnoses))
      else if s.data.buffered == 0 then Some(s.(data := Locked(s.data, Free), worker := WantsTerminalLock))
      else if fault then Some(s.(data := s.data.(mem := Failed), worker := FlushMarksFailed))
      else Some(s.(worker := FlushRegisters))
    case FlushRegisters =>
      if fault then Some(s.(data := s.data.(mem := Failed), worker := FlushMarksFailed))
      else Some(s.(data := Locked(Register(s.data, s.data.buffered), Free), worker := WantsTerminalLock))
    case FlushMarksFailed =>
      Some(s.(data := Locked(Advance(s.data, Failed, fault), Free), worker := FlushDiagnoses))
    case FlushDiagnoses => Some(s.(rec := Fail(s.rec), worker := WantsTerminalLock))
    case _ => None
  }

  /** _decide_terminally: the gate check and the decisive write under the terminal lock. */
  function DecideNext(s: State, fault: bool): Option<State> {
    match s.worker
    case WantsTerminalLock =>
      if !s.rec.terminalLock.Free? then None
      else Some(s.(rec := s.rec.(terminalLock := ByWorker), worker := ChecksGate))
    case ChecksGate =>
      if GateOpen(s.rec, s.now) then Some(s.(worker := CommitWantsLock)) else Some(s.(worker := Refuses))
    case CommitWantsLock =>
      if !s.data.lock.Free? then None else Some(s.(data := Locked(s.data, ByWorker), worker := Commits))
    case Commits =>
      if !s.data.mem.Active? then Some(s.(data := Locked(s.data, Free), worker := CommitDiagnoses))
      else if fault || !s.data.row.Active? then
        Some(s.(data := s.data.(mem := Failed), worker := CommitMarksFailed))
      else
        Some(s.(data := s.data.(row := Completed, mem := Completed, lock := Free), worker := SetsCompleted))
    case CommitMarksFailed =>
      Some(s.(data := Locked(Advance(s.data, Failed, fault), Free), worker := CommitDiagnoses))
    case CommitDiagnoses => Some(s.(rec := Fail(s.rec), worker := Refuses))
    case _ => None
  }

  /** The rest of _decide_terminally: settle as STOPPED, or fail the writer, then report. */
  function ConcludeNext(s: State, fault: bool): Option<State> {
    match s.worker
    case SetsCompleted => Some(s.(rec := s.rec.(completed := true), worker := ReleasesStopped))
    case ReleasesStopped =>
      Some(s.(rec := s.rec.(state := Stopped, terminalLock := Free), worker := ClearsInFlight))
    case Refuses => Some(s.(rec := Fail(s.rec), worker := FailWantsLock))
    case FailWantsLock =>
      if !s.data.lock.Free? then None else Some(s.(data := Locked(s.data, ByWorker), worker := FailsWriter))
    case FailsWriter =>
      if !s.data.mem.Active? then
        Some(s.(data := Locked(s.data, Free), rec := s.rec.(terminalLock := Free), worker := ClearsInFlight))
      else
        Some(s.(data := s.data.(mem := Failed, buffered := 0), worker := FailMarksRow))
    case FailMarksRow =>
      Some(s.(data := Locked(Advance(s.data, Failed, fault), Free),
              rec := s.rec.(terminalLock := Free),
              worker := ClearsInFlight))
    case ClearsInFlight => Some(s.(rec := s.rec.(inFlight := false), worker := SetsSettled))
    case SetsSettled => Some(s.(rec := s.rec.(settled := true), worker := WorkerDone))
    case _ => None
  }

  function WorkerNext(s: State, fault: bool): Option<State> {
    if FlushNext(s, fault).Some? then FlushNext(s, fault)
    else if DecideNext(s, fault).Some? then DecideNext(s, fault)
    else ConcludeNext(s, fault)
  }

  /** close_finalization_gate, entered when the cleanup deadline fired. */
  function GateNext(s: State): Option<State> {
    match s.rt.owner
    case WantsGate =>
      if !s.rec.terminalLock.Free? then None
      else Some(s.(rec := s.rec.(terminalLock := ByOwner), rt := s.rt.(owner := HoldsGate)))
    case HoldsGate =>
      if s.rec.completed then
        Some(s.(rec := s.rec.(terminalLock := Free),
                rt := s.rt.(gateReport := ReportedCompleted, owner := CleanupDone)))
      else
        Some(s.(rec := s.rec.(deadline := At(0), terminalLock := Free),
                rt := s.rt.(owner := JoinsSettleThread),
                settleThread := SettleFailsRow))
    case JoinsSettleThread =>
      // the join is bounded: the settle thread may not have exited yet
      if s.settleRead.Saw? && s.settleRead.state.Completed? then
        Some(s.(rt := s.rt.(gateReport := ReportedCompleted, owner := CleanupDone)))
      else
        Some(s.(rec := Fail(s.rec),
                rt := s.rt.(gateReport := ReportedFailed, owner := CleanupDone, failure := true,
                            capture := if s.rt.failure then s.rt.capture else Degraded)))
    case _ => None
  }

  function SettleThreadNext(s: State, fault: bool): Option<State> {
    match s.settleThread
    case SettleFailsRow =>
      Some(s.(data := Advance(s.data, Failed, fault), settleThread := if fault then SettleExited else SettleReadsRow))
    case SettleReadsRow =>
      Some(s.(settleRead := if fault then NotRead else Saw(s.data.row), settleThread := SettleExited))
    case _ => None
  }

  /** What the event loop does while frames are captured and drained. */
  function CaptureNext(s: State, step: Step): Option<State> {
    var consuming := s.rt.owner.Capturing? || s.rt.owner.Draining?;
    match step
    case StartAppend(n) =>
      if consuming && s.rec.state.Recording? && !s.rt.failure && !s.rt.appendAwaited && s.appender.AppendIdle? then
        Some(s.(rt := s.rt.(appendAwaited := true), appender := AppendWantsLock(n)))
      else None
    case AppendReturns =>
      if s.rt.appendAwaited && s.appender.AppendIdle? then Some(s.(rt := s.rt.(appendAwaited := false))) else None
    case CaptureFails =>
      // a raised append surfaces here; a running one is cancelled, its thread is not
      if consuming && !s.rt.failure then
        Some(s.(rec := Fail(s.rec),
                rt := s.rt.(failure := true, capture := Degraded, appendAwaited := false, owner := CleanupReady)))
      else None
    case RequestStop =>
      if s.rt.hasSession && !s.rt.stopRequested then
        Some(s.(rt := s.rt.(stopRequested := true,
                            capture := if s.rt.failure then s.rt.capture else Finalizing,
                            owner := if s.rt.owner.Capturing? then Draining else s.rt.owner)))
      else None
    case DrainEnds =>
      if s.rt.owner.Draining? && !s.rt.appendAwaited then Some(s.(rt := s.rt.(owner := CleanupReady))) else None
    case _ => None
  }

  /** What the event loop does from the cleanup on: _cleanup_recorder, the end of _stop_capture,
      and the settlement task. */
  function CleanupNext(s: State, step: Step): Option<State> {
    match step
    case BeginCleanup(budget) =>
      if s.rt.owner.CleanupReady? && budget > 0 then
        Some(s.(rec := s.rec.(deadline := At(s.now + budget), started := true, inFlight := true, settled := false),
                rt := s.rt.(owner := AwaitsStop),
                worker := TestsFailure))
      else None
    case StopReturns =>
      if s.rt.owner.AwaitsStop? && s.worker.WorkerDone? then Some(s.(rt := s.rt.(owner := CleanupDone))) else None
    case StopTimesOut =>
      if s.rt.owner.AwaitsStop? then Some(s.(rt := s.rt.(owner := WantsGate))) else None
    case GateGivesUp =>
      if s.rt.owner.WantsGate? && !s.rec.terminalLock.Free? then
        Some(s.(rt := s.rt.(gateReport := ReportedPending, owner := CleanupDone, capture := Finalizing, settlementTask := true)))
      else None
    case FinishStop =>
      if s.rt.stopRequested && s.rt.owner.CleanupDone? && s.rt.hasSession then
        var shown := if s.rt.failure then CaptureFailed else if Outstanding(s) then Finalizing else Idle;
        Some(s.(rt := s.rt.(hasSession := false, capture := shown)))
      else None
    case Settlement =>
      if s.rt.settlementTask && s.rec.settled then
        if FinalizationResult(s.rec).OutcomeCompleted? then
          Some(s.(rt := s.rt.(settlementTask := false, capture := if s.rt.failure then s.rt.capture else Idle)))
        else
          Some(s.(rec := if s.rt.failure then s.rec else Fail(s.rec),
                  rt := s.rt.(settlementTask := false, failure := true, capture := CaptureFailed)))
      else None
    case AbandonSettlement =>
      if s.rt.settlementTask then Some(s.(rt := s.rt.(settlementTask := false))) else None
    case _ => None
  }

  /** The state after a step, or None when the step is not possible. */
  function Next(s: State, step: Step): Option<State> {
    match step
    case Tick(elapsed) => Some(s.(now := s.now + elapsed))
    case Recover => Some(s.(data := Advance(s.data, Interrupted, false)))
    case Appender(fault) => AppenderNext(s, fault)
    case Worker(fault) => WorkerNext(s, fault)
    case SettleThread(fault) => SettleThreadNext(s, fault)
    case Gate => GateNext(s)
    case _ => if CaptureNext(s, step).Some? then CaptureNext(s, step) else CleanupNext(s, step)
  }

  /** A run: consecutive states joined by possible steps, from a started capture. */
  ghost predicate Run(states: seq<State>, steps: seq<Step>) {
    && |states| == |steps| + 1
    && states[0].maxFrames >= 1
    && states[0] == Started(states[0].now, states[0].maxFrames)
    && forall i :: 0 <= i < |steps| ==> Next(states[i], steps[i]) == Some(states[i + 1])
  }
}
