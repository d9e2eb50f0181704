/** What every run of the finalization protocol keeps (module FinalizationProtocol): the outcome
    the gate or the runtime reports never contradicts the durable row, then or later. */
module FinalizationSafety {
  import opened Wrappers
  import opened DataModel
  import opened FinalizationProtocol

  // ----- the invariant ------------------------------------------------------

  predicate InTerminalSection(w: WorkerPc) {
    w.ChecksGate? || w.CommitWantsLock? || w.Commits? || w.CommitMarksFailed? || w.CommitDiagnoses?
    || w.SetsCompleted? || w.ReleasesStopped?
    || w.Refuses? || w.FailWantsLock? || w.FailsWriter? || w.FailMarksRow?
  }

  predicate TerminalLockMatches(lock: Holder, w: WorkerPc, o: OwnerPc) {
    && (lock.ByWorker? <==> InTerminalSection(w))
    && (lock.ByOwner? <==> o.HoldsGate?)
    && !lock.ByAppender?
  }

  predicate WorkerHoldsWriter(w: WorkerPc) {
    w.Flushes? || w.FlushRegisters? || w.FlushMarksFailed? || w.Commits? || w.CommitMarksFailed?
    || w.FailsWriter? || w.FailMarksRow?
  }

  predicate WriterLockMatches(lock: Holder, w: WorkerPc, a: AppendPc) {
    && (lock.ByWorker? <==> WorkerHoldsWriter(w))
    && (lock.ByAppender? <==> (a.AppendCuts? || a.AppendRegisters? || a.AppendMarksFailed?))
    && !lock.ByOwner?
  }

  predicate Concluded(w: WorkerPc) {
    w.ClearsInFlight? || w.SetsSettled? || w.WorkerDone?
  }

  /** Which phase of the worker its flags describe. */
  predicate FlagsMatch(w: WorkerPc, started: bool, inFlight: bool, settled: bool, deadline: Deadline) {
    && (started <==> !w.NotSpawned?)
    && (deadline.Unarmed? <==> w.NotSpawned?)
    && (inFlight <==> !(w.NotSpawned? || w.SetsSettled? || w.WorkerDone?))
    && (settled <==> (w.NotSpawned? || w.WorkerDone?))
  }

  /** Which phase of the cleanup the event loop is in. */
  predicate OwnerMatches(o: OwnerPc, w: WorkerPc, report: GateReport, task: bool, awaited: bool, session: bool) {
    && (w.NotSpawned? <==> (o.Capturing? || o.Draining? || o.CleanupReady?))
    && (!report.NotReported? ==> o.CleanupDone?)
    && (o.CleanupDone? && report.NotReported? ==> w.WorkerDone?)
    && (task ==> report.ReportedPending?)
    && (!session ==> o.CleanupDone?)
    && (awaited ==> o.Capturing? || o.Draining?)
  }

  /** The settle thread and a FAILED report exist only behind a closed gate. */
  predicate GateMatches(closed: bool, o: OwnerPc, thread: SettleThreadPc, read: RowRead, report: GateReport) {
    && (!thread.SettleNotSpawned? || o.JoinsSettleThread? || report.ReportedFailed? ==> closed)
    && !(read.Saw? && read.state.Completed?)
  }

  /** COMPLETED is one fact: the row, the writer in memory and, from the next step on, the flag. */
  predicate CompletionMatches(row: SessionState, writer: SessionState, completed: bool, w: WorkerPc) {
    && (row.Completed? <==> writer.Completed?)
    && !writer.Interrupted?
    && (completed ==> writer.Completed?)
    && (writer.Completed? ==> w.SetsCompleted? || w.ReleasesStopped? || Concluded(w))
    && (w.SetsCompleted? || w.ReleasesStopped? ==> writer.Completed?)
    && (writer.Completed? && !w.SetsCompleted? ==> completed)
    && (w.FlushRegisters? ==> writer.Active?)
  }

  /** The worker is past its gate check on the way to COMPLETED, or arrived there. */
  predicate Completing(w: WorkerPc, writer: SessionState) {
    w.CommitWantsLock? || w.Commits? || w.SetsCompleted? || w.ReleasesStopped? || writer.Completed?
  }

  /** A recorded failure and a closed gate each exclude completion, and a worker that ends
      without completing leaves a recorded failure. */
  predicate RefusalHolds(w: WorkerPc, writer: SessionState, failure: bool, closed: bool, completed: bool) {
    && (failure || closed ==> !Completing(w, writer))
    && (w.FailWantsLock? || w.FailsWriter? || w.FailMarksRow? ==> failure)
    && (Concluded(w) ==> (failure <==> !completed))
  }

  /** What the runtime shows. */
  predicate RuntimeMatches(
    runtimeFailure: bool, failure: bool, capture: CaptureState, report: GateReport, completed: bool, w: WorkerPc, task: bool)
  {
    && (runtimeFailure ==> failure)
    && (report.ReportedFailed? ==> runtimeFailure)
    && (report.ReportedCompleted? ==> completed)
    && (capture.CaptureFailed? ==> runtimeFailure)
    && (capture.Idle? ==> (w.SetsSettled? || w.WorkerDone?) && !task && !runtimeFailure)
  }

  /** Frames: all accepted ones are committed or buffered while the writer lives, ... */
  predicate FramesMatch(
    writer: SessionState, rowFrames: nat, writerFrames: nat, buffered: nat, accepted: nat, a: AppendPc, maxFrames: nat)
  {
    && maxFrames >= 1
    && rowFrames == writerFrames
    && (writer.Active? ==> accepted == writerFrames + buffered)
    && (writer.Completed? ==> accepted == rowFrames)
    && (a.AppendCuts? || a.AppendRegisters? ==> writer.Active?)
    && (a.AppendRegisters? ==> maxFrames <= buffered)
  }

  /** ... and the worker reaches its decision with nothing left to flush. */
  predicate NothingLeft(w: WorkerPc, writer: SessionState, failure: bool, buffered: nat) {
    (w.WantsTerminalLock? || w.ChecksGate? || w.CommitWantsLock? || w.Commits?) && !failure && writer.Active? ==>
      buffered == 0
  }

  predicate AppendIsWatched(a: AppendPc, awaited: bool, failure: bool) {
    !a.AppendIdle? ==> awaited || failure
  }

  predicate DataInv(d: Session, w: WorkerPc, a: AppendPc, maxFrames: nat) {
    && WriterLockMatches(d.lock, w, a)
    && FramesMatch(d.mem, d.rowFrames, d.memFrames, d.buffered, d.accepted, a, maxFrames)
  }

  predicate RecorderInv(r: Recorder, w: WorkerPc, o: OwnerPc) {
    && TerminalLockMatches(r.terminalLock, w, o)
    && FlagsMatch(w, r.started, r.inFlight, r.settled, r.deadline)
  }

  predicate RuntimeInv(rt: Runtime, failure: bool, completed: bool, w: WorkerPc) {
    && OwnerMatches(rt.owner, w, rt.gateReport, rt.settlementTask, rt.appendAwaited, rt.hasSession)
    && RuntimeMatches(rt.failure, failure, rt.capture, rt.gateReport, completed, w, rt.settlementTask)
  }

  predicate Inv(s: State) {
    && DataInv(s.data, s.worker, s.appender, s.maxFrames)
    && RecorderInv(s.rec, s.worker, s.rt.owner)
    && RuntimeInv(s.rt, s.rec.failure, s.rec.completed, s.worker)
    && GateMatches(GateClosed(s.rec), s.rt.owner, s.settleThread, s.settleRead, s.rt.gateReport)
    && CompletionMatches(s.data.row, s.data.mem, s.rec.completed, s.worker)
    && RefusalHolds(s.worker, s.data.mem, s.rec.failure, GateClosed(s.rec), s.rec.completed)
    && NothingLeft(s.worker, s.data.mem, s.rec.failure, s.data.buffered)
    && AppendIsWatched(s.appender, s.rt.appendAwaited, s.rec.failure)
  }

  lemma InitialInv(now: nat, maxFrames: nat)
    requires maxFrames >= 1
    ensures Inv(Started(now, maxFrames))
  {
    assert !GateClosed(Started(now, maxFrames).rec);
  }

  lemma AppendFillsKeepsInv(s: State, fault: bool, t: State)
    requires Inv(s) && (s.appender.AppendWantsLock? || s.appender.AppendMarksFailed?) && AppenderNext(s, fault) == Some(t)
    ensures Inv(t)
  {
  }

  lemma AppenderKeepsInv(s: State, fault: bool, t: State)
    requires Inv(s) && (s.appender.AppendCuts? || s.appender.AppendRegisters?) && AppenderNext(s, fault) == Some(t)
    ensures Inv(t)
  {
  }

  lemma TailCheckKeepsInv(s: State, fault: bool, t: State)
    requires Inv(s) && s.worker.Flushes? && FlushNext(s, fault) == Some(t)
    ensures Inv(t)
  {
  }

  lemma TailWriteKeepsInv(s: State, fault: bool, t: State)
    requires Inv(s) && s.worker.FlushRegisters? && FlushNext(s, fault) == Some(t)
    ensures Inv(t)
  {
  }

  lemma TailDiagnosisKeepsInv(s: State, fault: bool, t: State)
    requires Inv(s) && (s.worker.TestsFailure? || s.worker.FlushDiagnoses?) && FlushNext(s, fault) == Some(t)
    ensures Inv(t)
  {
    assert GateClosed(t.rec) == GateClosed(s.rec);
  }

  lemma FlushKeepsInv(s: State, fault: bool, t: State)
    requires Inv(s) && (s.worker.FlushWantsLock? || s.worker.FlushMarksFailed?) && FlushNext(s, fault) == Some(t)
    ensures Inv(t)
  {
  }

  /** An open gate is not a closed one: completion may begin. */
  lemma OpenGateKeepsInv(s: State)
    requires Inv(s) && s.worker.ChecksGate? && GateOpen(s.rec, s.now)
    ensures Inv(s.(worker := CommitWantsLock))
  {
  }

  lemma RefusingGateKeepsInv(s: State)
    requires Inv(s) && s.worker.ChecksGate?
    ensures Inv(s.(worker := Refuses))
  {
  }

  lemma TerminalLockKeepsInv(s: State)
    requires Inv(s) && s.worker.WantsTerminalLock? && s.rec.terminalLock.Free?
    ensures Inv(s.(rec := s.rec.(terminalLock := ByWorker), worker := ChecksGate))
  {
    assert GateClosed(s.rec.(terminalLock := ByWorker)) == GateClosed(s.rec);
  }

  lemma DecisiveWriteKeepsInv(s: State, fault: bool, t: State)
    requires Inv(s) && s.worker.Commits? && DecideNext(s, fault) == Some(t)
    ensures Inv(t)
  {
  }

  lemma DecideKeepsInv(s: State, fault: bool, t: State)
    requires Inv(s) && (s.worker.CommitWantsLock? || s.worker.CommitMarksFailed? || s.worker.CommitDiagnoses?) && DecideNext(s, fault) == Some(t)
    ensures Inv(t)
  {
  }

  lemma WriterFailKeepsInv(s: State, fault: bool, t: State)
    requires Inv(s) && (s.worker.FailsWriter? || s.worker.FailMarksRow?) && ConcludeNext(s, fault) == Some(t)
    ensures Inv(t)
  {
  }

  lemma CompletedConclusionKeepsInv(s: State, fault: bool, t: State)
    requires Inv(s) && (s.worker.SetsCompleted? || s.worker.ReleasesStopped?) && ConcludeNext(s, fault) == Some(t)
    ensures Inv(t)
  {
    assert GateClosed(t.rec) == GateClosed(s.rec);
  }

  lemma RefusalKeepsInv(s: State, fault: bool, t: State)
    requires Inv(s) && (s.worker.Refuses? || s.worker.FailWantsLock?) && ConcludeNext(s, fault) == Some(t)
    ensures Inv(t)
  {
    assert GateClosed(t.rec) == GateClosed(s.rec);
  }

  lemma SettlingKeepsInv(s: State, fault: bool, t: State)
    requires Inv(s) && (s.worker.ClearsInFlight? || s.worker.SetsSettled?) && ConcludeNext(s, fault) == Some(t)
    ensures Inv(t)
  {
    assert GateClosed(t.rec) == GateClosed(s.rec);
  }

  lemma ConcludeKeepsInv(s: State, fault: bool, t: State)
    requires Inv(s) && ConcludeNext(s, fault) == Some(t)
    ensures Inv(t)
  {
    match s.worker
    case SetsCompleted => CompletedConclusionKeepsInv(s, fault, t);
    case ReleasesStopped => CompletedConclusionKeepsInv(s, fault, t);
    case Refuses => RefusalKeepsInv(s, fault, t);
    case FailWantsLock => RefusalKeepsInv(s, fault, t);
    case FailsWriter => WriterFailKeepsInv(s, fault, t);
    case FailMarksRow => WriterFailKeepsInv(s, fault, t);
    case _ => SettlingKeepsInv(s, fault, t);
  }

  lemma DecidingKeepsInv(s: State, fault: bool, t: State)
    requires Inv(s) && DecideNext(s, fault) == Some(t)
    ensures Inv(t)
  {
    match s.worker
    case WantsTerminalLock => TerminalLockKeepsInv(s);
    case ChecksGate => if GateOpen(s.rec, s.now) { OpenGateKeepsInv(s); } else { RefusingGateKeepsInv(s); }
    case Commits => DecisiveWriteKeepsInv(s, fault, t);
    case _ => DecideKeepsInv(s, fault, t);
  }

  lemma FlushingKeepsInv(s: State, fault: bool, t: State)
    requires Inv(s) && FlushNext(s, fault) == Some(t)
    ensures Inv(t)
  {
    match s.worker
    case Flushes => TailCheckKeepsInv(s, fault, t);
    case FlushRegisters => TailWriteKeepsInv(s, fault, t);
    case TestsFailure => TailDiagnosisKeepsInv(s, fault, t);
    case FlushDiagnoses => TailDiagnosisKeepsInv(s, fault, t);
    case _ => FlushKeepsInv(s, fault, t);
  }

  lemma WorkerKeepsInv(s: State, fault: bool, t: State)
    requires Inv(s) && WorkerNext(s, fault) == Some(t)
    ensures Inv(t)
  {
    if FlushNext(s, fault).Some? {
      FlushingKeepsInv(s, fault, t);
    } else if DecideNext(s, fault).Some? {
      DecidingKeepsInv(s, fault, t);
    } else {
      ConcludeKeepsInv(s, fault, t);
    }
  }

  lemma GateHeldKeepsInv(s: State, t: State)
    requires Inv(s) && s.rt.owner.HoldsGate? && GateNext(s) == Some(t)
    ensures Inv(t)
  {
  }

  lemma GateReportKeepsInv(s: State, t: State)
    requires Inv(s) && s.rt.owner.JoinsSettleThread? && GateNext(s) == Some(t)
    ensures Inv(t)
  {
    assert GateClosed(t.rec) == GateClosed(s.rec);
  }

  lemma GateKeepsInv(s: State, t: State)
    requires Inv(s) && GateNext(s) == Some(t)
    ensures Inv(t)
  {
    match s.rt.owner
    case HoldsGate => GateHeldKeepsInv(s, t);
    case JoinsSettleThread => GateReportKeepsInv(s, t);
    case WantsGate => assert GateClosed(t.rec) == GateClosed(s.rec);
    case _ =>
  }

  lemma SettleThreadKeepsInv(s: State, fault: bool, t: State)
    requires Inv(s) && SettleThreadNext(s, fault) == Some(t)
    ensures Inv(t)
  {
  }

  lemma CaptureKeepsInv(s: State, step: Step, t: State)
    requires Inv(s) && CaptureNext(s, step) == Some(t)
    ensures Inv(t)
  {
  }

  lemma BeginCleanupKeepsInv(s: State, budget: nat, t: State)
    requires Inv(s) && CleanupNext(s, BeginCleanup(budget)) == Some(t)
    ensures Inv(t)
  {
  }

  lemma StopKeepsInv(s: State, step: Step, t: State)
    requires Inv(s) && (step.StopReturns? || step.StopTimesOut? || step.GateGivesUp? || step.AbandonSettlement?)
    requires CleanupNext(s, step) == Some(t)
    ensures Inv(t)
  {
  }

  lemma FinishStopKeepsInv(s: State, t: State)
    requires Inv(s) && CleanupNext(s, FinishStop) == Some(t)
    ensures Inv(t)
  {
  }

  lemma SettlementKeepsInv(s: State, t: State)
    requires Inv(s) && CleanupNext(s, Settlement) == Some(t)
    ensures Inv(t)
  {
    assert GateClosed(t.rec) == GateClosed(s.rec);
  }

  lemma CleanupKeepsInv(s: State, step: Step, t: State)
    requires Inv(s) && CleanupNext(s, step) == Some(t)
    ensures Inv(t)
  {
    match step
    case BeginCleanup(budget) => BeginCleanupKeepsInv(s, budget, t);
    case FinishStop => FinishStopKeepsInv(s, t);
    case Settlement => SettlementKeepsInv(s, t);
    case _ => StopKeepsInv(s, step, t);
  }

  lemma StepKeepsInv(s: State, step: Step, t: State)
    requires Inv(s) && Next(s, step) == Some(t)
    ensures Inv(t)
  {
    match step
    case Appender(fault) =>
      if s.appender.AppendCuts? || s.appender.AppendRegisters? { AppenderKeepsInv(s, fault, t); }
      else { AppendFillsKeepsInv(s, fault, t); }
    case Worker(fault) => WorkerKeepsInv(s, fault, t);
    case SettleThread(fault) => SettleThreadKeepsInv(s, fault, t);
    case Gate => GateKeepsInv(s, t);
    case Tick(_) =>
    case Recover =>
    case _ =>
      if CaptureNext(s, step).Some? { CaptureKeepsInv(s, step, t); } else { CleanupKeepsInv(s, step, t); }
  }
}
