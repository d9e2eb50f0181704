/** Safety of the finalization protocol over whole runs, in every interleaving of the event loop,
    the append thread, the worker, the settle thread and the database. */
module FinalizationTheorems {
  import opened Wrappers
  import opened DataModel
  import opened FinalizationProtocol
  import opened FinalizationSafety

  lemma {:induction false} RunKeepsInv(states: seq<State>, steps: seq<Step>, i: nat)
    requires Run(states, steps) && i < |states|
    ensures Inv(states[i])
  {
    if i == 0 {
      InitialInv(states[0].now, states[0].maxFrames);
    } else {
      RunKeepsInv(states, steps, i - 1);
      StepKeepsInv(states[i - 1], steps[i - 1], states[i]);
    }
  }

  /** What no later step takes back. */
  predicate Kept(s: State, t: State) {
    && (s.data.row.Completed? ==> t.data.row.Completed? && t.data.accepted == s.data.accepted)
    && (s.rt.gateReport.ReportedFailed? ==> t.rt.gateReport.ReportedFailed?)
    && (s.rt.gateReport.ReportedCompleted? ==> t.rt.gateReport.ReportedCompleted?)
    && (s.rt.failure ==> t.rt.failure)
    && (!FinalizationResult(s.rec).OutcomePending? ==> FinalizationResult(t.rec) == FinalizationResult(s.rec))
    && (MayStartCapture(s) ==> MayStartCapture(t) && t.rt.failure == s.rt.failure && t.rt.capture == s.rt.capture)
  }

  lemma AppenderKeeps(s: State, fault: bool, t: State)
    requires Inv(s) && AppenderNext(s, fault) == Some(t)
    ensures Kept(s, t)
  {
  }

  lemma FlushKeeps(s: State, fault: bool, t: State)
    requires Inv(s) && FlushNext(s, fault) == Some(t)
    ensures Kept(s, t)
  {
  }

  lemma DecideKeeps(s: State, fault: bool, t: State)
    requires Inv(s) && DecideNext(s, fault) == Some(t)
    ensures Kept(s, t)
  {
  }

  lemma ConcludeKeeps(s: State, fault: bool, t: State)
    requires Inv(s) && ConcludeNext(s, fault) == Some(t)
    ensures Kept(s, t)
  {
  }

  lemma CleanupKeeps(s: State, step: Step, t: State)
    requires Inv(s) && CleanupNext(s, step) == Some(t)
    ensures Kept(s, t)
  {
  }

  lemma StepKeeps(s: State, step: Step, t: State)
    requires Inv(s) && Next(s, step) == Some(t)
    ensures Kept(s, t)
  {
    match step
    case Appender(fault) => AppenderKeeps(s, fault, t);
    case Worker(fault) =>
      if FlushNext(s, fault).Some? { FlushKeeps(s, fault, t); }
      else if DecideNext(s, fault).Some? { DecideKeeps(s, fault, t); }
      else { ConcludeKeeps(s, fault, t); }
    case SettleThread(fault) =>
    case Gate =>
    case Tick(_) =>
    case Recover =>
    case _ =>
      if CaptureNext(s, step).None? { CleanupKeeps(s, step, t); }
  }

  lemma {:induction false} RunKeeps(states: seq<State>, steps: seq<Step>, i: nat, j: nat)
    requires Run(states, steps) && i <= j < |states|
    ensures Kept(states[i], states[j])
    decreases j - i
  {
    if i < j {
      RunKeeps(states, steps, i, j - 1);
      RunStepKeeps(states, steps, j - 1);
      KeptTwice(states[i], states[j - 1], states[j]);
    }
  }

  lemma RunStepKeeps(states: seq<State>, steps: seq<Step>, i: nat)
    requires Run(states, steps) && i < |steps|
    ensures Kept(states[i], states[i + 1])
  {
    RunKeepsInv(states, steps, i);
    StepKeeps(states[i], steps[i], states[i + 1]);
  }

  lemma KeptTwice(s: State, t: State, u: State)
    requires Kept(s, t) && Kept(t, u)
    ensures Kept(s, u)
  {
  }

  // ----- the recorder's verdicts --------------------------------------------

  /** Once close_finalization_gate reports FAILED the row is never COMPLETED, even when the
      abandoned worker resumes; once it reports COMPLETED the row is COMPLETED and stays so. */
  lemma GateVerdictIsFinal(states: seq<State>, steps: seq<Step>, i: nat, j: nat)
    requires Run(states, steps) && i <= j < |states|
    ensures states[i].rt.gateReport.ReportedFailed? ==> !states[j].data.row.Completed?
    ensures states[i].rt.gateReport.ReportedCompleted? ==> states[j].data.row.Completed?
  {
    RunKeeps(states, steps, i, j);
    RunKeepsInv(states, steps, j);
  }

  /** COMPLETED is absorbing, and a COMPLETED session holds every frame the recorder accepted. */
  lemma CompletedSessionIsWhole(states: seq<State>, steps: seq<Step>, i: nat, j: nat)
    requires Run(states, steps) && i <= j < |states| && states[i].data.row.Completed?
    ensures states[j].data.row.Completed?
    ensures states[j].data.rowFrames == states[j].data.accepted == states[i].data.accepted
  {
    RunKeeps(states, steps, i, j);
    RunKeepsInv(states, steps, j);
  }

  /** A settled finalization_outcome is COMPLETED exactly when the row is, then and for good. */
  lemma SettledOutcomeIsDurable(states: seq<State>, steps: seq<Step>, i: nat, j: nat)
    requires Run(states, steps) && i <= j < |states|
    requires !FinalizationResult(states[i].rec).OutcomePending?
    ensures FinalizationResult(states[i].rec).OutcomeCompleted? <==> states[j].data.row.Completed?
  {
    RunKeeps(states, steps, i, j);
    RunKeepsInv(states, steps, j);
  }

  /** The gate's own COMPLETED branch after its conditional update is never taken: behind a
      closed gate the settle thread cannot read COMPLETED. */
  lemma SettleThreadNeverReadsCompleted(states: seq<State>, steps: seq<Step>, i: nat)
    requires Run(states, steps) && i < |states|
    ensures !(states[i].settleRead.Saw? && states[i].settleRead.state.Completed?)
    ensures !states[i].settleThread.SettleNotSpawned? ==> !states[i].data.row.Completed?
  {
    RunKeepsInv(states, steps, i);
  }

  // ----- the runtime's verdicts ---------------------------------------------

  /** A failure the runtime ever holds excludes a COMPLETED row before, then and later. */
  lemma RuntimeFailureExcludesCompletion(states: seq<State>, steps: seq<Step>, i: nat, j: nat)
    requires Run(states, steps) && i < |states| && j < |states|
    requires states[i].rt.failure || states[i].rt.capture.CaptureFailed?
    ensures !states[j].data.row.Completed?
  {
    RunKeepsInv(states, steps, i);
    if i <= j {
      RunKeeps(states, steps, i, j);
      RunKeepsInv(states, steps, j);
    } else {
      RunKeeps(states, steps, j, i);
    }
  }

  /** A stop that ended PENDING settles to IDLE exactly when the row is COMPLETED, and to
      FAILED otherwise; the verdict then agrees with the row for the rest of the run. */
  lemma PendingStopSettlesTruthfully(states: seq<State>, steps: seq<Step>, i: nat, j: nat)
    requires Run(states, steps) && i < j < |states|
    requires steps[i].Settlement?
    ensures states[i + 1].rt.capture.Idle? <==> states[j].data.row.Completed?
    ensures states[i + 1].rt.capture.CaptureFailed? <==> !states[j].data.row.Completed?
  {
    RunKeepsInv(states, steps, i);
    RunKeeps(states, steps, i, j);
    assert Next(states[i], steps[i]) == Some(states[i + 1]);
    assert states[i].worker.WorkerDone?;
    assert CaptureNext(states[i], steps[i]).None?;
    SettledOutcomeIsDurable(states, steps, i, j);
  }

  /** While a finalization is unsettled no new capture may start; once one may, nothing that is
      left of the old capture changes the runtime's state or failure again. */
  lemma NewCaptureIsNotClobbered(states: seq<State>, steps: seq<Step>, i: nat, j: nat)
    requires Run(states, steps) && i <= j < |states| && MayStartCapture(states[i])
    ensures !states[i].rt.settlementTask && !states[i].rec.inFlight
    ensures states[j].rt.capture == states[i].rt.capture && states[j].rt.failure == states[i].rt.failure
    ensures MayStartCapture(states[j])
  {
    RunKeepsInv(states, steps, i);
    RunKeeps(states, steps, i, j);
  }

  /** IDLE after a stop is not COMPLETED: stop() returns normally after a storage fault. The row
      of an idle capture is COMPLETED exactly when its recorder holds no failure. */
  lemma IdleIsCompletedUnlessTheRecorderFailed(states: seq<State>, steps: seq<Step>, i: nat)
    requires Run(states, steps) && i < |states| && states[i].rt.capture.Idle?
    ensures states[i].data.row.Completed? <==> !states[i].rec.failure
  {
    RunKeepsInv(states, steps, i);
  }

  // ----- what does not hold -------------------------------------------------

  /** The step is a segment registration whose transaction lands. */
  predicate Registers(s: State, step: Step) {
    || (step.Worker? && s.worker.FlushRegisters? && !step.fault)
    || (step.Appender? && s.appender.AppendRegisters? && !step.fault)
  }

  /** FAILED and INTERRUPTED are not terminal: a row leaves them exactly by a segment registration
      that lands, and then it is ACTIVE again. */
  lemma OnlyRegistrationRevivesARow(s: State, step: Step, t: State)
    requires Inv(s) && Next(s, step) == Some(t)
    requires s.data.row.Failed? || s.data.row.Interrupted?
    ensures t.data.row != s.data.row <==> Registers(s, step)
    ensures Registers(s, step) ==> t.data.row.Active?
  {
    match step
    case Appender(fault) => AppendRegistrationRevives(s, fault, t);
    case Worker(fault) => FlushRegistrationRevives(s, fault, t);
    case SettleThread(fault) =>
    case Gate =>
    case Tick(_) =>
    case Recover =>
    case _ =>
      if CaptureNext(s, step).None? { CleanupKeepsData(s, step, t); }
  }

  lemma AppendRegistrationRevives(s: State, fault: bool, t: State)
    requires Inv(s) && AppenderNext(s, fault) == Some(t) && (s.data.row.Failed? || s.data.row.Interrupted?)
    ensures t.data.row != s.data.row <==> s.appender.AppendRegisters? && !fault
    ensures s.appender.AppendRegisters? && !fault ==> t.data.row.Active?
  {
  }

  lemma FlushRegistrationRevives(s: State, fault: bool, t: State)
    requires Inv(s) && WorkerNext(s, fault) == Some(t) && (s.data.row.Failed? || s.data.row.Interrupted?)
    ensures t.data.row != s.data.row <==> s.worker.FlushRegisters? && !fault
    ensures s.worker.FlushRegisters? && !fault ==> t.data.row.Active?
  {
  }

  lemma CleanupKeepsData(s: State, step: Step, t: State)
    requires CleanupNext(s, step) == Some(t)
    ensures t.data == s.data
  {
  }

  ghost predicate Reachable(s: State) {
    exists states, steps :: Run(states, steps) && states[|steps|] == s
  }

  /** A reachable state and a possible step: the state after it is reachable too. */
  lemma Go(s: State, step: Step) returns (t: State)
    requires Reachable(s) && Next(s, step).Some?
    ensures Next(s, step) == Some(t) && Reachable(t)
  {
    var states, steps :| Run(states, steps) && states[|steps|] == s;
    t := Next(s, step).value;
    assert Run(states + [t], steps + [step]);
    assert (states + [t])[|steps + [step]|] == t;
  }

  lemma StartIsReachable(s: State)
    requires s.maxFrames >= 1 && s == Started(s.now, s.maxFrames)
    ensures Reachable(s)
  {
    var states, steps: seq<Step> := [s], [];
    assert Run(states, steps) && states[|steps|] == s;
  }

  /** One frame is buffered, capture has stopped and the cleanup is about to begin. */
  function OneFrameBuffered(): State {
    State(
      0, 2,
      Session(Active, 0, Active, 0, 1, 1, Free),
      Recorder(Recording, false, Unarmed, false, false, false, true, Free),
      Runtime(CleanupReady, false, true, true, NotReported, false, false, Finalizing),
      AppendIdle, NotSpawned, SettleNotSpawned, NotRead)
  }

  lemma OneFrameCanBeBuffered()
    ensures Reachable(OneFrameBuffered())
  {
    var started := Started(0, 2);
    StartIsReachable(started);
    var s := Go(started, StartAppend(1));
    s := Go(s, Appender(false));
    s := Go(s, Appender(false));
    s := Go(s, AppendReturns);
    assert s == started.(data := OneFrameBuffered().data);
    s := Go(s, RequestStop);
    s := Go(s, DrainEnds);
  }

  /** The worker has written the tail segment's file and is about to register it. */
  function TailWritten(): State {
    OneFrameBuffered().(
      data := Session(Active, 0, Active, 0, 1, 1, ByWorker),
      rec := Recorder(Recording, false, At(1000), false, true, true, false, Free),
      rt := Runtime(AwaitsStop, false, true, true, NotReported, false, false, Finalizing),
      worker := FlushRegisters)
  }

  lemma TailCanBeWritten()
    ensures Reachable(TailWritten())
  {
    OneFrameCanBeBuffered();
    var s := Go(OneFrameBuffered(), BeginCleanup(1000));
    s := Go(s, Worker(false));
    s := Go(s, Worker(false));
    s := Go(s, Worker(false));
  }

  /** FAILED is not absorbing: the flush of an abandoned worker rewrites a row the gate has
      already failed back to ACTIVE. */
  lemma AFailedRowCanBeRevived() returns (s: State, step: Step, t: State)
    ensures Reachable(s) && Next(s, step) == Some(t)
    ensures s.data.row.Failed? && t.data.row.Active?
  {
    TailCanBeWritten();
    s := Go(TailWritten(), StopTimesOut);
    s := Go(s, Gate);
    s := Go(s, Gate);
    assert s == TailWritten().(
      rec := TailWritten().rec.(deadline := At(0)),
      rt := TailWritten().rt.(owner := JoinsSettleThread),
      settleThread := SettleFailsRow);
    s := Go(s, SettleThread(false));
    step := Worker(false);
    t := Go(s, step);
  }

  /** The worker reached the gate with less than the grace left of its budget. */
  function GateReachedLate(): State {
    OneFrameBuffered().(
      now := 800,
      data := Session(Active, 1, Active, 1, 0, 1, Free),
      rec := Recorder(Recording, false, At(1000), false, true, true, false, ByWorker),
      rt := Runtime(AwaitsStop, false, true, true, NotReported, false, false, Finalizing),
      worker := ChecksGate)
  }

  lemma GateCanBeReachedLate()
    ensures Reachable(GateReachedLate())
  {
    TailCanBeWritten();
    var s := Go(TailWritten(), Worker(false));
    s := Go(s, Tick(800));
    s := Go(s, Worker(false));
  }

  /** The worker has failed the session and released its locks. */
  function SessionRefused(): State {
    GateReachedLate().(
      data := Session(Failed, 1, Failed, 1, 0, 1, Free),
      rec := Recorder(RecorderFailed, true, At(1000), false, true, true, false, Free),
      worker := ClearsInFlight)
  }

  lemma SessionCanBeRefused()
    ensures Reachable(SessionRefused())
  {
    GateCanBeReachedLate();
    var s := Go(GateReachedLate(), Worker(false));
    s := Go(s, Worker(false));
    assert s == GateReachedLate().(rec := Fail(GateReachedLate().rec), worker := FailWantsLock);
    s := Go(s, Worker(false));
    s := Go(s, Worker(false));
    s := Go(s, Worker(false));
  }

  /** The worker is done, and stop() is about to return. */
  function WorkerEnded(): State {
    SessionRefused().(
      rec := Recorder(RecorderFailed, true, At(1000), false, true, false, true, Free),
      worker := WorkerDone)
  }

  lemma WorkerCanEnd()
    ensures Reachable(WorkerEnded())
  {
    SessionCanBeRefused();
    var s := Go(SessionRefused(), Worker(false));
    s := Go(s, Worker(false));
  }

  /** IDLE without COMPLETED needs no fault and no missed deadline: a flush that leaves less than
      the grace makes the worker refuse, stop() still returns in time, and the runtime goes IDLE
      over a FAILED row. */
  lemma AnIdleCaptureCanHaveFailed() returns (s: State)
    ensures Reachable(s) && s.rt.capture.Idle? && !s.rt.failure && s.rt.gateReport.NotReported?
    ensures s.data.row.Failed? && s.data.rowFrames == s.data.accepted
  {
    WorkerCanEnd();
    s := Go(WorkerEnded(), StopReturns);
    s := Go(s, FinishStop);
  }
}
