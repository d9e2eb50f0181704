/** What the finalization protocol gets done: when a stop in good time commits, that no storage
    fault means no row left ACTIVE, and that the worker always ends. */
module FinalizationProgress {
  import opened Wrappers
  import opened DataModel
  import opened FinalizationProtocol
  import opened FinalizationSafety
  import opened FinalizationTheorems

  // ----- undisturbed runs ---------------------------------------------------

  predicate FaultFree(step: Step) {
    match step
    case Appender(fault) => !fault
    case Worker(fault) => !fault
    case SettleThread(fault) => !fault
    case _ => true
  }

  /** No storage fault, no recovery by another process, no capture failure, no missed stop. */
  predicate Undisturbed(step: Step) {
    FaultFree(step) && !step.Recover? && !step.CaptureFails? && !step.StopTimesOut?
  }

  ghost predicate UndisturbedRun(states: seq<State>, steps: seq<Step>) {
    Run(states, steps) && forall k :: 0 <= k < |steps| ==> Undisturbed(steps[k])
  }

  /** What has happened so far: when the stop is due, when the worker checked the gate, and how
      many frames the archive consumer handed over. */
  datatype Story = Story(due: Option<nat>, checked: Option<nat>, handed: nat)

  function Told(story: Story, s: State, step: Step): Story {
    match step
    case BeginCleanup(budget) => story.(due := Some(s.now + budget))
    case StartAppend(frames) => story.(handed := story.handed + frames)
    case Worker(_) => if s.worker.ChecksGate? then story.(checked := Some(s.now)) else story
    case _ => story
  }

  function StoryOf(states: seq<State>, steps: seq<Step>, i: nat): Story
    requires i <= |steps| < |states|
  {
    if i == 0 then Story(None, None, 0)
    else Told(StoryOf(states, steps, i - 1), states[i - 1], steps[i - 1])
  }

  /** The worker has not come to its gate check yet. */
  predicate BeforeTheCheck(w: WorkerPc) {
    w.TestsFailure? || w.FlushWantsLock? || w.Flushes? || w.FlushRegisters? || w.WantsTerminalLock? || w.ChecksGate?
  }

  predicate InTime(story: Story)
    requires story.due.Some? && story.checked.Some?
  {
    story.checked.value + 250 <= story.due.value
  }

  /** Where the worker can be, and what it has done to the session. */
  predicate WorkerTells(s: State, story: Story) {
    && (story.due.None? ==> s.worker.NotSpawned? && story.checked.None?)
    && (story.due.Some? ==> s.rec.deadline == At(story.due.value) && s.appender.AppendIdle?)
    && (story.due.Some? && story.checked.None? ==> BeforeTheCheck(s.worker))
    && (story.checked.None? ==> !s.rec.failure && s.data.mem.Active? && s.data.row.Active?)
    && (story.due.Some? && story.checked.Some? ==>
          s.data.buffered == 0 && if InTime(story) then Commits(s) else RefusesToCommit(s))
  }

  predicate Commits(s: State) {
    && (s.worker.CommitWantsLock? || s.worker.Commits? || s.worker.SetsCompleted? || s.worker.ReleasesStopped? || Concluded(s.worker))
    && (s.worker.CommitWantsLock? || s.worker.Commits? ==> s.data.mem.Active? && s.data.row.Active?)
    && (s.worker.SetsCompleted? || s.worker.ReleasesStopped? || Concluded(s.worker) ==> s.data.row.Completed?)
  }

  predicate RefusesToCommit(s: State) {
    && (s.worker.Refuses? || s.worker.FailWantsLock? || s.worker.FailsWriter? || s.worker.FailMarksRow? || Concluded(s.worker))
    && (s.worker.Refuses? || s.worker.FailWantsLock? || s.worker.FailsWriter? ==> s.data.mem.Active?)
    && (!Concluded(s.worker) ==> s.data.row.Active?)
    && (Concluded(s.worker) ==> s.data.row.Failed?)
  }

  predicate FramesTold(s: State, handed: nat) {
    && s.data.accepted + (if s.appender.AppendWantsLock? then s.appender.frames else 0) == handed
    && !s.appender.AppendMarksFailed? && !s.appender.AppendRaised?
    && (s.appender.AppendIdle? || s.appender.AppendWantsLock? ==> s.data.buffered < s.maxFrames)
    && s.data.rowFrames + s.data.buffered == s.data.accepted
  }

  predicate OwnerTells(rt: Runtime) {
    && !rt.failure && rt.gateReport.NotReported? && !rt.settlementTask
    && !rt.owner.WantsGate? && !rt.owner.HoldsGate? && !rt.owner.JoinsSettleThread?
    && (!rt.hasSession <==> rt.capture.Idle?)
  }

  predicate Tells(s: State, story: Story) {
    && Inv(s) && s.settleThread.SettleNotSpawned?
    && OwnerTells(s.rt) && WorkerTells(s, story) && FramesTold(s, story.handed)
  }

  lemma AppenderTells(s: State, story: Story, t: State)
    requires Tells(s, story) && AppenderNext(s, false) == Some(t) && Inv(t)
    ensures Tells(t, story)
  {
  }

  lemma FlushTells(s: State, story: Story, t: State)
    requires Tells(s, story) && FlushNext(s, false) == Some(t) && Inv(t)
    ensures Tells(t, story)
  {
    if s.worker.Flushes? || s.worker.FlushRegisters? { TailTells(s, story, t); }
  }

  lemma TailTells(s: State, story: Story, t: State)
    requires Tells(s, story) && (s.worker.Flushes? || s.worker.FlushRegisters?) && FlushNext(s, false) == Some(t) && Inv(t)
    ensures Tells(t, story)
  {
  }

  lemma DecideTells(s: State, story: Story, t: State)
    requires Tells(s, story) && DecideNext(s, false) == Some(t) && Inv(t)
    ensures Tells(t, Told(story, s, Worker(false)))
  {
    if s.worker.ChecksGate? { CheckTells(s, story, t); }
    else if s.worker.Commits? { CommitTells(s, story, t); }
  }

  lemma CheckTells(s: State, story: Story, t: State)
    requires Tells(s, story) && s.worker.ChecksGate? && DecideNext(s, false) == Some(t) && Inv(t)
    ensures Tells(t, Told(story, s, Worker(false)))
  {
  }

  lemma CommitTells(s: State, story: Story, t: State)
    requires Tells(s, story) && s.worker.Commits? && DecideNext(s, false) == Some(t) && Inv(t)
    ensures Tells(t, story)
  {
  }

  lemma ConcludeTells(s: State, story: Story, t: State)
    requires Tells(s, story) && ConcludeNext(s, false) == Some(t) && Inv(t)
    ensures Tells(t, story)
  {
  }

  lemma OwnerStepTells(s: State, story: Story, step: Step, t: State)
    requires Tells(s, story) && Undisturbed(step) && Inv(t)
    requires CaptureNext(s, step) == Some(t) || CleanupNext(s, step) == Some(t)
    ensures Tells(t, Told(story, s, step))
  {
  }

  lemma StepTells(s: State, story: Story, step: Step, t: State)
    requires Tells(s, story) && Undisturbed(step) && Next(s, step) == Some(t)
    ensures Tells(t, Told(story, s, step))
  {
    StepKeepsInv(s, step, t);
    match step
    case Appender(_) => AppenderTells(s, story, t);
    case Worker(_) =>
      if FlushNext(s, false).Some? { FlushTells(s, story, t); }
      else if DecideNext(s, false).Some? { DecideTells(s, story, t); }
      else { ConcludeTells(s, story, t); }
    case SettleThread(_) =>
    case Gate =>
    case Tick(_) =>
    case _ => OwnerStepTells(s, story, step, t);
  }

  lemma {:induction false} RunTells(states: seq<State>, steps: seq<Step>, i: nat)
    requires UndisturbedRun(states, steps) && i < |states|
    ensures Tells(states[i], StoryOf(states, steps, i))
  {
    if i == 0 {
      InitialInv(states[0].now, states[0].maxFrames);
    } else {
      RunTells(states, steps, i - 1);
      StepTells(states[i - 1], StoryOf(states, steps, i - 1), steps[i - 1], states[i]);
    }
  }

  lemma StepAt(states: seq<State>, steps: seq<Step>, i: nat)
    requires Run(states, steps) && i < |steps|
    ensures Next(states[i], steps[i]) == Some(states[i + 1])
  {
  }

  // ----- when a stop commits ------------------------------------------------

  /** The cleanup that began at step b decides when the stop is due. */
  lemma {:induction false} CleanupTellsWhenDue(states: seq<State>, steps: seq<Step>, b: nat, i: nat)
    requires UndisturbedRun(states, steps) && b < |steps| && i < |states| && steps[b].BeginCleanup?
    ensures var due := StoryOf(states, steps, i).due;
            if b < i then due == Some(states[b].now + steps[b].budget) else due.None?
  {
    if i <= b {
      CleanupBeginsUndue(states, steps, b);
      StoryOnlyGrows(states, steps, i, b);
    } else if i > b + 1 {
      CleanupTellsWhenDue(states, steps, b, i - 1);
      if steps[i - 1].BeginCleanup? { CleanupBeginsUndue(states, steps, i - 1); }
    }
  }

  lemma CleanupBeginsUndue(states: seq<State>, steps: seq<Step>, b: nat)
    requires UndisturbedRun(states, steps) && b < |steps| && steps[b].BeginCleanup?
    ensures StoryOf(states, steps, b).due.None?
  {
    RunTells(states, steps, b);
    StepAt(states, steps, b);
  }

  lemma {:induction false} StoryOnlyGrows(states: seq<State>, steps: seq<Step>, i: nat, j: nat)
    requires i <= j <= |steps| < |states|
    ensures StoryOf(states, steps, i).due.Some? ==> StoryOf(states, steps, j).due.Some?
    ensures StoryOf(states, steps, i).checked.Some? ==> StoryOf(states, steps, j).checked.Some?
  {
    if i < j { StoryOnlyGrows(states, steps, i, j - 1); }
  }

  /** The worker checks the gate once. */
  lemma {:induction false} CheckTellsWhenChecked(states: seq<State>, steps: seq<Step>, g: nat, i: nat)
    requires UndisturbedRun(states, steps) && g < |steps| && i < |states|
    requires steps[g].Worker? && states[g].worker.ChecksGate?
    ensures var checked := StoryOf(states, steps, i).checked;
            if g < i then checked == Some(states[g].now) else checked.None?
  {
    RunTells(states, steps, g);
    if i <= g {
      StoryOnlyGrows(states, steps, i, g);
    } else {
      CheckTellsWhenChecked(states, steps, g, i - 1);
      RunTells(states, steps, i - 1);
    }
  }

  /** In an undisturbed run, once the worker is done, the row is COMPLETED exactly when the gate
      was checked a grace before the stop was due, and FAILED otherwise; either way every frame
      ever handed over is committed. */
  lemma AStopCommitsExactlyInTime(states: seq<State>, steps: seq<Step>, b: nat, g: nat, i: nat)
    requires UndisturbedRun(states, steps) && b < |steps| && g < |steps| && i < |states|
    requires steps[b].BeginCleanup?
    requires steps[g].Worker? && states[g].worker.ChecksGate?
    requires states[i].worker.WorkerDone?
    ensures b < g < i
    ensures states[i].data.row.Completed? <==> states[g].now + 250 <= states[b].now + steps[b].budget
    ensures !states[i].data.row.Completed? ==> states[i].data.row.Failed?
    ensures states[i].data.rowFrames == states[i].data.accepted == FramesHanded(steps[..i])
  {
    RunTells(states, steps, i);
    RunTells(states, steps, g);
    CleanupTellsWhenDue(states, steps, b, i);
    CleanupTellsWhenDue(states, steps, b, g);
    CheckTellsWhenChecked(states, steps, g, i);
    CheckTellsWhenChecked(states, steps, g, g);
    HandedIsSummed(states, steps, i);
  }

  /** A worker that is done has begun and has checked the gate. */
  lemma {:induction false} ADoneWorkerCheckedTheGate(states: seq<State>, steps: seq<Step>, i: nat) returns (b: nat, g: nat)
    requires UndisturbedRun(states, steps) && i < |states| && states[i].worker.WorkerDone?
    ensures b < g < i && steps[b].BeginCleanup? && steps[g].Worker? && states[g].worker.ChecksGate?
  {
    RunTells(states, steps, i);
    b := CleanupStep(states, steps, i);
    g := CheckStep(states, steps, i);
    RunTells(states, steps, g);
    CleanupTellsWhenDue(states, steps, b, g);
  }

  lemma {:induction false} CleanupStep(states: seq<State>, steps: seq<Step>, i: nat) returns (b: nat)
    requires i <= |steps| < |states| && StoryOf(states, steps, i).due.Some?
    ensures b < i && steps[b].BeginCleanup?
  {
    if steps[i - 1].BeginCleanup? { b := i - 1; } else { b := CleanupStep(states, steps, i - 1); }
  }

  lemma {:induction false} CheckStep(states: seq<State>, steps: seq<Step>, i: nat) returns (g: nat)
    requires i <= |steps| < |states| && StoryOf(states, steps, i).checked.Some?
    ensures g < i && steps[g].Worker? && states[g].worker.ChecksGate?
  {
    if steps[i - 1].Worker? && states[i - 1].worker.ChecksGate? { g := i - 1; } else { g := CheckStep(states, steps, i - 1); }
  }

  /** The frames of all the batches the archive consumer handed over. */
  function FramesHanded(steps: seq<Step>): nat {
    if steps == [] then 0
    else
      var last := steps[|steps| - 1];
      FramesHanded(steps[..|steps| - 1]) + if last.StartAppend? then last.frames else 0
  }

  lemma {:induction false} HandedIsSummed(states: seq<State>, steps: seq<Step>, i: nat)
    requires i <= |steps| < |states|
    ensures StoryOf(states, steps, i).handed == FramesHanded(steps[..i])
  {
    if i > 0 {
      HandedIsSummed(states, steps, i - 1);
      assert steps[..i][..i - 1] == steps[..i - 1];
    }
  }

  lemma NoSessionComesBack(s: State, step: Step, t: State)
    requires Next(s, step) == Some(t) && !s.rt.hasSession
    ensures !t.rt.hasSession
  {
  }

  /** An undisturbed stop ends IDLE, whether or not it committed in time, and stays so. */
  lemma {:induction false} AnUndisturbedStopEndsIdle(states: seq<State>, steps: seq<Step>, f: nat, j: nat)
    requires UndisturbedRun(states, steps) && f < j < |states| && steps[f].FinishStop?
    ensures states[j].rt.capture.Idle? && !states[j].rt.hasSession
    ensures states[f].worker.WorkerDone?
  {
    RunTells(states, steps, f);
    StepAt(states, steps, f);
    RunTells(states, steps, j);
    if f + 1 < j {
      AnUndisturbedStopEndsIdle(states, steps, f, j - 1);
      RunTells(states, steps, j - 1);
      StepAt(states, steps, j - 1);
      NoSessionComesBack(states[j - 1], steps[j - 1], states[j]);
    }
  }

  // ----- what the owner learns ----------------------------------------------

  /** The outcome is known from the worker's last step but one on, and is COMPLETED exactly over a
      COMPLETED row. */
  lemma TheOutcomeIsKnownExactlyAfterwards(states: seq<State>, steps: seq<Step>, i: nat)
    requires Run(states, steps) && i < |states|
    ensures var s := states[i]; var outcome := FinalizationResult(s.rec);
            && (outcome.OutcomePending? <==> !s.worker.SetsSettled? && !s.worker.WorkerDone?)
            && (outcome.OutcomeCompleted? <==> (s.worker.SetsSettled? || s.worker.WorkerDone?) && s.data.row.Completed?)
  {
    RunKeepsInv(states, steps, i);
  }

  /** A new capture may start exactly when the stop has finished, its worker no longer holds
      the recorder, and no settlement is awaited. */
  lemma ANewCaptureMayStartExactlyWhenSettled(states: seq<State>, steps: seq<Step>, i: nat)
    requires Run(states, steps) && i < |states|
    ensures var s := states[i];
            MayStartCapture(s) <==> !s.rt.hasSession && !s.rt.settlementTask && (s.worker.SetsSettled? || s.worker.WorkerDone?)
  {
    RunKeepsInv(states, steps, i);
  }

  /** A finished stop shows FAILED exactly over a runtime failure, FINALIZING exactly while a
      verdict is still awaited, and IDLE otherwise. */
  lemma AFinishedStopShowsTheTruth(states: seq<State>, steps: seq<Step>, f: nat)
    requires Run(states, steps) && f < |steps| && steps[f].FinishStop?
    ensures var (s, shown) := (states[f], states[f + 1].rt.capture);
            var awaited := s.rt.settlementTask || !(s.worker.SetsSettled? || s.worker.WorkerDone?);
            && (shown.CaptureFailed? <==> s.rt.failure)
            && (shown.Finalizing? <==> !s.rt.failure && awaited)
            && (shown.Idle? <==> !s.rt.failure && !awaited)
  {
    RunKeepsInv(states, steps, f);
    StepAt(states, steps, f);
  }

  // ----- the row is always decided ------------------------------------------

  /** Where a fault-free run can leave the row ACTIVE. */
  predicate MarksMatch(s: State) {
    && (s.data.row.Active? ==> s.data.mem.Active? || s.worker.FailMarksRow?)
    && (s.worker.FailMarksRow? || Concluded(s.worker) ==> !s.data.mem.Active?)
  }

  lemma StepKeepsMarks(s: State, step: Step, t: State)
    requires Inv(s) && MarksMatch(s) && FaultFree(step) && Next(s, step) == Some(t)
    ensures MarksMatch(t)
  {
    match step
    case Appender(_) => AppenderKeepsMarks(s, t);
    case Worker(_) => WorkerKeepsMarks(s, t);
    case SettleThread(_) =>
    case Gate =>
    case Tick(_) =>
    case Recover =>
    case _ => if CaptureNext(s, step).None? { CleanupKeepsData(s, step, t); }
  }

  lemma AppenderKeepsMarks(s: State, t: State)
    requires Inv(s) && MarksMatch(s) && AppenderNext(s, false) == Some(t)
    ensures MarksMatch(t)
  {
  }

  lemma WorkerKeepsMarks(s: State, t: State)
    requires Inv(s) && MarksMatch(s) && WorkerNext(s, false) == Some(t)
    ensures MarksMatch(t)
  {
  }

  lemma {:induction false} RunKeepsMarks(states: seq<State>, steps: seq<Step>, i: nat)
    requires Run(states, steps) && i < |states| && forall k :: 0 <= k < |steps| ==> FaultFree(steps[k])
    ensures MarksMatch(states[i])
  {
    if i > 0 {
      RunKeepsInv(states, steps, i - 1);
      RunKeepsMarks(states, steps, i - 1);
      StepKeepsMarks(states[i - 1], steps[i - 1], states[i]);
    }
  }

  /** Without a storage fault the worker leaves no ACTIVE row behind, whatever else went wrong. */
  lemma WithoutFaultsTheRowIsDecided(states: seq<State>, steps: seq<Step>, i: nat)
    requires Run(states, steps) && i < |states| && forall k :: 0 <= k < |steps| ==> FaultFree(steps[k])
    requires states[i].worker.WorkerDone?
    ensures !states[i].data.row.Active?
  {
    RunKeepsMarks(states, steps, i);
  }

  /** The step in which a thread writes a failure of the writer to the row. */
  predicate MarksRow(s: State, step: Step) {
    || (step.Appender? && s.appender.AppendMarksFailed?)
    || (step.Worker? && (s.worker.FlushMarksFailed? || s.worker.CommitMarksFailed? || s.worker.FailMarksRow?))
  }

  /** A failed writer's row is FAILED after that step if it was ACTIVE, unless the storage failed then;
      any other row is left alone. */
  lemma AFailedWriterFailsItsRow(s: State, step: Step, t: State)
    requires Inv(s) && Next(s, step) == Some(t) && MarksRow(s, step)
    ensures t.data.row == if s.data.row.Active? && FaultFree(step) then Failed else s.data.row
    ensures t.data.lock.Free?
  {
  }

  /** A writer that fails is on its way to that step, holding the writer lock. */
  lemma AWriterThatFailsMarksItsRow(s: State, step: Step, t: State)
    requires Inv(s) && Next(s, step) == Some(t) && !s.data.mem.Failed? && t.data.mem.Failed?
    ensures !t.data.lock.Free?
    ensures t.appender.AppendMarksFailed? || t.worker.FlushMarksFailed? || t.worker.CommitMarksFailed? || t.worker.FailMarksRow?
  {
    match step
    case Appender(fault) =>
    case Worker(fault) => WorkerThatFailsMarksItsRow(s, fault, t);
    case SettleThread(_) =>
    case Gate =>
    case Tick(_) =>
    case Recover =>
    case _ => if CaptureNext(s, step).None? { CleanupKeepsData(s, step, t); }
  }

  lemma WorkerThatFailsMarksItsRow(s: State, fault: bool, t: State)
    requires Inv(s) && WorkerNext(s, fault) == Some(t) && !s.data.mem.Failed? && t.data.mem.Failed?
    ensures !t.data.lock.Free?
    ensures t.worker.FlushMarksFailed? || t.worker.CommitMarksFailed? || t.worker.FailMarksRow?
  {
  }

  /** Recovery interrupts exactly an ACTIVE row. */
  lemma RecoveryInterruptsActiveRows(s: State, t: State)
    requires Next(s, Recover) == Some(t)
    ensures t.data.row == if s.data.row.Active? then Interrupted else s.data.row
    ensures t.data.mem == s.data.mem && t.worker == s.worker && t.rec == s.rec
  {
  }

  // ----- the worker ends ----------------------------------------------------

  /** How many steps the worker has left at most. */
  function StepsLeft(w: WorkerPc): nat {
    match w
    case NotSpawned => 0
    case TestsFailure => 18
    case FlushWantsLock => 17
    case Flushes => 16
    case FlushRegisters => 15
    case FlushMarksFailed => 14
    case FlushDiagnoses => 13
    case WantsTerminalLock => 12
    case ChecksGate => 11
    case CommitWantsLock => 10
    case Commits => 9
    case CommitMarksFailed => 8
    case CommitDiagnoses => 7
    case Refuses => 6
    case FailWantsLock => 5
    case FailsWriter => 4
    case FailMarksRow => 3
    case SetsCompleted => 4
    case ReleasesStopped => 3
    case ClearsInFlight => 2
    case SetsSettled => 1
    case WorkerDone => 0
  }

  /** Every step of the worker, faulty or not, brings it closer to its end. */
  lemma WorkerAdvances(s: State, fault: bool, t: State)
    requires WorkerNext(s, fault) == Some(t)
    ensures StepsLeft(t.worker) < StepsLeft(s.worker) <= 18
  {
  }

  /** A lock the worker waits for is always held by a thread that can go on: nobody waits in a
      circle, and only a missed lock keeps the worker from its next step. */
  lemma NobodyWaitsInACircle(s: State)
    requires Inv(s) && !s.worker.NotSpawned? && !s.worker.WorkerDone?
    ensures || WorkerNext(s, false).Some?
            || (s.data.lock.ByAppender? && AppenderNext(s, false).Some?)
            || (s.rec.terminalLock.ByOwner? && GateNext(s).Some?)
  {
    assert s.data.lock.ByAppender? ==> s.appender.AppendCuts? || s.appender.AppendRegisters? || s.appender.AppendMarksFailed?;
    assert s.worker.WantsTerminalLock? ==> s.rec.terminalLock.Free? || s.rt.owner.HoldsGate?;
  }
}
