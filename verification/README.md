# CAN-X in Dafny

A model of the parts of CAN-X where a simple promise rests on intricate code, with proofs of the
promises. `dafny verify dfyconfig.toml` checks the whole project.

| part | modules | shape |
|---|---|---|
| DBC decoding | `DbcModel`, `SignalLayout`, `SignalPlan`, `DbcDecoder`, `DbcReference` | a compiled engine (window, shift, mask, plan index) and a bit-by-bit interpreter it is proved equal to |
| Recorder finalization | `FinalizationProtocol`, `FinalizationSafety`, `FinalizationTheorems`, `FinalizationProgress` | a step system of the event loop, the append thread, the worker, the settle thread and the session row; an inductive invariant; theorems over whole runs; when a stop commits and that the worker ends |
| Session store and queries | `SegmentStore`, `SessionWriter`, `FrameQueries`, `QueryPaging` | classes over a disk whose every durable state is recorded; the flat list of committed frames as the specification of queries |
| Multi-agent scheduler | `IdOrder`, `DependencyOrder`, `Lifecycle`, `TaskGraph`, `Orchestration`, `Planner`, `PlanMeaning`, `SchedulerRuns` | Kahn's loop, the plan with its conflict leases and capacity cut, what a verdict comes down to, and runs that dispatch by it |
| Ownership globs | `Globs`, `GlobMeaning`, `PatternText`, `Ownership`, `Conflicts`, `PathMeaning` | the glob language as a recursive predicate and what each wildcard spans, the prefix-based overlap test, the path rules and the pairwise conflict levels, and both without the functions that compute them |
| Codecs and accounting | `Base64`, `DbcImport`, `RecordingFile`, `MsgpackRecorder`, `StreamAccounting`, `CaptureTimeline`, `CommitEvidence` | stepwise Base64, chunked recordings, the drop-oldest queue with its consumer, commit tokens |

`Wrappers`, `BitArithmetic`, `Bitwise`, `CanFrame` and `DataModel` are shared vocabulary. `ProtocolCounts`
ties the finalization protocol's counters to the session writer's frames.

Conventions. `>>` and `& mask` are division and remainder by powers of two, or a bitwise conjunction
of naturals. Timestamps are reals. Scaling a raw signal value, lower-casing a commit line and the
batch codec are function parameters; of the codec only the round trip on the batches at hand is
assumed. Which operations the storage fails is a parameter: of the session store a function of the
operation's number, of the chunk recorder an argument of each call. How much a failing write gets out
is a nondeterministic choice. The finalization protocol is a transition relation rather than classes,
because its subject is the interleaving; one step is one database transaction, one lock operation,
or thread-local work nobody else observes, and its faults and missed deadlines are part of the step.

Where code and documentation differ, the code is modelled:

- `stop()` returns normally after a storage fault, so an IDLE capture need not have a COMPLETED row
  (`IdleIsCompletedUnlessTheRecorderFailed`, `AnIdleCaptureCanHaveFailed`).
- `register_segment` rewrites the row's state, so FAILED and INTERRUPTED rows are not terminal: they
  change exactly when a registration lands (`OnlyRegistrationRevivesARow`, `AFailedRowCanBeRevived`).
  So `finalize` completes a session whose row another process failed exactly when it still has frames
  to flush (`DataSessionWriter.Finalize`).
- The normalizer promises a monotonic timeline but clamps only below the first frame
  (`NormalizedTimelineIsOrderedExactly`, `ATimelineThatStepsBack`); the writer refuses exactly the
  batches in which that shows (`SteppingClockIsRefusedExactly`).
- `classify_pair` compares raw patterns while ownership is decided on trimmed ones
  (`RawComparisonIsSafeExactlyWhenTrimmed`, `AnUntrimmedPatternCanHideAConflict`).
- `$` in a compiled glob also matches before a trailing newline (`OverlapIsConservativeExactly`).
- The `in_cycle` detail of a cyclic graph also names the tasks downstream of a cycle
  (`OrderedIds`, `DownstreamOfACycle`, `InCycleNamesOnlyMembersExactly`).

## Model

| member | source | states |
|---|---|---|
| `DbcReference.CompiledEngineIsTheInterpreter` | runtime/canx/dbc/decode.py:101-160 | for every database, frame and scaling function the compiled engine returns what a scan of the messages and a bit-by-bit reading returns: same failure, same order of checks, same signals and values |
| `DbcReference.DecodeFrames` | runtime/canx/dbc/decode.py:212-231 | batch decoding is the interpreter applied pointwise: one outcome per frame, in input order |
| `DbcReference.FramesMeetTheirMessage` | runtime/canx/dbc/decode.py:104-138 | decoding and interpreting a frame are MessageNotFound exactly when no message has the frame's own id and frame format, and every other outcome names a message with exactly those two |
| `DbcReference.ReadingKeepsDocumentOrder` | runtime/canx/dbc/decode.py:336-367 | the decoded signals are exactly the active ones, each once, in document order, each with its own raw value |
| `DbcReference.ExtraPayloadIsNeverInterpreted` | runtime/canx/dbc/decode.py:336-367 | appending bytes past the declared length changes neither outcome nor signals |
| `DbcReference.ResolverFindsTheSwitch` | runtime/canx/dbc/decode.py:404-428 | the multiplexer resolver succeeds exactly when at most one switch exists and every multiplexed signal names one, and then returns that switch |
| `DbcReference.CompileReasonIsFirstProblem` | runtime/canx/dbc/decode.py:370-401 | compilation fails exactly when some signal is unreadable, with the first one's reason |
| `DbcReference.PlanRefusesProblems` | runtime/canx/dbc/decode.py:370-401 | a message plan carries a refusal reason exactly when a direct inspection of the definition finds a problem, and the same reason |
| `DbcDecoder.CompileMessage` | runtime/canx/dbc/decode.py:370-401 | the loop that appends plans computes the compiled message |
| `DbcDecoder.Compile` | runtime/canx/dbc/decode.py:101-109 | the plan index holds the compiled plan of each message under its identifier pair |
| `DbcReference.IndexFindsWhatTheScanFinds` | runtime/canx/dbc/decode.py:104-109 | a lookup in the plan index finds the plan of the message a scan of the database finds |
| `SignalPlan.CompilesExactlyWhenItFits` | runtime/canx/dbc/decode.py:431-475 | a signal compiles exactly when each of its payload bits lies in the declared payload, in either byte order |
| `SignalPlan.PlanShape` | runtime/canx/dbc/decode.py:431-475 | the window lies inside the declared payload and the shift is at most 7 |
| `SignalPlan.ShiftIsNeverNegative` | runtime/canx/dbc/decode.py:431-475 | the refusal of a negative shift is unreachable: without it every signal compiles as before |
| `SignalPlan.ExtractionReadsTheSignal` | runtime/canx/dbc/decode.py:267-280 | window, shift, mask and sign adjustment yield the weighted sum of exactly the signal's own bits, two's complement when signed |
| `SignalLayout.SignalValueRange` | runtime/canx/dbc/decode.py:267-280 | an n-bit signal ranges over [-2^(n-1), 2^(n-1)) when signed and [0, 2^n) otherwise |
| `SignalLayout.ValueDependsOnOwnBits` | runtime/canx/dbc/decode.py:267-280 | two payloads that agree on the signal's own bits give it the same value |
| `SignalLayout.BytesPastTheLengthDoNotMatter` | runtime/canx/dbc/decode.py:267-280 | payloads that agree on the declared bytes give the signal the same value |
| `SignalLayout.WalkInNetworkOrder` | runtime/canx/dbc/decode.py:431-475 | the sawtooth walk over a Motorola signal is counting up in network bit order |
| `SignalPlan.TableMatchesScan` | runtime/canx/dbc/decode.py:282-314 | with distinct choice values the compiled label table answers like a scan of the declared choices |
| `FinalizationTheorems.GateVerdictIsFinal` | runtime/canx/recorder/project_recorder.py:199-254 | in every interleaving: after the gate reports FAILED the row is never COMPLETED, after it reports COMPLETED the row is COMPLETED for good |
| `FinalizationTheorems.CompletedSessionIsWhole` | runtime/canx/data/session.py:271-312 | COMPLETED is absorbing, and a COMPLETED row counts every frame the recorder ever accepted |
| `FinalizationTheorems.SettledOutcomeIsDurable` | runtime/canx/recorder/project_recorder.py:161-174 | a settled finalization outcome is COMPLETED exactly when the row is, then and at every later point |
| `FinalizationTheorems.SettleThreadNeverReadsCompleted` | runtime/canx/recorder/project_recorder.py:465-491 | behind a closed gate the settle thread can never read COMPLETED |
| `FinalizationTheorems.RuntimeFailureExcludesCompletion` | runtime/canx/runtime/service.py:540-652 | a failure the runtime ever holds excludes a COMPLETED row before, then and later |
| `FinalizationTheorems.PendingStopSettlesTruthfully` | runtime/canx/runtime/service.py:654-697 | every stop that ended PENDING, a failed capture's included, settles to IDLE exactly when the row is COMPLETED, to FAILED otherwise, and the verdict stays true |
| `FinalizationTheorems.NewCaptureIsNotClobbered` | runtime/canx/runtime/service.py:303-309 | no capture may start while a finalization is unsettled, and once one may, the old capture no longer changes the runtime |
| `FinalizationTheorems.IdleIsCompletedUnlessTheRecorderFailed` | runtime/canx/runtime/service.py:465-518 | an IDLE capture's row is COMPLETED exactly when its recorder holds no failure |
| `FinalizationProgress.AStopCommitsExactlyInTime` | runtime/canx/recorder/project_recorder.py:447-459 | in an undisturbed run, for every start time: once the worker is done the row is COMPLETED exactly when the gate was checked at least 250 ms before the time the cleanup began plus its budget, and FAILED otherwise; either way every frame handed over is committed |
| `FinalizationProgress.ADoneWorkerCheckedTheGate` | runtime/canx/recorder/project_recorder.py:394-445 | a worker that is done began with a cleanup and then checked the gate |
| `FinalizationProgress.AnUndisturbedStopEndsIdle` | runtime/canx/runtime/service.py:465-518 | an undisturbed stop finishes only after the worker is done, ends IDLE and stays so |
| `FinalizationProgress.WithoutFaultsTheRowIsDecided` | runtime/canx/recorder/project_recorder.py:411-445 | without a storage fault, whatever timeouts, failures and recoveries happen, a worker that is done leaves no ACTIVE row |
| `FinalizationProgress.AWriterThatFailsMarksItsRow` | runtime/canx/data/session.py:462-538 | a step that fails the writer leaves its thread holding the lock and about to write the failure to the row |
| `FinalizationProgress.AFailedWriterFailsItsRow` | runtime/canx/data/session.py:527-538 | that write turns an ACTIVE row FAILED unless the storage fails then, and leaves any other row alone |
| `FinalizationProgress.TheOutcomeIsKnownExactlyAfterwards` | runtime/canx/recorder/project_recorder.py:161-174 | the outcome is PENDING exactly until the worker lets go of the recorder, and then COMPLETED exactly over a COMPLETED row |
| `FinalizationProgress.ANewCaptureMayStartExactlyWhenSettled` | runtime/canx/runtime/service.py:303-309 | a new capture may start exactly when the stop has finished, the worker has let go and no settlement is awaited |
| `FinalizationProgress.AFinishedStopShowsTheTruth` | runtime/canx/runtime/service.py:465-518 | a finished stop shows FAILED exactly over a runtime failure, FINALIZING exactly while a verdict is awaited, IDLE otherwise |
| `FinalizationProgress.WorkerAdvances` | runtime/canx/recorder/project_recorder.py:394-445 | every step of the worker, faulty or not, brings it closer to its end, which is at most 18 steps away |
| `FinalizationProgress.NobodyWaitsInACircle` | runtime/canx/recorder/project_recorder.py:394-445 | a worker that is not done can step, or the thread that holds the lock it needs can |
| `FinalizationTheorems.AnIdleCaptureCanHaveFailed` | runtime/canx/recorder/project_recorder.py:394-461 | a fault-free run that ends IDLE over a FAILED row: a flush that leaves less than the grace makes the worker refuse |
| `FinalizationTheorems.OnlyRegistrationRevivesARow` | runtime/canx/data/repository.py:190-210 | a FAILED or INTERRUPTED row changes exactly when a segment registration lands, and then it is ACTIVE |
| `FinalizationTheorems.AFailedRowCanBeRevived` | runtime/canx/data/repository.py:190-210 | a reachable state in which the abandoned worker's registration turns a FAILED row ACTIVE again |
| `ProtocolCounts.RegistrationIsTheProtocols` | runtime/canx/data/session.py:484-525 | registering a segment is the protocol's registration step on the counters |
| `ProtocolCounts.AdvanceIsTheProtocols` | runtime/canx/data/repository.py:157-187 | the conditional state update is the protocol's, faulting exactly when the storage does |
| `ProtocolCounts.BooksBalanceInCounts` | runtime/canx/data/session.py:462-525 | the protocol's counters are the committed, buffered and accepted frames of the writer |
| `ProtocolCounts.FullCountMeansWholeSession` | runtime/canx/data/session.py:271-312 | a row that counts every accepted frame has them all in its segments |
| `FinalizationSafety.StepKeepsInv` | runtime/canx/recorder/project_recorder.py:394-491 | every step of every thread keeps the protocol's invariant |
| `SegmentStore.CrashSafeInspectsClean` | runtime/canx/data/session.py:789-841 | inspecting a crash-safe disk finds no missing or mismatched segment, and at most the next segment's file as temporary or orphan |
| `SegmentStore.InspectIntegrity` | runtime/canx/data/session.py:789-841 | the four reports list exactly the temporary files, unregistered segment files, rows without a file, and rows of a different size |
| `SegmentStore.RegisteredSegmentsReadBack` | runtime/canx/data/session.py:675-738 | what was registered before a crash reads back unchanged, and passes every check, on any later disk |
| `SegmentStore.ReadsExactly` | runtime/canx/data/session.py:675-738 | a read returns frames exactly when the registered file is complete, carries the index, and agrees with its row in size, frame count and sequence bounds |
| `SegmentStore.CountersCountTheCommittedFrames` | runtime/canx/data/session.py:497-510 | the session's frame count is the number of committed frames |
| `SegmentStore.RegistrationIsSafe` | runtime/canx/data/repository.py:190-210 | the registration transaction keeps the disk crash-safe and appends exactly the segment's frames |
| `SegmentStore.UnregisteredFilesAreSafe` | runtime/canx/data/parquet.py:82-106 | steps that only touch unregistered files keep the disk crash-safe |
| `SegmentStore.ProjectStore.WriteSegment` | runtime/canx/data/parquet.py:59-107 | a segment file appears complete under its final name exactly when the storage has no fault; a failure touches nothing but the temporary file, and removes it unless the removal fails too |
| `SegmentStore.ProjectStore.RegisterSegment` | runtime/canx/data/repository.py:190-210 | the segment row and the session row land together or, exactly after a fault, neither does |
| `SegmentStore.ProjectStore.AdvanceState` | runtime/canx/data/repository.py:157-269 | without a fault an ACTIVE row moves, any other stays, and the caller learns which |
| `QueryPaging.EveryCrashPointIsQueryable` | runtime/canx/data/session.py:462-525 | at every durable step of a writer: counters are sums, registered segments read back, and queries see a consecutive prefix of the accepted frames |
| `SessionWriter.DataSessionWriter.Append` | runtime/canx/data/session.py:217-251 | a refused batch changes nothing and gets the first failing check's error; an accepted one is kept in the books and whatever it fills is committed in full segments, which fails exactly when the storage does and then fails an ACTIVE row too, unless that update met a fault |
| `SessionWriter.DataSessionWriter.FlushFullSegments` | runtime/canx/data/session.py:456-460 | cuts only full segments and leaves less than one in the buffer; fails exactly when the storage does |
| `SessionWriter.DataSessionWriter.CommitSegment` | runtime/canx/data/session.py:462-525 | one more segment with exactly these frames, exactly when the storage has no fault; else a FAILED session whose committed frames are as before and whose row is FAILED too if it was ACTIVE and its update met no fault |
| `SessionWriter.DataSessionWriter.OrderedTimestamps` | runtime/canx/data/session.py:416-454 | the adjacent comparison accepts exactly the batches whose timestamps never step back, across the batch boundary too |
| `SessionWriter.DataSessionWriter.FlushPending` | runtime/canx/data/session.py:253-269 | commits the buffer as one segment and stays ACTIVE exactly when the session is ACTIVE and the storage has no fault; else ends FAILED, the row as well unless its update met a fault |
| `SessionWriter.DataSessionWriter.CommitCompleted` | runtime/canx/data/session.py:271-312 | moves the row to COMPLETED exactly from ACTIVE without a fault, and flushes nothing itself; each failure has its own error, and only a fault in the update can leave an ACTIVE row behind |
| `SessionWriter.DataSessionWriter.Finalize` | runtime/canx/data/session.py:314-323 | succeeds exactly when the session is ACTIVE, the storage has no fault, and the row is ACTIVE or a last segment makes it so; then every accepted frame is committed and counted under a COMPLETED row |
| `SessionWriter.DataSessionWriter.Fail` | runtime/canx/data/session.py:330-360 | only an ACTIVE session fails; an ACTIVE row fails with it unless the update met a fault, any other row and the committed frames stay as they were |
| `SessionWriter.DataSessionWriter.MarkFailed` | runtime/canx/data/session.py:527-538 | the session is FAILED in memory; the row is FAILED exactly if it was ACTIVE and its one update met no fault, and unchanged otherwise |
| `SessionWriter.AcceptedBatchKeepsOrder` | runtime/canx/data/session.py:386-454 | a batch that passes the checks keeps the session consecutive and ordered |
| `SessionWriter.SegmentBoundsAreExtremes` | runtime/canx/data/session.py:470-472 | a segment's recorded first and last are the true minimum and maximum of its sequence numbers and timestamps, and span exactly its frames |
| `SessionWriter.SegmentsAreContiguous` | runtime/canx/data/session.py:386-414 | each segment starts right after the one before it |
| `FrameQueries.FramePredicates` | runtime/canx/query/engine.py:225-281 | the clauses built for a filter hold of exactly the frames the filter describes |
| `FrameQueries.MaskedIdsAgreeOnTheMask` | runtime/canx/query/engine.py:265-271 | a masked filter selects, of what it selects without the mask, exactly the frames whose id agrees with the value on every bit set in the mask |
| `Bitwise.AndBitByBit` | runtime/canx/query/engine.py:265-271 | each bit of a conjunction is the product of the two bits, for all numbers |
| `FrameQueries.PlannedExactlyWhenItMayHold` | runtime/canx/query/planning.py:77-113 | a segment is planned exactly when some sequence number of its range is within the filter's bounds and some is past the cursor |
| `FrameQueries.PruningLosesNothing` | runtime/canx/query/planning.py:77-113 | a query over the planned segments selects exactly what one over all segments selects |
| `FrameQueries.StatementSelectsFromTheSession` | runtime/canx/query/engine.py:95-116 | pruned, filtered and ordered, the statement yields the selection from the flat list of committed frames |
| `FrameQueries.CandidatePaths` | runtime/canx/query/service.py:205-226 | refuses exactly when some planned segment disagrees with its file |
| `FrameQueries.ValidatedExactly` | runtime/canx/query/service.py:253-300 | a planned segment passes exactly when its canonical file is complete, carries its index and has the registered size and frame count |
| `FrameQueries.QueryFrames` | runtime/canx/query/service.py:68-96 | succeeds exactly when no segment that may match is damaged, and on a written session returns the page of the flat selection |
| `QueryPaging.WalkReadsThePrefix` | runtime/canx/query/engine.py:95-116 | following the cursor over a growing session yields a prefix of the filtered session; a page without more completes its own snapshot |
| `QueryPaging.WalkNeverRepeats` | runtime/canx/query/service.py:165-203 | the pages of a walk ascend strictly, so no frame comes twice |
| `QueryPaging.PagingDuringTheCapture` | runtime/canx/query/service.py:165-203 | a client paging through the disks a writer leaves behind gets a prefix of the filtered frames the writer accepted |
| `QueryPaging.CursorDropsAPrefix` | runtime/canx/query/engine.py:97-99 | a cursor drops exactly the part of the selection at or before it |
| `QueryPaging.SummarizeFrames` | runtime/canx/query/service.py:98-117 | the summary over the planned segments is the count and the extremes over the whole session |
| `TaskGraph.OrderedIds` | tools/agent/graph.py:187-220 | succeeds exactly on acyclic graphs, with a topological order that is greedy under the key; the error names exactly the tasks that lead into a cycle |
| `DependencyOrder.GreedyIsLeast` | tools/agent/graph.py:187-220 | the greedy order is the lexicographically least order that respects the dependencies |
| `DependencyOrder.UnplacedIdsAreTheCyclicOnes` | tools/agent/graph.py:213-219 | when no task is available any more, the unplaced ones are exactly those on a cycle or depending on one |
| `DependencyOrder.StuckIdsLeadToACycle` | tools/agent/graph.py:213-219 | from any stuck task a chain of dependencies runs into a cycle |
| `DependencyOrder.DownstreamOfACycle` | tools/agent/graph.py:213-219 | a task that leads into a cycle, and so is named, without being on one |
| `DependencyOrder.LeadingMeansBeingOnExactly` | tools/agent/graph.py:213-219 | everything that leads into a cycle is on one exactly when nothing off every cycle depends on a task on one |
| `TaskGraph.InCycleNamesOnlyMembersExactly` | tools/agent/graph.py:213-219 | the error detail names only members of cycles under exactly that condition |
| `TaskGraph.BuildChildren` | tools/agent/graph.py:193-201 | repeated dependencies are recorded and counted consistently |
| `Orchestration.Build` | tools/agent/graph.py:40-70 | accepts exactly valid, unique ids with known, acyclic dependencies, and names the right kind of defect |
| `Orchestration.Readiness` | tools/agent/graph.py:113-140 | what has not started is READY or BLOCKED by its dependencies alone |
| `Orchestration.IntegrationOrderFreezesContractsFirst` | tools/agent/graph.py:170-185 | where a task is placed while another is available too: if the other owns a path overlapping a public truth, so does it; among tasks of one kind the smaller id is first |
| `IdOrder.StringLessMeans` | tools/agent/graph.py:179-185 | the smaller id is a proper prefix of the other or has the smaller character where they first differ |
| `PlanMeaning.IdsAreSpelledOut` | tools/agent/contracts.py:29-31 | a task id is one letter or digit, or two with at most 62 letters, digits, ".", "_" or "-" between them, and one trailing newline passes |
| `Conflicts.ClassifyAll` | tools/agent/conflicts.py:140-148 | every unordered pair is classified, and nothing else is listed |
| `Planner.Plan` | tools/agent/orchestration.py:177-259 | every task gets its derived status, its serial-review flag and the earlier tasks it waits for, is deferred for capacity exactly when it is a candidate outside the wave, and is runnable exactly when it is in it; the integration order puts contract-freezing tasks first, then goes by id |
| `PlanMeaning.RunnableExactly` | tools/agent/orchestration.py:177-259 | a task is in the wave exactly when it is recorded as not started, its dependencies and the earlier tasks it conflicts with are DONE, and the IN_PROGRESS tasks together with the eligible ones before it are fewer than the cap |
| `PlanMeaning.CountingRunningTasks` | tools/agent/orchestration.py:218-228 | the occupied slots are the tasks recorded IN_PROGRESS, and the free ones what the cap leaves |
| `Planner.CollectWaits` | tools/agent/orchestration.py:206-216 | the two dictionaries list exactly the owners each task waits for, split by the owner's status |
| `Planner.ConflictBlocker` | tools/agent/validation.py:783-830 | lists exactly the earlier conflicting tasks that have not landed |
| `SchedulerRuns.ConflictingTasksNeverOverlap` | tools/agent/orchestration.py:206-216 | in every run, of two conflicting tasks at most one is in flight, and the second starts only after the first has landed |
| `SchedulerRuns.RunStaysSerialised` | tools/agent/orchestration.py:177-259 | in every run, whoever has started found its dependencies and the earlier conflicting tasks landed |
| `SchedulerRuns.DispatchedTasksPassTheGate` | tools/agent/validation.py:783-830 | the integration gate never refuses a task that was dispatched by the plan |
| `SchedulerRuns.GateOfADispatchedTask` | tools/agent/validation.py:783-830 | run for a dispatched task, the gate's loop returns an empty list |
| `SchedulerRuns.AnAbandonedOwnerBlocksForGood` | tools/agent/orchestration.py:213-216 | after an owner has failed or been cancelled a later conflicting task never starts |
| `SchedulerRuns.RunsKeepCapacity` | tools/agent/orchestration.py:218-228 | running agents never exceed the configured number, or what was already running |
| `SchedulerRuns.WaveFillsTheSlots` | tools/agent/orchestration.py:218-237 | the wave fits the free slots and leaves one idle only when no candidate remains |
| `SchedulerRuns.DispatchKeepsTheRestOfTheWave` | tools/agent/orchestration.py:230-237 | starting one task of a wave leaves every other one runnable in the next plan |
| `SchedulerRuns.SchedulerNeverDeadlocks` | tools/agent/orchestration.py:230-250 | with nothing in flight and nothing given up, the first task that has not landed is runnable |
| `SchedulerRuns.EveryHealthyStateCanFinish` | tools/agent/lifecycle.py:32-61 | from every state in which nothing was given up some run of the scheduler lands every task |
| `Lifecycle.PoliciesFollowTheTransitions` | tools/agent/lifecycle.py:98-136 | a conflict lease is held exactly by a task that has not landed and still can by allowed transitions; an owner needs a replan exactly when it never can |
| `Lifecycle.TransitionsExactly` | tools/agent/lifecycle.py:32-61 | read by destination: each stage is entered from the one before only, READY from waiting only, a landed or abandoned task never moves, a handed-off one is never cancelled, and only a started or blocked one fails |
| `Lifecycle.LandingPassesEveryStage` | tools/agent/lifecycle.py:32-61 | no sequence of allowed transitions lands a waiting task without making it READY, starting it, handing it off and integrating it |
| `Globs.CompileGlob` | tools/agent/paths.py:100-123 | the index-driven loop emits the tokens of the pattern |
| `GlobMeaning.StarSpansOneSegment` | tools/agent/paths.py:114-116 | a text is covered past * exactly when what follows some '/'-free beginning is covered by the rest |
| `GlobMeaning.QuestionMarkSpansOneCharacter` | tools/agent/paths.py:117-119 | ? spans exactly one character other than '/' |
| `GlobMeaning.DoubleStarSlashSpansDirectories` | tools/agent/paths.py:107-110 | a double star with a slash spans exactly any number of non-empty directories |
| `GlobMeaning.DoubleStarSpansOneLine` | tools/agent/paths.py:107-113 | a double star spans exactly the texts without a newline |
| `GlobMeaning.SingleStarsKeepTheDepth` | tools/agent/paths.py:100-128 | a path covered by a pattern without a double star has exactly as many '/' as the pattern |
| `GlobMeaning.LiteralPrefixEndsAtTheFirstWildcard` | tools/agent/paths.py:139-144 | the literal prefix is what precedes the first wildcard |
| `GlobMeaning.OverlapWithALiteralIsExact` | tools/agent/paths.py:147-166 | where one pattern is a literal without a trailing newline, patterns overlap exactly when they share a path |
| `GlobMeaning.OverlapOfGlobsIsPrefixAgreement` | tools/agent/paths.py:147-166 | two wildcard patterns overlap exactly when some text begins with both literal prefixes |
| `Globs.OverlapIsConservative` | tools/agent/paths.py:147-166 | patterns that share a path overlap |
| `Globs.OverlapIsConservativeExactly` | tools/agent/paths.py:147-166 | ... for all patterns exactly when the path has a wildcard or no trailing newline |
| `Globs.LiteralMatches` | tools/agent/paths.py:100-128 | a pattern without wildcards covers itself, and itself with a trailing newline |
| `Globs.MatchStartsWithPrefix` | tools/agent/paths.py:139-144 | a covered path starts with the pattern's literal prefix |
| `PatternText.RawComparisonIsSafeExactlyWhenTrimmed` | tools/agent/conflicts.py:102-137 | comparing a raw pattern misses no shared path exactly when the pattern is trimmed already |
| `Conflicts.ClassifyPair` | tools/agent/conflicts.py:102-137 | the level is the highest any overlapping patterns reach, and the overlaps are exactly those |
| `Conflicts.PairLevelMeans` | tools/agent/conflicts.py:86-137 | a pair is C0 exactly without an overlap, C4 exactly when an overlap touches a safety path, at least C3 exactly when one touches a safety path or a public truth, and at least C2 exactly when one touches those or a declared shared contract |
| `Conflicts.BlocksMeans` | tools/agent/conflicts.py:86-137 | two tasks block each other exactly when an overlap of theirs touches a safety path, a public truth or a contract one of them declares shared |
| `Conflicts.SerialReviewMeans` | tools/agent/conflicts.py:160-172 | serial review is required exactly of safety-critical tasks and of those allowed to touch a safety path |
| `Conflicts.BlocksIsSymmetric` | tools/agent/conflicts.py:102-137 | whether two tasks conflict does not depend on their order |
| `Conflicts.OwnersOfOnePathConflict` | tools/agent/conflicts.py:102-137 | with trimmed patterns, tasks classified C0 own disjoint sets of paths |
| `Conflicts.AnUntrimmedPatternCanHideAConflict` | tools/agent/conflicts.py:102-137 | two tasks that own one path and are classified C0, because one pattern carries a space |
| `Ownership.ValidatePaths` | tools/agent/validation.py:218-289 | accepts exactly the surfaces the rules allow, and names the first rule a task breaks |
| `PathMeaning.AcceptsMeans` | tools/agent/validation.py:218-289 | the accepted surfaces: something is allowed, all patterns are sound, what is allowed is apart from what is forbidden and, without a main agent, from the protected paths, and integration paths are plain files apart from everything governed or forbidden |
| `PathMeaning.OwnsMeans` | tools/agent/validation.py:313-324 | a path is owned exactly when the patterns are sound and one of them, trimmed, covers it; integration paths count for native shared tasks only |
| `PathMeaning.NormalizesExactly` | tools/agent/paths.py:77-97 | a pattern is accepted, as its trimmed text, exactly when that has no NUL, backslash or drive letter and only proper segments |
| `PathMeaning.TrimRemovesOnlySpace` | tools/agent/paths.py:33-57 | trimming takes white space from both ends and nothing else |
| `Ownership.AcceptedTasksOwnNothingForbidden` | tools/agent/validation.py:223-289 | no owned path of an accepted task is forbidden, and without a main agent none is protected |
| `PatternText.NormalizedPathsStayInside` | tools/agent/paths.py:60-74 | a normalised path consists of proper segments only, with no parent step |
| `PathMeaning.PathNormalizesExactly` | tools/agent/paths.py:60-74 | a path is accepted exactly when its trimmed text is not empty, foreign or absolute and its collapsed segments neither vanish nor begin with a parent step |
| `PathMeaning.DotsMakeNoDifference` | tools/agent/paths.py:60-74 | empty and "." segments change nothing, wherever they are |
| `PathMeaning.ParentStepsCancel` | tools/agent/paths.py:60-74 | a segment and the parent step after it cancel, wherever they are |
| `PathMeaning.CollapsedStays` | tools/agent/paths.py:60-74 | parent steps followed by proper segments are left as they are |
| `PathMeaning.SegmentsAreTheParts` | tools/agent/paths.py:77-97 | the parts of a split are the stretches between two slashes or ends |
| `Ownership.OwnershipViolations` | tools/agent/validation.py:313-324 | refuses what does not normalise, and lists exactly the normalised changed files that nothing owns or something forbids |
| `Ownership.AcceptedTaskViolations` | tools/agent/validation.py:313-324 | for an accepted task a path is a violation exactly when no pattern owns it |
| `DbcImport.DecodeStrictBase64` | runtime/canx/api/dbc.py:309-340 | for every step size that is a multiple of four, the stepwise decoder accepts and yields what one strict decode does |
| `DbcImport.DecodeImportContent` | runtime/canx/api/dbc.py:258-306 | accepts exactly the strict encodings of 1 to 16777216 bytes, and separates empty, oversized and malformed content |
| `DbcImport.DocumentsWithinTheBoundPass` | runtime/canx/api/dbc.py:115-120 | the character guard admits every document within the byte bound, and it arrives unchanged |
| `DbcImport.TheGuardIsNotTheBound` | runtime/canx/api/dbc.py:267-290 | the character guard alone admits up to two bytes too many |
| `DbcImport.DecodeSplits` | runtime/canx/api/dbc.py:309-340 | whole unpadded quanta decode on their own |
| `DbcImport.EarlyPaddingIsRefused` | runtime/canx/api/dbc.py:309-340 | padding before the last step makes the whole text malformed |
| `Base64.DecodeInvertsEncode` | runtime/canx/api/dbc.py:343-352 | decoding inverts encoding |
| `Base64.DecodesExactly` | runtime/canx/api/dbc.py:343-352 | a text decodes exactly when it is whole quanta of the alphabet with at most two "=" at the end |
| `Base64.SextetsAreTheAlphabet` | runtime/canx/api/dbc.py:343-352 | a character stands for its place in the alphabet of RFC 4648, and no other character for anything |
| `Base64.QuantumIsOneNumber` | runtime/canx/api/dbc.py:343-352 | each quantum is one number, read as four digits and written as three bytes; a padded one loses the bits of its last byte begun |
| `Base64.EncodeInvertsDecodeExactly` | runtime/canx/api/dbc.py:343-352 | a text that decodes comes back from encoding exactly when its pad bits are zero |
| `Base64.PadBitsAreLost` | runtime/canx/api/dbc.py:343-352 | two texts that decode to the same byte |
| `Base64.DecodedLength` | runtime/canx/api/dbc.py:115-120 | a text that decodes has four characters for every three bytes begun |
| `RecordingFile.ReadRecording` | runtime/canx/recorder/msgpack_recorder.py:160-174 | the read loop computes the parse of the file |
| `RecordingFile.ReadsExactly` | runtime/canx/recorder/msgpack_recorder.py:160-174 | a file reads as these batches exactly when it is the magic and then, to the last byte, length-prefixed payloads that decode to them |
| `RecordingFile.RecordingReadsBack` | runtime/canx/recorder/msgpack_recorder.py:160-174 | reading back a recording yields the appended batches |
| `RecordingFile.TruncationIsAPrefixOrRefused` | runtime/canx/recorder/msgpack_recorder.py:160-174 | a cut recording reads back as the batches before the cut exactly when cut at a chunk boundary, and is refused otherwise |
| `MsgpackRecorder.Recorder.Append` | runtime/canx/recorder/msgpack_recorder.py:89-120 | each refusal happens exactly under its condition and changes nothing; otherwise the chunk lands whole or, exactly after a fault, in part with the first diagnostic kept, and its frames are counted exactly when the call returns normally |
| `MsgpackRecorder.Recorder.Stop` | runtime/canx/recorder/msgpack_recorder.py:122-157 | the file is closed whatever happens; exactly a failing flush or close is reported, and it leaves a prefix |
| `MsgpackRecorder.Recorder.Start` | runtime/canx/recorder/msgpack_recorder.py:64-87 | a running recorder is left alone, a failing open is kept as the first diagnostic, and a start begins an empty recording |
| `MsgpackRecorder.WhatAFailedFlushLeaves` | runtime/canx/recorder/msgpack_recorder.py:122-174 | what a failed flush leaves reads back as a prefix of the batches or is refused |
| `StreamAccounting.RunStream` | runtime/canx/runtime/service.py:725-766 | in every run the consumed frames are the normalized arrivals less the dropped ones, in order; the published lists are batches that spell them out; and the gaps are the frames missing between their ends |
| `StreamAccounting.EveryListIsABatch` | runtime/canx/runtime/service.py:753-764 | every published list is non-empty, contiguous and at most a batch long |
| `StreamAccounting.FrameSubscriber.Publish` | runtime/canx/capture/subscriber.py:57-80 | a full queue drops its oldest frame, and the drop is counted |
| `StreamAccounting.FrameSubscriber.NothingIsLost` | runtime/canx/capture/subscriber.py:57-80 | published is consumed plus queued plus dropped |
| `StreamAccounting.StreamConsumer.Handle` | runtime/canx/runtime/service.py:746-764 | one consumed frame: a break publishes what is pending, the frame joins what is left, a full list is published at once and nothing else is; the gap count stays in balance |
| `StreamAccounting.GapsFillTheSpan` | runtime/canx/runtime/service.py:747-752 | over ascending frames the counted gaps are last - first + 1 - consumed |
| `StreamAccounting.PickedAscends` | runtime/canx/capture/subscriber.py:57-94 | what leaves a drop-oldest queue ascends |
| `StreamAccounting.TimestampNormalizer.Normalize` | runtime/canx/capture/normalizer.py:15-25 | the frame comes out as the next one of the normalized stream: numbered consecutively, its time relative to the first and never negative |
| `StreamAccounting.NormalizingOneMore` | runtime/canx/capture/normalizer.py:15-25 | a stream grows by one normalized frame and keeps what it had |
| `CaptureTimeline.NormalizedTimelineIsOrderedExactly` | runtime/canx/capture/normalizer.py:15-25 | the normalized timestamps of any stretch of a capture are ordered exactly when the host clock never steps back there past the first frame's time |
| `CaptureTimeline.SteppingClockIsRefusedExactly` | runtime/canx/data/session.py:416-454 | a writer offered the next stretch of a capture accepts it exactly when the clock stepped back nowhere, and otherwise refuses it for its timestamps |
| `CaptureTimeline.ATimelineThatStepsBack` | runtime/canx/capture/normalizer.py:15-25 | host times 0, 2, 1 through the normalizer give a timeline that steps back |
| `CommitEvidence.CommitEvidenceBlocker` | tools/agent/validation.py:618-663 | a ready handoff passes exactly when its tokens and the commits of the range correspond one to one |
| `CommitEvidence.TheTokenIsTheFirstWord` | tools/agent/validation.py:613-615 | the token of a line is its first maximal run of characters other than space |
| `CommitEvidence.TokensAreThoseOfTheLines` | tools/agent/validation.py:637-640 | the reported tokens are those of the lines, lower-cased, without empty ones |
| `CommitEvidence.RepeatedTokensAreThoseOfTwoLines` | tools/agent/validation.py:637-643 | a token is reported twice exactly when two lines have it |
| `CommitEvidence.MatchTokens` | tools/agent/validation.py:644-656 | succeeds only when every token is a prefix of exactly one commit |
| `CommitEvidence.OneToOneTokensAreDistinct` | tools/agent/validation.py:642-643 | a one-to-one correspondence has no repeated token and no repeated commit |
| `CommitEvidence.PassingHandoffsCountTheCommits` | tools/agent/validation.py:657-660 | a passing handoff reports as many tokens as there are commits |

## Left out

- Scaling to a physical value, its finiteness check and float payload layouts: the raw value is modelled, scaling is a function that may fail.
- The decoder cache, asset registry, DBC text parsing and every HTTP, WebSocket, CLI and user-interface layer: transport, or foreign parsers.
- Finalization faults other than `DataError` during the flush, which would run the `finally` block without a recorded failure; several captures in one run; `reset_session`; `aclose` except that it may abandon the settlement task.
- Whether an abandoned thread ever runs again and how long a step takes: the worker's end is proved in steps, not in time.
- Several sessions in one store, a row another process changes between two operations of one call, session directory creation, row timestamps, identifiers, path resolution and symbolic links, and power loss: file operations are atomic and a stopped process leaves the last recorded disk.
- A registration whose transaction lands although it reports an error: an error means neither row landed.
- SegmentStore.ReadSegment: checks in the source's order, but a frame that fails validation while being rebuilt is not modelled.
- FrameQueries.CandidatePaths: a file name is a segment index, so path containment cannot fail, and of the footer only completeness and the segment index are kept; session and stream identity and column layout are left out.
- DuckDB itself: a statement is its WHERE, ORDER BY and LIMIT on the scanned frames. The arbitration-id histogram is left out, its ties are not ordered by the query.
- Filter validation, the maximum page size and the per-session check of `plan_segments`: single-branch argument checks.
- TaskGraph.OrderedIds: tasks carry no status here; statuses are a map beside them, and the order reads none.
- Planner.Plan: the deferral lists are sets, as the source deduplicates them; their sorted order and the dictionary rendering are left out.
- Conflicts.ClassifyPair: the reason texts of an overlap are left out.
- Ownership.ValidatePaths: the path rules only; identifiers, tests, criteria and shared-contract references are checked elsewhere in `validate_task` and left out.
- Base64.Decode: follows RFC 4648, sections 3.2, 3.3 and 4, not a particular library; asynchronous hand-over between steps is left out.
- MsgpackRecorder.Recorder.Append: the write of a cancelled call takes effect at once, not while a later call runs.
- StreamAccounting.RunStream: the lossy stream path only; the lossless archive queue with its publication deadline, `disable` and callbacks that raise are left out.
- Handoff checks other than ownership, the commit range and conflicts, and the platform gate: field comparisons.
