/** Whole runs of the scheduler: the task set is fixed, statuses move by allowed lifecycle steps,
    and a task enters IN_PROGRESS only when the plan of that moment calls it runnable. */
module SchedulerRuns {
  import opened IdOrder
  import opened DependencyOrder
  import opened Lifecycle
  import opened TaskGraph
  import opened Ownership
  import opened Conflicts
  import opened Orchestration
  import opened Planner

  predicate InFlight(s: TaskStatus) {
    s.InProgress? || s.HandoffReady? || s.Integrating?
  }

  ghost predicate Moves(b: Board, s: Statuses, t: Statuses, x: string, d: TaskStatus)
    requires ValidState(b, s)
  {
    && x in GraphOf(b.tasks) && CanTransition(s[x], d) && t == s[x := d]
    && (d.InProgress? ==> x in Wave(b, s))
  }

  ghost predicate Step(b: Board, s: Statuses, t: Statuses)
    requires ValidState(b, s)
  {
    exists x, d :: Moves(b, s, t, x, d)
  }

  ghost predicate Run(b: Board, run: seq<Statuses>) {
    && run != []
    && (forall i :: 0 <= i < |run| ==> ValidState(b, run[i]))
    && (forall i :: 0 < i < |run| ==> StepsTo(b, run, i))
  }

  ghost predicate StepsTo(b: Board, run: seq<Statuses>, i: nat)
    requires 0 < i < |run|
  {
    ValidState(b, run[i - 1]) && Step(b, run[i - 1], run[i])
  }

  /** x must find y landed: y owns a shared surface first, or x depends on y. */
  ghost predicate Needs(b: Board, x: string, y: string) {
    && x in GraphOf(b.tasks) && y in GraphOf(b.tasks)
    && (WaitsFor(b, x, y) || y in GraphOf(b.tasks)[x])
  }

  /** Whoever has started found its dependencies and the earlier conflicting tasks landed. */
  ghost predicate Serialised(b: Board, s: Statuses)
    requires ValidState(b, s)
  {
    forall x, y :: Needs(b, x, y) && Underway(s[x]) ==> s[y].Done?
  }

  // ----- one step -----------------------------------------------------------

  lemma DoneIsDerivedDone(b: Board, s: Statuses, x: string)
    requires ValidState(b, s) && x in GraphOf(b.tasks)
    ensures Derived(b.tasks, s, x).Done? <==> s[x].Done?
    ensures Derived(b.tasks, s, x).Ready? <==> NotStarted(s[x]) && AllDone(GraphOf(b.tasks)[x], s)
  {
  }

  lemma WaveIsReady(b: Board, s: Statuses, x: string)
    requires ValidState(b, s) && x in Wave(b, s)
    ensures x in GraphOf(b.tasks) && Candidate(b, s, x)
    ensures AllDone(GraphOf(b.tasks)[x], s)
    ensures forall y :: WaitsFor(b, x, y) && y in GraphOf(b.tasks) ==> s[y].Done?
  {
    OrderHoldsTheIds(b);
    CandidatesAreTheCandidates(b, s, |b.order|);
    assert b.order[..|b.order|] == b.order;
    assert x in CandidatesUpTo(b, s, |b.order|);
    DoneIsDerivedDone(b, s, x);
    forall y | WaitsFor(b, x, y) && y in GraphOf(b.tasks) ensures s[y].Done? {
      DoneIsDerivedDone(b, s, y);
    }
  }

  lemma StepKeepsTheOrder(b: Board, s: Statuses, t: Statuses, x: string, y: string)
    requires ValidState(b, s) && ValidState(b, t) && Step(b, s, t) && Needs(b, x, y)
    requires Underway(s[x]) ==> s[y].Done?
    ensures Underway(t[x]) ==> t[y].Done?
  {
    var z, d :| Moves(b, s, t, z, d);
    if z == x && d.InProgress? {
      WaveIsReady(b, s, x);
      if y in GraphOf(b.tasks)[x] {
        var i :| 0 <= i < |GraphOf(b.tasks)[x]| && GraphOf(b.tasks)[x][i] == y;
      }
    }
  }

  // ----- whole runs ---------------------------------------------------------

  lemma {:induction false} RunKeepsTheOrder(b: Board, run: seq<Statuses>, i: nat, x: string, y: string)
    requires Run(b, run) && i < |run| && Needs(b, x, y)
    requires Underway(run[0][x]) ==> run[0][y].Done?
    ensures Underway(run[i][x]) ==> run[i][y].Done?
  {
    if i > 0 {
      RunKeepsTheOrder(b, run, i - 1, x, y);
      assert StepsTo(b, run, i);
      StepKeepsTheOrder(b, run[i - 1], run[i], x, y);
    }
  }

  lemma RunStaysSerialised(b: Board, run: seq<Statuses>, i: nat)
    requires Run(b, run) && Serialised(b, run[0]) && i < |run|
    ensures Serialised(b, run[i])
  {
    forall x, y | Needs(b, x, y) ensures Underway(run[i][x]) ==> run[i][y].Done? {
      RunKeepsTheOrder(b, run, i, x, y);
    }
  }

  lemma ConflictingIsSymmetric(tasks: seq<Task>, config: Config, x: string, y: string)
    requires UniqueIds(tasks) && Conflicting(tasks, config, x, y)
    ensures Conflicting(tasks, config, y, x) && x in GraphOf(tasks) && y in GraphOf(tasks)
  {
    GraphHolds(tasks);
    var i, j :| 0 <= i < |tasks| && 0 <= j < |tasks| && i != j && tasks[i].id == x && tasks[j].id == y
      && Blocks(tasks[i], tasks[j], config);
    BlocksIsSymmetric(tasks[i], tasks[j], config);
  }

  lemma OneIsEarlier(b: Board, x: string, y: string)
    requires ValidBoard(b) && x in GraphOf(b.tasks) && y in GraphOf(b.tasks) && x != y
    ensures Earlier(b.order, x, y) || Earlier(b.order, y, x)
  {
    OrderHoldsTheIds(b);
    EarlierByIndex(b.order, x, y);
    EarlierByIndex(b.order, y, x);
  }

  lemma ConflictsAreOrdered(b: Board, x: string, y: string)
    requires ValidBoard(b) && Conflicting(b.tasks, b.config, x, y) && x != y
    ensures x in GraphOf(b.tasks) && y in GraphOf(b.tasks)
    ensures WaitsFor(b, x, y) || WaitsFor(b, y, x)
  {
    ConflictingIsSymmetric(b.tasks, b.config, x, y);
    OneIsEarlier(b, x, y);
  }

  /** No two conflicting tasks are ever in flight together; one starts only after the other has
      been integrated. */
  lemma ConflictingTasksNeverOverlap(b: Board, run: seq<Statuses>, i: nat, x: string, y: string)
    requires Run(b, run) && Serialised(b, run[0]) && i < |run|
    requires Conflicting(b.tasks, b.config, x, y) && x != y
    ensures x in run[i] && y in run[i]
    ensures !(InFlight(run[i][x]) && InFlight(run[i][y]))
    ensures Underway(run[i][x]) && Underway(run[i][y]) ==> run[i][x].Done? || run[i][y].Done?
  {
    ConflictsAreOrdered(b, x, y);
    if WaitsFor(b, x, y) {
      assert Needs(b, x, y);
      RunKeepsTheOrder(b, run, i, x, y);
    } else {
      assert Needs(b, y, x);
      RunKeepsTheOrder(b, run, i, y, x);
    }
  }

  /** The integration gate lists nobody for a task that was dispatched by the plan. */
  lemma DispatchedTasksPassTheGate(b: Board, run: seq<Statuses>, i: nat, x: string, y: string)
    requires Run(b, run) && Serialised(b, run[0]) && i < |run|
    requires x in GraphOf(b.tasks) && Underway(run[i][x])
    ensures WaitsFor(b, x, y) ==> y in GraphOf(b.tasks) && Derived(b.tasks, run[i], y).Done?
    ensures y in GraphOf(b.tasks)[x] ==> y in GraphOf(b.tasks) && Derived(b.tasks, run[i], y).Done?
  {
    RunStaysSerialised(b, run, i);
    if WaitsFor(b, x, y) {
      OrderHoldsTheIds(b);
      DoneIsDerivedDone(b, run[i], y);
    }
    if y in GraphOf(b.tasks)[x] {
      var k :| 0 <= k < |GraphOf(b.tasks)[x]| && GraphOf(b.tasks)[x][k] == y;
      DoneIsDerivedDone(b, run[i], y);
    }
  }

  /** ... so run on the plan's own conflicts and readiness, it returns an empty list. */
  method GateOfADispatchedTask(
    b: Board, ghost run: seq<Statuses>, ghost i: nat, task: string, conflicts: seq<PairConflict>, derived: Statuses)
    returns (waitingOn: seq<string>)
    requires Run(b, run) && Serialised(b, run[0]) && i < |run|
    requires task in GraphOf(b.tasks) && Underway(run[i][task])
    requires ListsConflicts(b.tasks, b.config, conflicts)
    requires derived.Keys == GraphOf(b.tasks).Keys && forall x :: x in derived ==> derived[x] == Derived(b.tasks, run[i], x)
    ensures waitingOn == []
  {
    waitingOn := ConflictBlocker(b, run[i], task, conflicts, b.order, derived);
    if waitingOn != [] {
      assert waitingOn[0] in waitingOn;
      DispatchedTasksPassTheGate(b, run, i, task, waitingOn[0]);
    }
  }

  lemma {:induction false} GivenUpIsForGood(b: Board, run: seq<Statuses>, i: nat, j: nat, y: string)
    requires Run(b, run) && i <= j < |run| && y in GraphOf(b.tasks) && RequiresReplan(run[i][y])
    ensures run[j][y] == run[i][y]
  {
    if i < j {
      GivenUpIsForGood(b, run, i, j - 1, y);
      assert StepsTo(b, run, j);
      var x, d :| Moves(b, run[j - 1], run[j], x, d);
    }
  }

  /** Once an owner has failed or been cancelled, a later conflicting task never starts: the plan
      has to change first. */
  lemma AnAbandonedOwnerBlocksForGood(b: Board, run: seq<Statuses>, i: nat, j: nat, x: string, y: string)
    requires Run(b, run) && Serialised(b, run[0]) && i <= j < |run|
    requires WaitsFor(b, x, y) && x in GraphOf(b.tasks) && y in GraphOf(b.tasks) && RequiresReplan(run[i][y])
    ensures !Underway(run[j][x])
  {
    GivenUpIsForGood(b, run, i, j, y);
    RunStaysSerialised(b, run, j);
  }

  // ----- capacity -----------------------------------------------------------

  ghost function ActiveCount(b: Board, s: Statuses): nat
    requires ValidState(b, s)
  {
    |ActiveUpTo(b, s, |b.order|)|
  }

  function One(p: bool): nat {
    if p then 1 else 0
  }

  lemma NextInOrder(b: Board, n: nat, x: string)
    requires ValidBoard(b) && 0 < n <= |b.order|
    ensures b.order[n - 1] in GraphOf(b.tasks)
    ensures x in b.order[..n] <==> x in b.order[..n - 1] || x == b.order[n - 1]
    ensures b.order[n - 1] !in b.order[..n - 1]
  {
    OrderHoldsTheIds(b);
    assert b.order[..n] == b.order[..n - 1] + [b.order[n - 1]];
  }

  lemma {:induction false} ActiveAfter(b: Board, s: Statuses, t: Statuses, x: string, n: nat)
    requires ValidState(b, s) && ValidState(b, t) && n <= |b.order| && x in s
    requires t.Keys == s.Keys && forall y :: y in s && y != x ==> t[y] == s[y]
    ensures |ActiveUpTo(b, t, n)| + One(x in b.order[..n] && OccupiesSlot(s[x]))
         == |ActiveUpTo(b, s, n)| + One(x in b.order[..n] && OccupiesSlot(t[x]))
  {
    if n > 0 {
      ActiveAfter(b, s, t, x, n - 1);
      NextInOrder(b, n, x);
    }
  }

  lemma StepKeepsCapacity(b: Board, s: Statuses, t: Statuses)
    requires ValidState(b, s) && ValidState(b, t) && Step(b, s, t)
    ensures ActiveCount(b, t) <= if ActiveCount(b, s) < b.config.maxSubAgents then b.config.maxSubAgents else ActiveCount(b, s)
  {
    var x, d :| Moves(b, s, t, x, d);
    ActiveAfter(b, s, t, x, |b.order|);
  }

  /** Running agents never exceed the configured number, or what was already running. */
  lemma {:induction false} RunsKeepCapacity(b: Board, run: seq<Statuses>, i: nat)
    requires Run(b, run) && i < |run|
    ensures ActiveCount(b, run[i]) <= b.config.maxSubAgents || ActiveCount(b, run[i]) <= ActiveCount(b, run[0])
  {
    if i > 0 {
      RunsKeepCapacity(b, run, i - 1);
      assert StepsTo(b, run, i);
      StepKeepsCapacity(b, run[i - 1], run[i]);
    }
  }

  /** The wave fits, and leaves a slot idle only when no candidate is left over. */
  lemma WaveFillsTheSlots(b: Board, s: Statuses)
    requires ValidState(b, s)
    ensures ActiveCount(b, s) + |Wave(b, s)| <= b.config.maxSubAgents || Wave(b, s) == []
    ensures |Wave(b, s)| < Slots(b, s) ==> forall x :: Candidate(b, s, x) ==> x in Wave(b, s)
  {
    OrderHoldsTheIds(b);
    CandidatesAreTheCandidates(b, s, |b.order|);
    assert b.order[..|b.order|] == b.order;
  }

  // ----- one wave, dispatched in any order ----------------------------------

  /** x is a candidate with fewer candidates before it than there are slots. */
  ghost predicate InWaveAt(b: Board, s: Statuses, k: nat)
    requires ValidState(b, s) && k < |b.order|
  {
    Candidate(b, s, b.order[k]) && |CandidatesUpTo(b, s, k)| < Slots(b, s)
  }

  lemma {:induction false} CandidatesGrow(b: Board, s: Statuses, k: nat, n: nat)
    requires ValidState(b, s) && k <= n <= |b.order|
    ensures CandidatesUpTo(b, s, k) <= CandidatesUpTo(b, s, n)
  {
    if k < n {
      CandidatesGrow(b, s, k, n - 1);
    }
  }

  lemma WaveByPosition(b: Board, s: Statuses, k: nat)
    requires ValidState(b, s) && k < |b.order|
    ensures b.order[k] in Wave(b, s) <==> InWaveAt(b, s, k)
  {
    var x, all := b.order[k], CandidatesUpTo(b, s, |b.order|);
    var at := |CandidatesUpTo(b, s, k)|;
    CandidatesAreTheCandidates(b, s, |b.order|);
    assert b.order[..|b.order|] == b.order;
    if Candidate(b, s, x) {
      CandidatesGrow(b, s, k + 1, |b.order|);
      assert all[at] == x;
      assert forall i :: 0 <= i < |all| && all[i] == x ==> i == at;
    }
  }

  /** s, where x is READY in effect, and t differ only in that x is now running. */
  ghost predicate Dispatched(b: Board, s: Statuses, t: Statuses, x: string)
    requires ValidState(b, s)
  {
    x in Wave(b, s) && x in s && NotStarted(s[x]) && t == s[x := InProgress]
  }

  lemma DispatchKeepsOtherCandidates(b: Board, s: Statuses, t: Statuses, x: string, z: string)
    requires ValidState(b, s) && ValidState(b, t) && Dispatched(b, s, t, x)
    ensures Candidate(b, t, z) <==> z != x && Candidate(b, s, z)
  {
    assert forall y :: y in s ==> (s[y].Done? <==> t[y].Done?);
    if z in GraphOf(b.tasks) {
      assert AllDone(GraphOf(b.tasks)[z], s) <==> AllDone(GraphOf(b.tasks)[z], t);
      assert forall y :: y in GraphOf(b.tasks) ==> (Derived(b.tasks, s, y).Done? <==> Derived(b.tasks, t, y).Done?);
    }
  }

  lemma {:induction false} CandidatesAfterDispatch(b: Board, s: Statuses, t: Statuses, x: string, n: nat)
    requires ValidState(b, s) && ValidState(b, t) && Dispatched(b, s, t, x) && Candidate(b, s, x) && n <= |b.order|
    ensures |CandidatesUpTo(b, t, n)| == |CandidatesUpTo(b, s, n)| - One(x in b.order[..n])
  {
    if n > 0 {
      var y := b.order[n - 1];
      CandidatesAfterDispatch(b, s, t, x, n - 1);
      NextInOrder(b, n, x);
      DispatchKeepsOtherCandidates(b, s, t, x, y);
    }
  }

  /** A candidate among the free slots stays there: x gives up its place and its slot together. */
  lemma PlaceAfterDispatch(b: Board, s: Statuses, t: Statuses, x: string, i: nat, k: nat)
    requires ValidState(b, s) && ValidState(b, t) && Dispatched(b, s, t, x) && Candidate(b, s, x)
    requires i < |b.order| && b.order[i] == x && k < |b.order| && i != k
    requires InWaveAt(b, s, i) && InWaveAt(b, s, k)
    ensures |CandidatesUpTo(b, t, k)| < Slots(b, t)
  {
    CandidatesAfterDispatch(b, s, t, x, k);
    OneSlotLess(b, s, t, x, i);
    if k < i {
      CandidatesGrow(b, s, k + 1, i);
    } else {
      assert b.order[..k][i] == x;
    }
  }

  lemma OneSlotLess(b: Board, s: Statuses, t: Statuses, x: string, i: nat)
    requires ValidState(b, s) && ValidState(b, t) && Dispatched(b, s, t, x)
    requires i < |b.order| && b.order[i] == x && Slots(b, s) > 0
    ensures Slots(b, t) == Slots(b, s) - 1
  {
    ActiveAfter(b, s, t, x, |b.order|);
    assert b.order[..|b.order|] == b.order;
  }

  /** The tasks of one wave can be dispatched in any order: starting one of them leaves every
      other one runnable in the next plan. */
  lemma DispatchKeepsTheRestOfTheWave(b: Board, s: Statuses, t: Statuses, x: string, z: string)
    requires ValidState(b, s) && ValidState(b, t) && Dispatched(b, s, t, x)
    requires z in Wave(b, s) && z != x
    ensures z in Wave(b, t)
  {
    OrderHoldsTheIds(b);
    WaveIsReady(b, s, x);
    WaveIsReady(b, s, z);
    var i: nat :| i < |b.order| && b.order[i] == x;
    var k: nat :| k < |b.order| && b.order[k] == z;
    WaveByPosition(b, s, i);
    WaveByPosition(b, s, k);
    WaveByPosition(b, t, k);
    PlaceAfterDispatch(b, s, t, x, i, k);
    DispatchKeepsOtherCandidates(b, s, t, x, z);
  }

  // ----- progress -----------------------------------------------------------

  /** Nothing has been given up. */
  ghost predicate Healthy(b: Board, s: Statuses)
    requires ValidState(b, s)
  {
    forall x :: x in GraphOf(b.tasks) ==> !RequiresReplan(s[x])
  }

  /** With nothing in flight, the first task that has not landed is runnable. */
  lemma SchedulerNeverDeadlocks(b: Board, s: Statuses, k: nat)
    requires ValidState(b, s) && Healthy(b, s) && b.config.maxSubAgents > 0
    requires forall x :: x in GraphOf(b.tasks) ==> !InFlight(s[x])
    requires k < |b.order| && (forall i :: 0 <= i < k ==> b.order[i] in s && s[b.order[i]].Done?)
    requires b.order[k] in s && !s[b.order[k]].Done?
    ensures b.order[k] in Wave(b, s)
  {
    OrderHoldsTheIds(b);
    FirstUnlandedIsACandidate(b, s, k);
    NothingLandedIsACandidate(b, s, k);
    NothingActive(b, s, |b.order|);
    WaveByPosition(b, s, k);
  }

  lemma FirstUnlandedIsACandidate(b: Board, s: Statuses, k: nat)
    requires ValidState(b, s) && Healthy(b, s)
    requires k < |b.order| && (forall i :: 0 <= i < k ==> b.order[i] in s && s[b.order[i]].Done?)
    requires b.order[k] in s && NotStarted(s[b.order[k]])
    ensures Candidate(b, s, b.order[k])
  {
    OrderHoldsTheIds(b);
    var x := b.order[k];
    assert Available(GraphOf(b.tasks), b.order[..k], x);
    forall i | 0 <= i < |GraphOf(b.tasks)[x]| ensures s[GraphOf(b.tasks)[x][i]].Done? {
      assert GraphOf(b.tasks)[x][i] in b.order[..k];
    }
    forall y | WaitsFor(b, x, y) && y in GraphOf(b.tasks) ensures Derived(b.tasks, s, y).Done? {
      var i, j :| 0 <= i < j < |b.order| && b.order[i] == y && b.order[j] == x;
      assert j == k;
    }
  }

  lemma {:induction false} NothingLandedIsACandidate(b: Board, s: Statuses, k: nat)
    requires ValidState(b, s) && k <= |b.order|
    requires forall i :: 0 <= i < k ==> b.order[i] in s && s[b.order[i]].Done?
    ensures CandidatesUpTo(b, s, k) == []
  {
    if k > 0 {
      NothingLandedIsACandidate(b, s, k - 1);
      OrderHoldsTheIds(b);
    }
  }

  lemma {:induction false} NothingActive(b: Board, s: Statuses, n: nat)
    requires ValidState(b, s) && n <= |b.order|
    requires forall x :: x in GraphOf(b.tasks) ==> !InFlight(s[x])
    ensures ActiveUpTo(b, s, n) == []
  {
    if n > 0 {
      NothingActive(b, s, n - 1);
      OrderHoldsTheIds(b);
    }
  }

  /** How many lifecycle steps a task is from DONE. */
  function Distance(s: TaskStatus): nat {
    match s
    case Done => 0
    case Integrating => 1
    case HandoffReady => 2
    case InProgress => 3
    case Ready => 4
    case Planned => 5
    case Blocked => 5
    case Failed => 0
    case Cancelled => 0
  }

  function Onward(s: TaskStatus): TaskStatus {
    match s
    case InProgress => HandoffReady
    case HandoffReady => Integrating
    case Integrating => Done
    case Ready => InProgress
    case _ => Ready
  }

  ghost function Left(b: Board, s: Statuses, n: nat): nat
    requires ValidState(b, s) && n <= |b.order|
  {
    if n == 0 then 0
    else Left(b, s, n - 1) + if b.order[n - 1] in s then Distance(s[b.order[n - 1]]) else 0
  }

  lemma {:induction false} LeftAfter(b: Board, s: Statuses, t: Statuses, x: string, n: nat)
    requires ValidState(b, s) && ValidState(b, t) && n <= |b.order| && x in s
    requires t.Keys == s.Keys && (forall y :: y in s && y != x ==> t[y] == s[y]) && Distance(t[x]) < Distance(s[x])
    ensures Left(b, t, n) <= Left(b, s, n)
    ensures x in b.order[..n] ==> Left(b, t, n) < Left(b, s, n)
  {
    if n > 0 {
      LeftAfter(b, s, t, x, n - 1);
      assert b.order[..n] == b.order[..n - 1] + [b.order[n - 1]];
    }
  }

  ghost predicate Landed(b: Board, s: Statuses)
    requires ValidState(b, s)
  {
    forall x :: x in GraphOf(b.tasks) ==> s[x].Done?
  }

  lemma {:induction false} FirstUnlanded(b: Board, s: Statuses, k: nat) returns (first: nat)
    requires ValidState(b, s) && k <= |b.order| && !Landed(b, s)
    requires forall i :: 0 <= i < k ==> b.order[i] in s && s[b.order[i]].Done?
    ensures first < |b.order| && b.order[first] in GraphOf(b.tasks) && !s[b.order[first]].Done?
    ensures forall i :: 0 <= i < first ==> b.order[i] in s && s[b.order[i]].Done?
    decreases |b.order| - k
  {
    OrderHoldsTheIds(b);
    var x :| x in GraphOf(b.tasks) && !s[x].Done?;
    var j :| 0 <= j < |b.order| && b.order[j] == x;
    assert k <= j;
    if s[b.order[k]].Done? {
      first := FirstUnlanded(b, s, k + 1);
    } else {
      first := k;
    }
  }

  /** Some task can move on. */
  lemma SomethingCanMove(b: Board, s: Statuses) returns (x: string)
    requires ValidState(b, s) && Healthy(b, s) && b.config.maxSubAgents > 0 && !Landed(b, s)
    ensures x in GraphOf(b.tasks) && !s[x].Done? && Moves(b, s, s[x := Onward(s[x])], x, Onward(s[x]))
  {
    if y :| y in GraphOf(b.tasks) && InFlight(s[y]) {
      x := y;
    } else {
      var k := FirstUnlanded(b, s, 0);
      x := b.order[k];
      if s[x].Ready? {
        SchedulerNeverDeadlocks(b, s, k);
      }
    }
  }

  lemma MovingOnIsCloser(b: Board, s: Statuses, x: string)
    requires ValidState(b, s) && Healthy(b, s) && x in GraphOf(b.tasks) && !s[x].Done?
    requires Moves(b, s, s[x := Onward(s[x])], x, Onward(s[x]))
    ensures var t := s[x := Onward(s[x])];
            ValidState(b, t) && Step(b, s, t) && Healthy(b, t) && Left(b, t, |b.order|) < Left(b, s, |b.order|)
  {
    var t := s[x := Onward(s[x])];
    OrderHoldsTheIds(b);
    assert b.order[..|b.order|] == b.order;
    LeftAfter(b, s, t, x, |b.order|);
  }

  /** From every state in which nothing was given up, some run of the scheduler lands every task. */
  lemma {:induction false} EveryHealthyStateCanFinish(b: Board, s: Statuses) returns (run: seq<Statuses>)
    requires ValidState(b, s) && Healthy(b, s) && b.config.maxSubAgents > 0
    ensures Run(b, run) && run[0] == s && Landed(b, run[|run| - 1])
    decreases Left(b, s, |b.order|)
  {
    if Landed(b, s) {
      run := [s];
    } else {
      var x := SomethingCanMove(b, s);
      MovingOnIsCloser(b, s, x);
      var rest := EveryHealthyStateCanFinish(b, s[x := Onward(s[x])]);
      run := [s] + rest;
      forall i | 0 < i < |run| ensures StepsTo(b, run, i) {
        assert i > 1 ==> StepsTo(b, rest, i - 1);
      }
    }
  }
}
