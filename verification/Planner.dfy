/** `plan` (tools/agent/orchestration.py): one verdict per task from readiness, conflict leases and
    capacity; and the conflict gate of integration (tools/agent/validation.py). */
module Planner {
  import opened Wrappers
  import opened IdOrder
  import opened DependencyOrder
  import opened Lifecycle
  import opened TaskGraph
  import opened Ownership
  import opened Conflicts
  import opened Orchestration

  datatype TaskPlanEntry = TaskPlanEntry(
    taskId: string,
    status: TaskStatus,
    deferredBy: set<string>,
    serialReviewRequired: bool,
    capacityDeferred: bool,
    replanRequiredBy: set<string>)
  {
    predicate Runnable() {
      status.Ready? && deferredBy == {} && !capacityDeferred && replanRequiredBy == {}
    }
  }

  datatype OrchestrationPlan = OrchestrationPlan(
    entries: seq<TaskPlanEntry>,
    conflicts: seq<PairConflict>,
    integrationOrder: seq<string>,
    activeIds: seq<string>,
    availableSlots: nat,
    activeOverCapacity: nat)

  // ----- what the verdict means ---------------------------------------------

  ghost predicate ValidState(b: Board, s: Statuses) {
    ValidBoard(b) && ValidStatuses(b.tasks, s)
  }

  ghost predicate DeferredBy(b: Board, s: Statuses, x: string, y: string)
    requires ValidState(b, s)
  {
    WaitsFor(b, x, y) && y in GraphOf(b.tasks) && HoldsLease(Derived(b.tasks, s, y))
  }

  ghost predicate ReplanRequiredBy(b: Board, s: Statuses, x: string, y: string)
    requires ValidState(b, s)
  {
    WaitsFor(b, x, y) && y in GraphOf(b.tasks) && RequiresReplan(Derived(b.tasks, s, y))
  }

  /** READY, and every earlier task it conflicts with has landed. */
  ghost predicate Candidate(b: Board, s: Statuses, x: string)
    requires ValidState(b, s)
  {
    && x in GraphOf(b.tasks) && Derived(b.tasks, s, x).Ready?
    && forall y :: WaitsFor(b, x, y) && y in GraphOf(b.tasks) ==> Derived(b.tasks, s, y).Done?
  }

  /** The candidates among the first n tasks of the integration order, in that order. */
  ghost function CandidatesUpTo(b: Board, s: Statuses, n: nat): seq<string>
    requires ValidState(b, s) && n <= |b.order|
  {
    if n == 0 then []
    else
      var x := b.order[n - 1];
      CandidatesUpTo(b, s, n - 1) + if Candidate(b, s, x) then [x] else []
  }

  ghost function ActiveUpTo(b: Board, s: Statuses, n: nat): seq<string>
    requires ValidState(b, s) && n <= |b.order|
  {
    if n == 0 then []
    else
      var x := b.order[n - 1];
      ActiveUpTo(b, s, n - 1) + if x in s && OccupiesSlot(s[x]) then [x] else []
  }

  ghost function Slots(b: Board, s: Statuses): nat
    requires ValidState(b, s)
  {
    var active := |ActiveUpTo(b, s, |b.order|)|;
    if active < b.config.maxSubAgents then b.config.maxSubAgents - active else 0
  }

  /** The dispatch wave: as many candidates, in integration order, as there are free slots. */
  ghost function Wave(b: Board, s: Statuses): seq<string>
    requires ValidState(b, s)
  {
    var candidates := CandidatesUpTo(b, s, |b.order|);
    if Slots(b, s) < |candidates| then candidates[..Slots(b, s)] else candidates
  }

  ghost predicate Describes(b: Board, s: Statuses, x: string, e: TaskPlanEntry)
    requires ValidState(b, s) && x in GraphOf(b.tasks)
  {
    && e.taskId == x && e.status == Derived(b.tasks, s, x)
    && (forall y :: y in e.deferredBy <==> DeferredBy(b, s, x, y))
    && (forall y :: y in e.replanRequiredBy <==> ReplanRequiredBy(b, s, x, y))
    && (e.serialReviewRequired <==> NeedsSerialReview(b.tasks, b.config, x))
    && (e.capacityDeferred <==> Candidate(b, s, x) && x !in Wave(b, s))
    && (e.Runnable() <==> x in Wave(b, s))
  }

  /** The task named x may never be integrated in parallel. */
  predicate NeedsSerialReview(tasks: seq<Task>, config: Config, x: string) {
    exists i :: 0 <= i < |tasks| && tasks[i].id == x && RequiresSerialReview(tasks[i], config)
  }

  lemma {:induction false} CandidatesAreTheCandidates(b: Board, s: Statuses, n: nat)
    requires ValidState(b, s) && n <= |b.order|
    ensures forall x :: x in CandidatesUpTo(b, s, n) <==> x in b.order[..n] && Candidate(b, s, x)
    ensures Distinct(CandidatesUpTo(b, s, n))
  {
    if n > 0 {
      var x := b.order[n - 1];
      CandidatesAreTheCandidates(b, s, n - 1);
      OrderHoldsTheIds(b);
      assert b.order[..n] == b.order[..n - 1] + [x];
      assert x !in CandidatesUpTo(b, s, n - 1);
    }
  }

  lemma NotWaitingIsCandidate(b: Board, s: Statuses, x: string)
    requires ValidState(b, s) && x in GraphOf(b.tasks)
    ensures Candidate(b, s, x) <==>
              Derived(b.tasks, s, x).Ready? && forall y :: !DeferredBy(b, s, x, y) && !ReplanRequiredBy(b, s, x, y)
  {
    if Derived(b.tasks, s, x).Ready? && forall y :: !DeferredBy(b, s, x, y) && !ReplanRequiredBy(b, s, x, y) {
      forall y | WaitsFor(b, x, y) && y in GraphOf(b.tasks) ensures Derived(b.tasks, s, y).Done? {
        assert !DeferredBy(b, s, x, y) && !ReplanRequiredBy(b, s, x, y);
      }
    }
  }

  // ----- computing it -------------------------------------------------------

  /** The conflict is blocking and makes x wait for y. */
  predicate Orders(c: PairConflict, order: seq<string>, x: string, y: string) {
    !c.AutoResolvable() && c.left in order && c.right in order && EarlierAndLater(c, order) == (y, x)
  }

  ghost predicate WaitListed(conflicts: seq<PairConflict>, order: seq<string>, x: string, y: string) {
    exists c :: c in conflicts && Orders(c, order, x, y)
  }

  lemma OrdersPutsTheOwnerFirst(order: seq<string>, c: PairConflict, x: string, y: string)
    requires Distinct(order) && c.left != c.right && Orders(c, order, x, y)
    ensures !c.AutoResolvable() && Between(c, x, y) && Earlier(order, y, x)
  {
    EarlierByIndex(order, y, x);
  }

  lemma ListedWaitIsAWait(b: Board, conflicts: seq<PairConflict>, x: string, y: string)
    requires ValidBoard(b) && ListsConflicts(b.tasks, b.config, conflicts)
    requires WaitListed(conflicts, b.order, x, y)
    ensures WaitsFor(b, x, y)
  {
    OrderHoldsTheIds(b);
    var c :| c in conflicts && Orders(c, b.order, x, y);
    OrdersPutsTheOwnerFirst(b.order, c, x, y);
    assert Listed(conflicts, x, y);
  }

  lemma WaitIsListed(b: Board, conflicts: seq<PairConflict>, x: string, y: string)
    requires ValidBoard(b) && ListsConflicts(b.tasks, b.config, conflicts)
    requires WaitsFor(b, x, y)
    ensures WaitListed(conflicts, b.order, x, y)
  {
    OrderHoldsTheIds(b);
    assert Listed(conflicts, x, y);
    var c :| c in conflicts && !c.AutoResolvable() && Between(c, x, y);
    EarlierByIndex(b.order, y, x);
    assert Orders(c, b.order, x, y);
  }

  lemma WaitListedIsWaitsFor(b: Board, conflicts: seq<PairConflict>, x: string, y: string)
    requires ValidBoard(b) && ListsConflicts(b.tasks, b.config, conflicts)
    ensures WaitListed(conflicts, b.order, x, y) <==> WaitsFor(b, x, y)
  {
    if WaitListed(conflicts, b.order, x, y) { ListedWaitIsAWait(b, conflicts, x, y); }
    if WaitsFor(b, x, y) { WaitIsListed(b, conflicts, x, y); }
  }

  /** m[key].append(value), on sets. */
  function AddTo(m: map<string, set<string>>, key: string, value: string): (r: map<string, set<string>>)
    requires key in m
    ensures r.Keys == m.Keys
    ensures forall x, y :: x in m ==> (y in r[x] <==> y in m[x] || (x == key && y == value))
  {
    m[key := m[key] + {value}]
  }

  /** The dictionary m lists, for every task, the owners among `kept` it waits for. */
  ghost predicate ListsWaits(
    m: map<string, set<string>>, conflicts: seq<PairConflict>, order: seq<string>, ids: set<string>, kept: set<string>)
  {
    && m.Keys == ids
    && forall x, y :: x in m ==> (y in m[x] <==> WaitListed(conflicts, order, x, y) && y in kept)
  }

  ghost function NextWaits(
    m: map<string, set<string>>, c: PairConflict, order: seq<string>, kept: set<string>): map<string, set<string>>
    requires c.left in order && c.right in order && c.left in m && c.right in m
  {
    var (earlier, later) := EarlierAndLater(c, order);
    if !c.AutoResolvable() && earlier in kept then AddTo(m, later, earlier) else m
  }

  lemma ListingOneConflict(
    m: map<string, set<string>>, seen: seq<PairConflict>, c: PairConflict, more: seq<PairConflict>, order: seq<string>,
    ids: set<string>, kept: set<string>)
    requires more == seen + [c] && ListsWaits(m, seen, order, ids, kept)
    requires (forall x :: x in order <==> x in ids) && c.left in ids && c.right in ids
    ensures ListsWaits(NextWaits(m, c, order, kept), more, order, ids, kept)
  {
    var (earlier, later) := EarlierAndLater(c, order);
    var next := NextWaits(m, c, order, kept);
    forall x, y | x in m ensures y in next[x] <==> WaitListed(more, order, x, y) && y in kept {
      OneMoreConflict(seen, c, order, x, y);
      assert Orders(c, order, x, y) <==> !c.AutoResolvable() && x == later && y == earlier;
    }
  }

  /** The first loop of plan: who waits for whom, split by the owner's status. */
  method CollectWaits(ids: set<string>, conflicts: seq<PairConflict>, order: seq<string>, derived: Statuses)
    returns (deferred: map<string, set<string>>, replan: map<string, set<string>>)
    requires derived.Keys == ids && (forall x :: x in order <==> x in ids)
    requires forall c :: c in conflicts ==> c.left in ids && c.right in ids
    ensures ListsWaits(deferred, conflicts, order, ids, set y | y in derived && HoldsLease(derived[y]))
    ensures ListsWaits(replan, conflicts, order, ids, set y | y in derived && RequiresReplan(derived[y]))
  {
    ghost var leased := set y | y in derived && HoldsLease(derived[y]);
    ghost var replanned := set y | y in derived && RequiresReplan(derived[y]);
    deferred := map x | x in ids :: {};
    replan := map x | x in ids :: {};
    for i := 0 to |conflicts|
      invariant ListsWaits(deferred, conflicts[..i], order, ids, leased)
      invariant ListsWaits(replan, conflicts[..i], order, ids, replanned)
    {
      var c := conflicts[i];
      assert conflicts[..i + 1] == conflicts[..i] + [c];
      ListingOneConflict(deferred, conflicts[..i], c, conflicts[..i + 1], order, ids, leased);
      ListingOneConflict(replan, conflicts[..i], c, conflicts[..i + 1], order, ids, replanned);
      if !c.AutoResolvable() {
        var (earlier, later) := EarlierAndLater(c, order);
        if HoldsLease(derived[earlier]) {
          deferred := AddTo(deferred, later, earlier);
        } else if RequiresReplan(derived[earlier]) {
          replan := AddTo(replan, later, earlier);
        }
      }
    }
    assert conflicts[..|conflicts|] == conflicts;
  }

  lemma OneMoreConflict(seen: seq<PairConflict>, c: PairConflict, order: seq<string>, x: string, y: string)
    ensures WaitListed(seen + [c], order, x, y) <==> WaitListed(seen, order, x, y) || Orders(c, order, x, y)
  {
    assert c in seen + [c];
    if WaitListed(seen, order, x, y) {
      var d :| d in seen && Orders(d, order, x, y);
      assert d in seen + [c];
    }
  }

  /** The dictionaries hold, for every task, its derived status and whom it waits for. */
  ghost predicate Computed(
    b: Board, s: Statuses, derived: Statuses, deferred: map<string, set<string>>, replan: map<string, set<string>>)
    requires ValidState(b, s)
  {
    && derived.Keys == deferred.Keys == replan.Keys == GraphOf(b.tasks).Keys
    && (forall x :: x in derived ==> derived[x] == Derived(b.tasks, s, x))
    && (forall x, y :: x in deferred ==> (y in deferred[x] <==> DeferredBy(b, s, x, y)))
    && (forall x, y :: x in replan ==> (y in replan[x] <==> ReplanRequiredBy(b, s, x, y)))
  }

  lemma ListedWaitsAreWaits(
    b: Board, conflicts: seq<PairConflict>, m: map<string, set<string>>, ids: set<string>, kept: set<string>, x: string, y: string)
    requires ValidBoard(b) && ListsConflicts(b.tasks, b.config, conflicts)
    requires ListsWaits(m, conflicts, b.order, ids, kept) && x in m
    ensures y in m[x] <==> WaitsFor(b, x, y) && y in kept
  {
    WaitListedIsWaitsFor(b, conflicts, x, y);
  }

  lemma CollectedIsComputed(
    b: Board, s: Statuses, conflicts: seq<PairConflict>, derived: Statuses,
    deferred: map<string, set<string>>, replan: map<string, set<string>>)
    requires ValidState(b, s) && ListsConflicts(b.tasks, b.config, conflicts)
    requires derived.Keys == GraphOf(b.tasks).Keys && forall x :: x in derived ==> derived[x] == Derived(b.tasks, s, x)
    requires ListsWaits(deferred, conflicts, b.order, derived.Keys, set y | y in derived && HoldsLease(derived[y]))
    requires ListsWaits(replan, conflicts, b.order, derived.Keys, set y | y in derived && RequiresReplan(derived[y]))
    ensures Computed(b, s, derived, deferred, replan)
  {
    var leased := set y | y in derived && HoldsLease(derived[y]);
    var replanned := set y | y in derived && RequiresReplan(derived[y]);
    forall x, y | x in deferred ensures y in deferred[x] <==> DeferredBy(b, s, x, y) {
      ListedWaitsAreWaits(b, conflicts, deferred, derived.Keys, leased, x, y);
    }
    forall x, y | x in replan ensures y in replan[x] <==> ReplanRequiredBy(b, s, x, y) {
      ListedWaitsAreWaits(b, conflicts, replan, derived.Keys, replanned, x, y);
    }
  }

  lemma WaitsDecideCandidates(
    b: Board, s: Statuses, derived: Statuses, deferred: map<string, set<string>>, replan: map<string, set<string>>, x: string)
    requires ValidState(b, s) && Computed(b, s, derived, deferred, replan) && x in derived
    ensures Candidate(b, s, x) <==> derived[x].Ready? && deferred[x] == {} && replan[x] == {}
  {
    NotWaitingIsCandidate(b, s, x);
    assert deferred[x] == {} <==> forall y :: !DeferredBy(b, s, x, y);
    assert replan[x] == {} <==> forall y :: !ReplanRequiredBy(b, s, x, y);
  }

  /** The candidate list and the active list, cut from the integration order. */
  method CutWave(
    ghost b: Board, ghost s: Statuses, order: seq<string>, derived: Statuses,
    deferred: map<string, set<string>>, replan: map<string, set<string>>)
    returns (active: seq<string>, candidates: seq<string>)
    requires ValidState(b, s) && order == b.order
    requires Computed(b, s, derived, deferred, replan)
    ensures active == ActiveUpTo(b, s, |order|) && candidates == CandidatesUpTo(b, s, |order|)
  {
    OrderHoldsTheIds(b);
    active, candidates := [], [];
    for n := 0 to |order|
      invariant active == ActiveUpTo(b, s, n) && candidates == CandidatesUpTo(b, s, n)
    {
      var x := order[n];
      WaitsDecideCandidates(b, s, derived, deferred, replan, x);
      if OccupiesSlot(derived[x]) {
        active := active + [x];
      }
      if derived[x].Ready? && deferred[x] == {} && replan[x] == {} {
        candidates := candidates + [x];
      }
    }
  }

  /** max(0, a - b). */
  function Excess(a: nat, b: nat): nat {
    if b < a then a - b else 0
  }

  method Plan(tasks: seq<Task>, status: Statuses, config: Config) returns (r: Result<OrchestrationPlan, GraphError>)
    requires GraphOf(tasks).Keys <= status.Keys
    ensures r.Success? <==> ValidIds(tasks) && UniqueIds(tasks) && KnownDependencies(tasks) && Acyclic(GraphOf(tasks))
    ensures r.Success? ==>
              var b := Board(tasks, config, r.value.integrationOrder);
              && ValidState(b, status) && TruthFirst(tasks, config, b.order) && |r.value.entries| == |b.order|
              && (forall i :: 0 <= i < |b.order| ==> DescribesAt(b, status, r.value.entries, i))
              && r.value.activeIds == ActiveUpTo(b, status, |b.order|) && r.value.availableSlots == Slots(b, status)
              && r.value.activeOverCapacity ==
                   (if |r.value.activeIds| > config.maxSubAgents then |r.value.activeIds| - config.maxSubAgents else 0)
              && ListsConflicts(tasks, config, r.value.conflicts)
  {
    var refused := Build(tasks);
    if refused.Some? {
      return Failure(refused.value);
    }
    KnownMeansClosed(tasks);
    var derived := Readiness(tasks, status);
    var ordered := OrderedIds(tasks, Rank(tasks, config));
    var order := ordered.value;
    var b := Board(tasks, config, order);
    OrderHoldsTheIds(b);
    IntegrationOrderFreezesContractsFirst(b);
    var conflicts := ClassifyAll(tasks, config);
    ClassifiedListsConflicts(tasks, config, conflicts);
    var deferred, replan := CollectWaits(derived.Keys, conflicts, order, derived);
    CollectedIsComputed(b, status, conflicts, derived, deferred, replan);
    var active, candidates := CutWave(b, status, order, derived, deferred, replan);
    var slots := if |active| < config.maxSubAgents then config.maxSubAgents - |active| else 0;
    var excess := Excess(|active|, config.maxSubAgents);
    var entries := BuildEntries(b, status, derived, deferred, replan, candidates, slots);
    r := Success(OrchestrationPlan(entries, conflicts, order, active, slots, excess));
  }

  function EntryFor(
    tasks: seq<Task>, config: Config, x: string, derived: Statuses, deferred: map<string, set<string>>,
    replan: map<string, set<string>>, overCapacity: seq<string>)
    : TaskPlanEntry
    requires x in derived && x in deferred && x in replan
  {
    TaskPlanEntry(x, derived[x], deferred[x], NeedsSerialReview(tasks, config, x), x in overCapacity, replan[x])
  }

  ghost predicate DescribesAt(b: Board, s: Statuses, entries: seq<TaskPlanEntry>, i: nat)
    requires ValidState(b, s)
  {
    i < |b.order| && i < |entries| && b.order[i] in GraphOf(b.tasks) && Describes(b, s, b.order[i], entries[i])
  }

  /** One entry per task, in integration order. */
  method BuildEntries(
    b: Board, ghost s: Statuses, derived: Statuses,
    deferred: map<string, set<string>>, replan: map<string, set<string>>, candidates: seq<string>, slots: nat)
    returns (entries: seq<TaskPlanEntry>)
    requires ValidState(b, s) && slots == Slots(b, s)
    requires candidates == CandidatesUpTo(b, s, |b.order|)
    requires Computed(b, s, derived, deferred, replan)
    ensures |entries| == |b.order|
    ensures forall i :: 0 <= i < |b.order| ==> DescribesAt(b, s, entries, i)
  {
    OrderHoldsTheIds(b);
    var overCapacity := if slots < |candidates| then candidates[slots..] else [];
    var order := b.order;
    entries := seq(|order|, i requires 0 <= i < |order| && order[i] in derived && order[i] in deferred && order[i] in replan =>
      EntryFor(b.tasks, b.config, order[i], derived, deferred, replan, overCapacity));
    forall i | 0 <= i < |order| ensures DescribesAt(b, s, entries, i) {
      EntryDescribes(b, s, derived, deferred, replan, order[i]);
    }
  }

  /** What the capacity cut leaves out of the wave. */
  ghost function OverCapacity(b: Board, s: Statuses): seq<string>
    requires ValidState(b, s)
  {
    var candidates := CandidatesUpTo(b, s, |b.order|);
    if Slots(b, s) < |candidates| then candidates[Slots(b, s)..] else []
  }

  lemma WaveIsTheCutCandidates(b: Board, s: Statuses, x: string)
    requires ValidState(b, s) && x in GraphOf(b.tasks)
    ensures x in Wave(b, s) <==> Candidate(b, s, x) && x !in OverCapacity(b, s)
  {
    OrderHoldsTheIds(b);
    CandidatesAreTheCandidates(b, s, |b.order|);
    assert b.order[..|b.order|] == b.order;
    CutIsDisjoint(CandidatesUpTo(b, s, |b.order|), Slots(b, s), x);
  }

  lemma EntryDescribes(
    b: Board, s: Statuses, derived: Statuses, deferred: map<string, set<string>>, replan: map<string, set<string>>, x: string)
    requires ValidState(b, s) && Computed(b, s, derived, deferred, replan) && x in derived
    ensures Describes(b, s, x, EntryFor(b.tasks, b.config, x, derived, deferred, replan, OverCapacity(b, s)))
  {
    WaitsDecideCandidates(b, s, derived, deferred, replan, x);
    WaveIsTheCutCandidates(b, s, x);
    if x in OverCapacity(b, s) { OverCapacityIsCandidates(b, s, x); }
  }

  lemma OverCapacityIsCandidates(b: Board, s: Statuses, x: string)
    requires ValidState(b, s) && x in OverCapacity(b, s)
    ensures Candidate(b, s, x)
  {
    CandidatesAreTheCandidates(b, s, |b.order|);
    assert x in CandidatesUpTo(b, s, |b.order|);
  }

  lemma CutIsDisjoint(s: seq<string>, n: nat, x: string)
    requires Distinct(s)
    ensures var taken, over := if n < |s| then s[..n] else s, if n < |s| then s[n..] else [];
            x in taken <==> x in s && x !in over
  {
    if n < |s| {
      assert s == s[..n] + s[n..];
    }
  }

  // ----- the integration gate -----------------------------------------------

  /** Whom one conflict makes the task wait for. */
  function BlockedBy(c: PairConflict, order: seq<string>, derived: Statuses, task: string): Option<string>
    requires task in order && c.left in order && c.right in order
  {
    if c.AutoResolvable() || (task != c.left && task != c.right) then None
    else
      var other := if c.left == task then c.right else c.left;
      if !(other in derived && derived[other].Done?) && IndexOf(order, other) < IndexOf(order, task) then Some(other) else None
  }

  lemma BlockedByMeans(c: PairConflict, order: seq<string>, derived: Statuses, task: string, y: string)
    requires Distinct(order) && task in order && c.left in order && c.right in order && c.left != c.right
    ensures BlockedBy(c, order, derived, task) == Some(y) <==>
              !c.AutoResolvable() && Between(c, task, y) && Earlier(order, y, task) && !(y in derived && derived[y].Done?)
  {
    if y in order {
      EarlierByIndex(order, y, task);
    }
  }

  /** Some listed conflict makes the task wait for y. */
  ghost predicate Blocked(conflicts: seq<PairConflict>, order: seq<string>, derived: Statuses, task: string, y: string) {
    Listed(conflicts, task, y) && Earlier(order, y, task) && !(y in derived && derived[y].Done?)
  }

  lemma BlockedByOneMore(conflicts: seq<PairConflict>, i: nat, order: seq<string>, derived: Statuses, task: string, y: string)
    requires i < |conflicts| && Distinct(order) && task in order
    requires conflicts[i].left in order && conflicts[i].right in order && conflicts[i].left != conflicts[i].right
    ensures Blocked(conflicts[..i + 1], order, derived, task, y) <==>
              Blocked(conflicts[..i], order, derived, task, y) || BlockedBy(conflicts[i], order, derived, task) == Some(y)
  {
    ListingOneMore(conflicts, i, task);
    BlockedByMeans(conflicts[i], order, derived, task, y);
  }

  /** _conflict_blocker: the earlier conflicting tasks that have not landed. */
  method ConflictBlocker(ghost b: Board, ghost s: Statuses, task: string, conflicts: seq<PairConflict>, order: seq<string>, derived: Statuses)
    returns (waitingOn: seq<string>)
    requires ValidState(b, s) && order == b.order && task in GraphOf(b.tasks)
    requires ListsConflicts(b.tasks, b.config, conflicts)
    requires derived.Keys == GraphOf(b.tasks).Keys && forall x :: x in derived ==> derived[x] == Derived(b.tasks, s, x)
    ensures forall y :: y in waitingOn <==> WaitsFor(b, task, y) && !(y in derived && derived[y].Done?)
  {
    OrderHoldsTheIds(b);
    waitingOn := [];
    for i := 0 to |conflicts|
      invariant forall y :: y in waitingOn <==> Blocked(conflicts[..i], order, derived, task, y)
    {
      forall y ensures Blocked(conflicts[..i + 1], order, derived, task, y) <==>
          Blocked(conflicts[..i], order, derived, task, y) || BlockedBy(conflicts[i], order, derived, task) == Some(y)
      {
        BlockedByOneMore(conflicts, i, order, derived, task, y);
      }
      var other := BlockedBy(conflicts[i], order, derived, task);
      if other.Some? {
        waitingOn := waitingOn + [other.value];
      }
    }
    assert conflicts[..|conflicts|] == conflicts;
    forall y ensures y in waitingOn <==> WaitsFor(b, task, y) && !(y in derived && derived[y].Done?) {
      assert Listed(conflicts, task, y) <==> Conflicting(b.tasks, b.config, task, y);
    }
  }

  lemma ListingOneMore(conflicts: seq<PairConflict>, i: nat, x: string)
    requires i < |conflicts|
    ensures forall y :: Listed(conflicts[..i + 1], x, y) <==>
              Listed(conflicts[..i], x, y) || (!conflicts[i].AutoResolvable() && Between(conflicts[i], x, y))
  {
    assert conflicts[..i + 1] == conflicts[..i] + [conflicts[i]];
    forall y
      ensures Listed(conflicts[..i + 1], x, y) <==>
                Listed(conflicts[..i], x, y) || (!conflicts[i].AutoResolvable() && Between(conflicts[i], x, y))
    {
      assert conflicts[i] in conflicts[..i + 1];
      if Listed(conflicts[..i], x, y) {
        var c :| c in conflicts[..i] && !c.AutoResolvable() && Between(c, x, y);
        assert c in conflicts[..i + 1];
      }
    }
  }
}
