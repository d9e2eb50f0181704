/** The planning surface of the multi-agent scheduler (tools/agent/orchestration.py): readiness,
    conflict deferral, capacity, and the integration gate's conflict check
    (tools/agent/validation.py). Task statuses are kept beside the otherwise frozen tasks. */
module Orchestration {
  import opened Wrappers
  import opened IdOrder
  import opened DependencyOrder
  import opened Lifecycle
  import opened TaskGraph
  import opened Globs
  import opened Ownership
  import opened Conflicts

  type Statuses = map<string, TaskStatus>

  // ----- the graph ----------------------------------------------------------

  method CheckIds(tasks: seq<Task>) returns (error: Option<GraphError>)
    ensures error.None? <==> ValidIds(tasks) && UniqueIds(tasks)
    ensures error.Some? ==> error.value.InvalidTaskId? || error.value.DuplicateTask?
    ensures error.Some? && error.value.InvalidTaskId? ==> !ValidIds(tasks)
    ensures error.Some? && error.value.DuplicateTask? ==> !UniqueIds(tasks)
  {
    for i := 0 to |tasks|
      invariant ValidIds(tasks[..i]) && UniqueIds(tasks[..i])
    {
      if !ValidTaskId(tasks[i].id) {
        return Some(InvalidTaskId(tasks[i].id));
      }
      if exists j :: 0 <= j < i && tasks[j].id == tasks[i].id {
        return Some(DuplicateTask(tasks[i].id));
      }
    }
    assert tasks[..|tasks|] == tasks;
    return None;
  }

  method CheckDependencies(tasks: seq<Task>, task: Task) returns (error: Option<GraphError>)
    ensures error.None? <==> forall d :: d in task.dependencies ==> d != task.id && IsTask(tasks, d)
    ensures error.Some? && error.value.SelfDependency? ==> task.id in task.dependencies
    ensures error.Some? && error.value.UnknownDependency? ==> exists d :: d in task.dependencies && !IsTask(tasks, d)
    ensures error.Some? ==> error.value.SelfDependency? || error.value.UnknownDependency?
  {
    for k := 0 to |task.dependencies|
      invariant forall d :: d in task.dependencies[..k] ==> d != task.id && IsTask(tasks, d)
    {
      var d := task.dependencies[k];
      assert d in task.dependencies;
      if d == task.id {
        return Some(SelfDependency(d));
      }
      if !IsTask(tasks, d) {
        return Some(UnknownDependency(task.id, d));
      }
      assert task.dependencies[..k + 1] == task.dependencies[..k] + [d];
    }
    assert task.dependencies[..|task.dependencies|] == task.dependencies;
    return None;
  }

  lemma SelfDependencyIsACycle(tasks: seq<Task>, i: nat)
    requires UniqueIds(tasks) && i < |tasks| && tasks[i].id in tasks[i].dependencies
    ensures !Acyclic(GraphOf(tasks))
  {
    GraphHolds(tasks);
    assert Cycle(GraphOf(tasks), [tasks[i].id]);
  }

  /** TaskGraph.build: accepts exactly valid, unique ids with known, acyclic dependencies. */
  method Build(tasks: seq<Task>) returns (error: Option<GraphError>)
    ensures error.None? <==> ValidIds(tasks) && UniqueIds(tasks) && KnownDependencies(tasks) && Acyclic(GraphOf(tasks))
    ensures error.Some? && error.value.InvalidTaskId? ==> !ValidIds(tasks)
    ensures error.Some? && error.value.DuplicateTask? ==> !UniqueIds(tasks)
    ensures error.Some? && error.value.UnknownDependency? ==> !KnownDependencies(tasks)
    ensures error.Some? && (error.value.SelfDependency? || error.value.DagCycle?) ==> !Acyclic(GraphOf(tasks))
  {
    error := CheckIds(tasks);
    if error.Some? {
      return;
    }
    for i := 0 to |tasks|
      invariant forall k, d :: 0 <= k < i && d in tasks[k].dependencies ==> IsTask(tasks, d)
    {
      error := CheckDependencies(tasks, tasks[i]);
      if error.Some? {
        if error.value.SelfDependency? {
          SelfDependencyIsACycle(tasks, i);
        }
        return;
      }
    }
    var ordered := OrderedIds(tasks, NoRank);
    match ordered
    case Success(_) => return None;
    case Failure(e) => return Some(e);
  }

  predicate AllDone(deps: seq<string>, status: Statuses)
    requires forall d :: d in deps ==> d in status
  {
    forall i :: 0 <= i < |deps| ==> status[deps[i]].Done?
  }

  /** A status for every task of a well-formed graph. */
  ghost predicate ValidStatuses(tasks: seq<Task>, status: Statuses) {
    UniqueIds(tasks) && KnownDependencies(tasks) && Closed(GraphOf(tasks)) && GraphOf(tasks).Keys <= status.Keys
  }

  /** The schedulable status of one task: what has not started is READY or BLOCKED by its
      dependencies alone. */
  ghost function Derived(tasks: seq<Task>, status: Statuses, x: string): TaskStatus
    requires ValidStatuses(tasks, status) && x in GraphOf(tasks)
  {
    if !NotStarted(status[x]) then status[x]
    else if AllDone(GraphOf(tasks)[x], status) then Ready
    else Blocked
  }

  method Readiness(tasks: seq<Task>, status: Statuses) returns (derived: Statuses)
    requires ValidStatuses(tasks, status)
    ensures derived.Keys == GraphOf(tasks).Keys
    ensures forall x :: x in derived ==> derived[x] == Derived(tasks, status, x)
  {
    derived := map[];
    for i := 0 to |tasks|
      invariant derived.Keys == GraphOf(tasks[..i]).Keys
      invariant forall x :: x in derived ==> x in GraphOf(tasks) && derived[x] == Derived(tasks, status, x)
    {
      PrefixIds(tasks, i);
      var own := status[tasks[i].id];
      if !NotStarted(own) {
        derived := derived[tasks[i].id := own];
      } else {
        derived := derived[tasks[i].id := if AllDone(tasks[i].dependencies, status) then Ready else Blocked];
      }
    }
    assert tasks[..|tasks|] == tasks;
  }

  // ----- the integration order ----------------------------------------------

  predicate FreezesTruth(t: Task, config: Config) {
    exists i :: 0 <= i < |t.allowedPaths| && Reaches(t.allowedPaths[i], config.publicTruthPaths)
  }

  /** The first half of _integration_key; ties are broken by id. */
  function Rank(tasks: seq<Task>, config: Config): string -> nat {
    id => if exists i :: 0 <= i < |tasks| && tasks[i].id == id && FreezesTruth(tasks[i], config) then 0 else 1
  }

  /** What the planner computes from tasks and configuration alone. */
  datatype Board = Board(tasks: seq<Task>, config: Config, order: seq<string>)

  ghost predicate ValidBoard(b: Board) {
    && UniqueIds(b.tasks) && KnownDependencies(b.tasks) && Closed(GraphOf(b.tasks))
    && TopologicalOrder(GraphOf(b.tasks), b.order)
    && Greedy(GraphOf(b.tasks), Rank(b.tasks, b.config), b.order)
  }

  /** The task of this id owns a path that overlaps a public truth: it freezes a contract. */
  ghost predicate OwnsTruth(tasks: seq<Task>, config: Config, id: string) {
    exists t, p :: t in tasks && t.id == id && p in t.allowedPaths && OverlapsOneOf(p, config.publicTruthPaths)
  }

  /** x may be placed while y is available too. */
  ghost predicate MayComeFirst(tasks: seq<Task>, config: Config, x: string, y: string) {
    && (OwnsTruth(tasks, config, y) ==> OwnsTruth(tasks, config, x))
    && ((OwnsTruth(tasks, config, x) <==> OwnsTruth(tasks, config, y)) ==> x == y || exists k: nat :: SmallerFrom(x, y, k))
  }

  /** Contract-freezing tasks first, then by id, as far as the dependencies allow. */
  ghost predicate TruthFirst(tasks: seq<Task>, config: Config, order: seq<string>) {
    forall i, y :: 0 <= i < |order| && Available(GraphOf(tasks), order[..i], y) ==> MayComeFirst(tasks, config, order[i], y)
  }

  lemma RankMeans(tasks: seq<Task>, config: Config, id: string)
    ensures Rank(tasks, config)(id) == if OwnsTruth(tasks, config, id) then 0 else 1
  {
    forall t ensures FreezesTruth(t, config) <==> exists p :: p in t.allowedPaths && OverlapsOneOf(p, config.publicTruthPaths) {
      FreezingMeans(t, config);
    }
    if t, p :| t in tasks && t.id == id && p in t.allowedPaths && OverlapsOneOf(p, config.publicTruthPaths) {
      var i :| 0 <= i < |tasks| && tasks[i] == t;
    }
  }

  lemma FreezingMeans(t: Task, config: Config)
    ensures FreezesTruth(t, config) <==> exists p :: p in t.allowedPaths && OverlapsOneOf(p, config.publicTruthPaths)
  {
    forall p ensures Reaches(p, config.publicTruthPaths) <==> OverlapsOneOf(p, config.publicTruthPaths) {
      ReachesMeans(p, config.publicTruthPaths);
    }
    if p :| p in t.allowedPaths && OverlapsOneOf(p, config.publicTruthPaths) {
      var i :| 0 <= i < |t.allowedPaths| && t.allowedPaths[i] == p;
    }
  }

  /** The integration order puts what it must first, without its sort key being named. */
  lemma IntegrationOrderFreezesContractsFirst(b: Board)
    requires ValidBoard(b)
    ensures TruthFirst(b.tasks, b.config, b.order)
  {
    forall i, y | 0 <= i < |b.order| && Available(GraphOf(b.tasks), b.order[..i], y)
      ensures MayComeFirst(b.tasks, b.config, b.order[i], y)
    {
      var x := b.order[i];
      assert FirstAvailable(GraphOf(b.tasks), Rank(b.tasks, b.config), b.order[..i], x);
      RankMeans(b.tasks, b.config, x);
      RankMeans(b.tasks, b.config, y);
      StringLessMeans(x, y);
    }
  }

  lemma OrderHoldsTheIds(b: Board)
    requires ValidBoard(b)
    ensures Distinct(b.order) && forall x :: x in b.order <==> x in GraphOf(b.tasks)
  {
    RespectingOrderIsDistinct(GraphOf(b.tasks), b.order);
  }

  ghost predicate Earlier(order: seq<string>, x: string, y: string) {
    exists i, j :: 0 <= i < j < |order| && order[i] == x && order[j] == y
  }

  function IndexOf(order: seq<string>, x: string): (i: nat)
    requires x in order
    ensures i < |order| && order[i] == x
  {
    if order[0] == x then 0 else 1 + IndexOf(order[1..], x)
  }

  lemma EarlierByIndex(order: seq<string>, x: string, y: string)
    requires Distinct(order) && x in order && y in order
    ensures Earlier(order, x, y) <==> IndexOf(order, x) < IndexOf(order, y)
  {
    if Earlier(order, x, y) {
      var i, j :| 0 <= i < j < |order| && order[i] == x && order[j] == y;
      assert i == IndexOf(order, x) && j == IndexOf(order, y);
    }
  }

  // ----- conflicts ----------------------------------------------------------

  /** Two tasks whose pair conflict is above the auto-resolvable ceiling. */
  ghost predicate Conflicting(tasks: seq<Task>, config: Config, x: string, y: string) {
    exists i, j :: 0 <= i < |tasks| && 0 <= j < |tasks| && i != j && tasks[i].id == x && tasks[j].id == y
      && Blocks(tasks[i], tasks[j], config)
  }

  predicate Between(c: PairConflict, x: string, y: string) {
    (c.left == x && c.right == y) || (c.left == y && c.right == x)
  }

  /** A blocking conflict between x and y is on the list. */
  ghost predicate Listed(conflicts: seq<PairConflict>, x: string, y: string) {
    exists c :: c in conflicts && !c.AutoResolvable() && Between(c, x, y)
  }

  ghost predicate ListsConflicts(tasks: seq<Task>, config: Config, conflicts: seq<PairConflict>) {
    && (forall x, y :: Listed(conflicts, x, y) <==> Conflicting(tasks, config, x, y))
    && forall c :: c in conflicts ==> c.left in GraphOf(tasks) && c.right in GraphOf(tasks) && c.left != c.right
  }

  lemma ListedConflictBlocks(tasks: seq<Task>, config: Config, conflicts: seq<PairConflict>, x: string, y: string)
    requires forall c :: c in conflicts ==> exists i, j :: 0 <= i && 0 <= j && Classifies(tasks, config, i, j, c)
    requires Listed(conflicts, x, y)
    ensures Conflicting(tasks, config, x, y)
  {
    var c :| c in conflicts && !c.AutoResolvable() && Between(c, x, y);
    var i, j :| 0 <= i && 0 <= j && Classifies(tasks, config, i, j, c);
    assert Blocks(tasks[i], tasks[j], config);
    BlocksIsSymmetric(tasks[i], tasks[j], config);
  }

  lemma ClassifiedListsConflicts(tasks: seq<Task>, config: Config, conflicts: seq<PairConflict>)
    requires UniqueIds(tasks)
    requires forall c :: c in conflicts ==> exists i, j :: 0 <= i && 0 <= j && Classifies(tasks, config, i, j, c)
    requires forall i, j :: 0 <= i < j < |tasks| ==> Classified(tasks, config, i, j, conflicts)
    ensures ListsConflicts(tasks, config, conflicts)
  {
    GraphHolds(tasks);
    forall x, y | Listed(conflicts, x, y) ensures Conflicting(tasks, config, x, y) {
      ListedConflictBlocks(tasks, config, conflicts, x, y);
    }
    forall x, y | Conflicting(tasks, config, x, y) ensures Listed(conflicts, x, y) {
      ConflictIsListed(tasks, config, conflicts, x, y);
    }
  }

  lemma ConflictIsListed(tasks: seq<Task>, config: Config, conflicts: seq<PairConflict>, x: string, y: string)
    requires forall i, j :: 0 <= i < j < |tasks| ==> Classified(tasks, config, i, j, conflicts)
    requires Conflicting(tasks, config, x, y)
    ensures Listed(conflicts, x, y)
  {
    var i, j :| 0 <= i < |tasks| && 0 <= j < |tasks| && i != j && tasks[i].id == x && tasks[j].id == y
      && Blocks(tasks[i], tasks[j], config);
    BlocksIsSymmetric(tasks[i], tasks[j], config);
    var a, b := if i < j then i else j, if i < j then j else i;
    assert Classified(tasks, config, a, b, conflicts);
    var c :| c in conflicts && Classifies(tasks, config, a, b, c);
    var level: nat :| IsPairLevel(tasks[a], tasks[b], config, level) && level > AUTO_RESOLVABLE_CEILING;
    PairLevelIsUnique(tasks[a], tasks[b], config, level, c.level);
    assert Between(c, x, y);
  }

  /** x comes after y, with which it conflicts: y owns the shared surface first. */
  ghost predicate WaitsFor(b: Board, x: string, y: string) {
    Conflicting(b.tasks, b.config, x, y) && Earlier(b.order, y, x)
  }

  /** _earlier_and_later. */
  function EarlierAndLater(c: PairConflict, order: seq<string>): (string, string)
    requires c.left in order && c.right in order
  {
    if IndexOf(order, c.left) <= IndexOf(order, c.right) then (c.left, c.right) else (c.right, c.left)
  }
}
