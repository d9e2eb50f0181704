/** The task dependency graph (tools/agent/graph.py): validation, derived readiness, and Kahn's
    algorithm with a key-sorted ready list, proved to compute the greedy order of module
    DependencyOrder and to fail exactly on cyclic dependencies. */
module TaskGraph {
  import opened Wrappers
  import opened IdOrder
  import opened DependencyOrder
  import opened Lifecycle

  datatype Task = Task(
    id: string,
    dependencies: seq<string>,
    owner: string,
    allowedPaths: seq<string>,
    forbiddenPaths: seq<string>,
    integrationPaths: seq<string>,
    nativeShared: bool,
    sharedContracts: seq<string>,
    safetyCritical: bool)

  datatype GraphError =
    | InvalidTaskId(id: string)
    | DuplicateTask(id: string)
    | SelfDependency(id: string)
    | UnknownDependency(id: string, dependency: string)
    | DagCycle(inCycle: seq<string>)

  predicate IsAlphanumeric(c: char) {
    'A' <= c <= 'Z' || 'a' <= c <= 'z' || '0' <= c <= '9'
  }

  predicate IsIdText(id: string) {
    && 1 <= |id| <= 64 && IsAlphanumeric(id[0]) && IsAlphanumeric(id[|id| - 1])
    && forall i :: 0 <= i < |id| ==> IsAlphanumeric(id[i]) || id[i] == '.' || id[i] == '_' || id[i] == '-'
  }

  /** TASK_ID_RE.match: as in Python, `$` also matches before one trailing newline. */
  predicate ValidTaskId(id: string) {
    IsIdText(id) || (id != "" && id[|id| - 1] == '\n' && IsIdText(id[..|id| - 1]))
  }

  predicate ValidIds(tasks: seq<Task>) {
    forall i :: 0 <= i < |tasks| ==> ValidTaskId(tasks[i].id)
  }

  ghost predicate UniqueIds(tasks: seq<Task>) {
    forall i, j :: 0 <= i < j < |tasks| ==> tasks[i].id != tasks[j].id
  }

  ghost predicate KnownDependencies(tasks: seq<Task>) {
    forall i, d :: 0 <= i < |tasks| && d in tasks[i].dependencies ==> IsTask(tasks, d)
  }

  predicate IsTask(tasks: seq<Task>, d: string) {
    exists j :: 0 <= j < |tasks| && tasks[j].id == d
  }

  /** TaskGraph.index, kept down to the dependencies. */
  function GraphOf(tasks: seq<Task>): Graph {
    if tasks == [] then map[]
    else
      var last := tasks[|tasks| - 1];
      GraphOf(tasks[..|tasks| - 1])[last.id := last.dependencies]
  }

  lemma {:induction false} GraphHolds(tasks: seq<Task>)
    ensures forall x :: x in GraphOf(tasks) <==> exists i :: 0 <= i < |tasks| && tasks[i].id == x
    ensures UniqueIds(tasks) ==>
              forall i :: 0 <= i < |tasks| ==> tasks[i].id in GraphOf(tasks) && GraphOf(tasks)[tasks[i].id] == tasks[i].dependencies
  {
    if tasks != [] {
      var n := |tasks| - 1;
      GraphHolds(tasks[..n]);
      forall x ensures x in GraphOf(tasks) <==> exists i :: 0 <= i < |tasks| && tasks[i].id == x {
        if x in GraphOf(tasks) {
          if x == tasks[n].id {
          } else {
            assert x in GraphOf(tasks[..n]);
            var i :| 0 <= i < n && tasks[..n][i].id == x;
            assert tasks[i].id == x;
          }
        }
        if i :| 0 <= i < |tasks| && tasks[i].id == x {
          if i < n { assert tasks[..n][i].id == x; }
        }
      }
      if UniqueIds(tasks) {
        forall i | 0 <= i < |tasks|
          ensures tasks[i].id in GraphOf(tasks) && GraphOf(tasks)[tasks[i].id] == tasks[i].dependencies
        {
          if i < n { assert tasks[..n][i] == tasks[i]; }
        }
      }
    }
  }

  lemma KnownMeansClosed(tasks: seq<Task>)
    requires UniqueIds(tasks) && KnownDependencies(tasks)
    ensures Closed(GraphOf(tasks))
  {
    GraphHolds(tasks);
    var g := GraphOf(tasks);
    forall x, i | x in g && 0 <= i < |g[x]| ensures g[x][i] in g {
      var k :| 0 <= k < |tasks| && tasks[k].id == x;
      assert g[x][i] in tasks[k].dependencies;
      assert IsTask(tasks, g[x][i]);
    }
  }

  // ----- Kahn's algorithm ---------------------------------------------------

  /** How often x occurs in s. */
  ghost function Count(s: seq<string>, x: string): nat {
    if s == [] then 0 else Count(s[..|s| - 1], x) + if s[|s| - 1] == x then 1 else 0
  }

  lemma CountAppend(s: seq<string>, y: string)
    ensures forall x :: Count(s + [y], x) == Count(s, x) + if x == y then 1 else 0
  {
    assert (s + [y])[..|s|] == s;
  }

  lemma {:induction false} CountPositive(s: seq<string>, x: string)
    ensures Count(s, x) > 0 <==> x in s
  {
    if s != [] {
      CountPositive(s[..|s| - 1], x);
      assert s == s[..|s| - 1] + [s[|s| - 1]];
    }
  }

  lemma {:induction false} CountPrefix(s: seq<string>, n: nat, x: string)
    requires n <= |s|
    ensures Count(s[..n], x) <= Count(s, x)
    ensures n < |s| && s[n] == x ==> Count(s[..n], x) < Count(s, x)
    decreases |s|
  {
    if n == |s| {
      assert s[..n] == s;
    } else {
      var m := |s| - 1;
      assert s[..m][..n] == s[..n];
      CountPrefix(s[..m], n, x);
    }
  }

  /** How many occurrences in deps are not placed yet. */
  ghost function Pending(deps: seq<string>, placed: seq<string>): nat {
    if deps == [] then 0
    else Pending(deps[..|deps| - 1], placed) + if deps[|deps| - 1] in placed then 0 else 1
  }

  lemma {:induction false} PendingZero(deps: seq<string>, placed: seq<string>)
    ensures Pending(deps, placed) == 0 <==> forall d :: d in deps ==> d in placed
  {
    if deps != [] {
      var n := |deps| - 1;
      PendingZero(deps[..n], placed);
      assert deps == deps[..n] + [deps[n]];
    }
  }

  lemma {:induction false} PlacingOne(deps: seq<string>, placed: seq<string>, x: string)
    requires x !in placed
    ensures Pending(deps, placed) == Pending(deps, placed + [x]) + Count(deps, x)
  {
    if deps != [] {
      var n := |deps| - 1;
      PlacingOne(deps[..n], placed, x);
    }
  }

  lemma {:induction false} NothingPlaced(deps: seq<string>)
    ensures Pending(deps, []) == |deps|
  {
    if deps != [] {
      NothingPlaced(deps[..|deps| - 1]);
    }
  }

  /** children lists, for each id x, every recorded task y once per occurrence of x among y's
      dependencies. */
  ghost predicate Recorded(g: Graph, children: map<string, seq<string>>, done: set<string>) {
    && children.Keys == g.Keys && done <= g.Keys
    && forall x, y :: x in g ==> Count(children[x], y) == if y in done then Count(g[y], x) else 0
  }

  /** Appends the task to the children of each of its dependencies, once per occurrence. */
  method RecordDependencies(children: map<string, seq<string>>, task: Task) returns (r: map<string, seq<string>>)
    requires forall d :: d in task.dependencies ==> d in children
    ensures r.Keys == children.Keys
    ensures forall x, y :: x in children ==>
              Count(r[x], y) == Count(children[x], y) + if y == task.id then Count(task.dependencies, x) else 0
  {
    r := children;
    assert forall x :: Count(task.dependencies[..0], x) == 0;
    for k := 0 to |task.dependencies|
      invariant r.Keys == children.Keys
      invariant forall x, y :: x in children ==>
                  Count(r[x], y) == Count(children[x], y) + if y == task.id then Count(task.dependencies[..k], x) else 0
    {
      var dependency := task.dependencies[k];
      CountAppend(task.dependencies[..k], dependency);
      assert task.dependencies[..k + 1] == task.dependencies[..k] + [dependency];
      CountAppend(r[dependency], task.id);
      r := r[dependency := r[dependency] + [task.id]];
    }
    assert task.dependencies[..|task.dependencies|] == task.dependencies;
  }

  method EmptyChildren(tasks: seq<Task>) returns (children: map<string, seq<string>>)
    ensures children.Keys == GraphOf(tasks).Keys
    ensures forall x :: x in children ==> children[x] == []
  {
    children := map[];
    for i := 0 to |tasks|
      invariant children.Keys == GraphOf(tasks[..i]).Keys
      invariant forall x :: x in children ==> children[x] == []
    {
      assert tasks[..i + 1][..i] == tasks[..i];
      children := children[tasks[i].id := []];
    }
    assert tasks[..|tasks|] == tasks;
  }

  lemma RecordingOne(
    g: Graph, children: map<string, seq<string>>, done: set<string>, id: string, after: map<string, seq<string>>)
    requires Recorded(g, children, done) && id in g && id !in done && after.Keys == children.Keys
    requires forall x, y :: x in children ==>
               Count(after[x], y) == Count(children[x], y) + if y == id then Count(g[id], x) else 0
    ensures Recorded(g, after, done + {id})
  {
  }

  lemma NothingRecorded(g: Graph, children: map<string, seq<string>>)
    requires children.Keys == g.Keys && forall x :: x in children ==> children[x] == []
    ensures Recorded(g, children, {})
  {
  }

  lemma PrefixIds(tasks: seq<Task>, i: nat)
    requires i < |tasks| && UniqueIds(tasks)
    ensures GraphOf(tasks[..i + 1]).Keys == GraphOf(tasks[..i]).Keys + {tasks[i].id}
    ensures tasks[i].id !in GraphOf(tasks[..i])
    ensures tasks[i].id in GraphOf(tasks) && GraphOf(tasks)[tasks[i].id] == tasks[i].dependencies
  {
    assert tasks[..i + 1][..i] == tasks[..i];
    NewIdIsNew(tasks, i);
    GraphHolds(tasks);
  }

  lemma NewIdIsNew(tasks: seq<Task>, i: nat)
    requires i < |tasks| && UniqueIds(tasks)
    ensures tasks[i].id !in GraphOf(tasks[..i])
  {
    GraphHolds(tasks[..i]);
    assert forall j :: 0 <= j < i ==> tasks[..i][j].id == tasks[j].id;
  }

  /** indegree[x] = len(x's dependencies), for the tasks seen so far. */
  ghost predicate Counted(g: Graph, indegree: map<string, int>, done: set<string>) {
    indegree.Keys == done && forall x :: x in indegree ==> x in g && indegree[x] == |g[x]|
  }

  /** One round of the loop over the tasks. */
  method RecordTask(ghost g: Graph, task: Task, ghost done: set<string>, children: map<string, seq<string>>, indegree: map<string, int>)
    returns (r: map<string, seq<string>>, degrees: map<string, int>)
    requires Closed(g) && task.id in g && g[task.id] == task.dependencies && task.id !in done
    requires Recorded(g, children, done) && Counted(g, indegree, done)
    ensures Recorded(g, r, done + {task.id}) && Counted(g, degrees, done + {task.id})
  {
    forall d | d in task.dependencies ensures d in g {
      var k :| 0 <= k < |task.dependencies| && task.dependencies[k] == d;
      assert g[task.id][k] in g;
    }
    r := RecordDependencies(children, task);
    RecordingOne(g, children, done, task.id, r);
    degrees := indegree[task.id := |task.dependencies|];
  }

  method BuildChildren(tasks: seq<Task>) returns (children: map<string, seq<string>>, indegree: map<string, int>)
    requires UniqueIds(tasks) && KnownDependencies(tasks)
    ensures Recorded(GraphOf(tasks), children, GraphOf(tasks).Keys)
    ensures indegree.Keys == GraphOf(tasks).Keys
    ensures forall x :: x in indegree ==> indegree[x] == |GraphOf(tasks)[x]|
  {
    ghost var g := GraphOf(tasks);
    KnownMeansClosed(tasks);
    children := EmptyChildren(tasks);
    NothingRecorded(g, children);
    indegree := map[];
    for i := 0 to |tasks|
      invariant Recorded(g, children, GraphOf(tasks[..i]).Keys) && Counted(g, indegree, GraphOf(tasks[..i]).Keys)
    {
      PrefixIds(tasks, i);
      children, indegree := RecordTask(g, tasks[i], GraphOf(tasks[..i]).Keys, children, indegree);
    }
    assert tasks[..|tasks|] == tasks;
  }

  /** The loop's bookkeeping between two rounds: ready lists exactly the available ids in order,
      and each indegree counts the occurrences of dependencies still to be placed. */
  ghost predicate KahnState(
    g: Graph, rank: string -> nat, order: seq<string>, ready: seq<string>, indegree: map<string, int>)
  {
    && Greedy(g, rank, order)
    && Distinct(ready) && Sorted(rank, ready)
    && (forall x :: x in ready <==> Available(g, order, x))
    && indegree.Keys == g.Keys
    && forall x :: x in g ==> indegree[x] == Pending(g[x], order)
  }

  lemma PlacingOneLowers(g: Graph, placed: seq<string>, x: string)
    requires x !in placed
    ensures forall y :: y in g ==> Pending(g[y], placed) == Pending(g[y], placed + [x]) + Count(g[y], x)
    ensures forall y :: y in g ==> (x in g[y] <==> Count(g[y], x) > 0)
  {
    forall y | y in g
      ensures Pending(g[y], placed) == Pending(g[y], placed + [x]) + Count(g[y], x)
      ensures x in g[y] <==> Count(g[y], x) > 0
    {
      PlacingOne(g[y], placed, x);
      CountPositive(g[y], x);
    }
  }

  lemma NextChild(s: seq<string>, i: nat)
    requires i < |s|
    ensures Count(s, s[i]) > Count(s[..i], s[i])
    ensures forall x :: Count(s[..i + 1], x) == Count(s[..i], x) + if x == s[i] then 1 else 0
  {
    CountPrefix(s, i, s[i]);
    CountAppend(s[..i], s[i]);
    assert s[..i + 1] == s[..i] + [s[i]];
  }

  /** The for loop over children[current]: lowers each child's indegree and collects the ids it
      brings to zero. */
  method Unlock(ghost g: Graph, children: seq<string>, ghost order: seq<string>, current: string, indegree: map<string, int>)
    returns (lowered: map<string, int>, unlocked: seq<string>)
    requires indegree.Keys == g.Keys && current !in order
    requires forall x :: x in g ==> indegree[x] == Pending(g[x], order)
    requires forall x :: Count(children, x) == if x in g then Count(g[x], current) else 0
    ensures lowered.Keys == g.Keys
    ensures forall x :: x in g ==> lowered[x] == Pending(g[x], order + [current])
    ensures Distinct(unlocked)
    ensures forall x :: x in unlocked <==> UnlockedBy(g, order, current, x)
  {
    lowered, unlocked := indegree, [];
    PlacingOneLowers(g, order, current);
    for i := 0 to |children|
      invariant lowered.Keys == g.Keys
      invariant forall x :: x in g ==>
                  lowered[x] == Pending(g[x], order + [current]) + Count(children, x) - Count(children[..i], x)
      invariant Distinct(unlocked)
      invariant forall x :: x in unlocked <==> Count(children[..i], x) > 0 && x in g && lowered[x] == 0
    {
      var child := children[i];
      NextChild(children, i);
      lowered := lowered[child := lowered[child] - 1];
      if lowered[child] == 0 {
        unlocked := unlocked + [child];
      }
    }
    assert children[..|children|] == children;
  }

  lemma FirstReadyIsFirstAvailable(
    g: Graph, rank: string -> nat, order: seq<string>, ready: seq<string>, indegree: map<string, int>)
    requires KahnState(g, rank, order, ready, indegree) && ready != []
    ensures FirstAvailable(g, rank, order, ready[0])
    ensures Greedy(g, rank, order + [ready[0]])
  {
    forall y | Available(g, order, y) ensures ready[0] == y || Before(rank, ready[0], y) {
      assert y in ready;
      BeforeIsTotal(rank, ready[0], y);
    }
    forall i | 0 <= i <= |order|
      ensures FirstAvailable(g, rank, (order + [ready[0]])[..i], (order + [ready[0]])[i])
    {
      assert (order + [ready[0]])[..i] == order[..i];
      assert order[..|order|] == order;
      if i < |order| {
        assert FirstAvailable(g, rank, order[..i], order[i]);
      }
    }
  }

  /** The ids whose last pending dependency is `current`. */
  ghost predicate UnlockedBy(g: Graph, order: seq<string>, current: string, x: string) {
    x in g && current in g[x] && Pending(g[x], order + [current]) == 0
  }

  lemma UnlockedIdsAreNew(g: Graph, rank: string -> nat, order: seq<string>, current: string, x: string)
    requires Greedy(g, rank, order) && Available(g, order, current)
    requires UnlockedBy(g, order, current, x)
    ensures Available(g, order + [current], x) && !Available(g, order, x)
  {
    PendingZero(g[x], order + [current]);
    GreedyRespectsDependencies(g, rank, order);
    PlacedDependenciesArePlaced(g, order);
  }

  lemma NewlyAvailableIdsAreUnlocked(g: Graph, order: seq<string>, current: string, x: string)
    requires Available(g, order + [current], x)
    ensures UnlockedBy(g, order, current, x) || Available(g, order, x)
  {
    PendingZero(g[x], order + [current]);
  }

  /** After placing the first ready id, the available ids are the other ready ones and the
      unlocked ones. */
  lemma NextReady(
    g: Graph, rank: string -> nat, order: seq<string>, ready: seq<string>, indegree: map<string, int>,
    unlocked: seq<string>)
    requires KahnState(g, rank, order, ready, indegree) && ready != []
    requires Distinct(unlocked) && forall x :: x in unlocked <==> UnlockedBy(g, order, ready[0], x)
    ensures Distinct(ready[1..] + unlocked)
    ensures forall x :: x in ready[1..] + unlocked <==> Available(g, order + [ready[0]], x)
  {
    var current := ready[0];
    assert Available(g, order, current);
    assert ready == [current] + ready[1..];
    assert forall x :: x in ready[1..] <==> Available(g, order, x) && x != current;
    forall x | x in unlocked ensures Available(g, order + [current], x) && !Available(g, order, x) {
      UnlockedIdsAreNew(g, rank, order, current, x);
    }
    forall x | Available(g, order + [current], x) ensures x in unlocked || (Available(g, order, x) && x != current) {
      NewlyAvailableIdsAreUnlocked(g, order, current, x);
    }
    assert forall x :: x in ready[1..] ==> x !in unlocked;
    DistinctConcat(ready[1..], unlocked);
  }

  lemma DistinctConcat(a: seq<string>, b: seq<string>)
    requires Distinct(a) && Distinct(b) && forall x :: x in a ==> x !in b
    ensures Distinct(a + b)
  {
    assert forall i :: 0 <= i < |a| ==> a[i] in a;
  }

  lemma SortedIdsAreTheIds(rank: string -> nat, s: seq<string>)
    requires Distinct(s)
    ensures Distinct(SortIds(rank, s)) && Sorted(rank, SortIds(rank, s))
    ensures forall x :: x in SortIds(rank, s) <==> x in s
  {
    SortIdsSorts(rank, s);
    assert forall x :: x in SortIds(rank, s) <==> x in multiset(SortIds(rank, s));
    DistinctByMultiset(s, SortIds(rank, s));
  }

  lemma DistinctByMultiset(a: seq<string>, b: seq<string>)
    requires Distinct(a) && multiset(a) == multiset(b)
    ensures Distinct(b)
  {
    forall x ensures multiset(a)[x] <= 1 {
      DistinctMultiplicity(a, x);
    }
    SingleMultiplicity(b);
  }

  lemma {:induction false} SingleMultiplicity(s: seq<string>)
    requires forall x :: multiset(s)[x] <= 1
    ensures Distinct(s)
  {
    if s != [] {
      var n := |s| - 1;
      assert s == s[..n] + [s[n]];
      assert multiset(s) == multiset(s[..n]) + multiset{s[n]};
      assert multiset(s)[s[n]] <= 1;
      forall x ensures multiset(s[..n])[x] <= 1 {
        assert multiset(s)[x] <= 1;
      }
      SingleMultiplicity(s[..n]);
      assert s[n] !in multiset(s[..n]);
      assert forall i :: 0 <= i < n ==> s[i] == s[..n][i] && s[..n][i] in multiset(s[..n]);
    }
  }

  lemma {:induction false} DistinctMultiplicity(s: seq<string>, x: string)
    requires Distinct(s)
    ensures multiset(s)[x] <= 1
  {
    if s != [] {
      var n := |s| - 1;
      DistinctMultiplicity(s[..n], x);
      assert s == s[..n] + [s[n]];
      assert s[n] !in s[..n];
    }
  }

  method InitialReady(tasks: seq<Task>, rank: string -> nat, indegree: map<string, int>) returns (ready: seq<string>)
    requires UniqueIds(tasks) && indegree.Keys == GraphOf(tasks).Keys
    requires forall x :: x in indegree ==> indegree[x] == |GraphOf(tasks)[x]|
    ensures Distinct(ready) && Sorted(rank, ready)
    ensures forall x :: x in ready <==> Available(GraphOf(tasks), [], x)
  {
    GraphHolds(tasks);
    ready := [];
    for i := 0 to |tasks|
      invariant Distinct(ready)
      invariant forall x :: x in ready <==> exists j :: 0 <= j < i && tasks[j].id == x && indegree[x] == 0
    {
      if indegree[tasks[i].id] == 0 {
        ready := ready + [tasks[i].id];
      }
    }
    SortedIdsAreTheIds(rank, ready);
    ready := SortIds(rank, ready);
    forall x | x in GraphOf(tasks) ensures indegree[x] == 0 <==> forall d :: d in GraphOf(tasks)[x] ==> d in [] {
      if indegree[x] != 0 { assert GraphOf(tasks)[x][0] in GraphOf(tasks)[x]; }
    }
  }

  /** With nothing ready, counting the placed ids decides between an order and a cycle. */
  lemma Verdict(tasks: seq<Task>, rank: string -> nat, order: seq<string>)
    requires UniqueIds(tasks) && KnownDependencies(tasks)
    requires Greedy(GraphOf(tasks), rank, order)
    requires forall y :: !Available(GraphOf(tasks), order, y)
    ensures |order| == |tasks| <==> Acyclic(GraphOf(tasks))
    ensures |order| == |tasks| ==> TopologicalOrder(GraphOf(tasks), order)
    ensures forall x :: x in GraphOf(tasks) ==> (x !in order <==> LeadsToACycle(GraphOf(tasks), x))
  {
    var g := GraphOf(tasks);
    KnownMeansClosed(tasks);
    GreedyRespectsDependencies(g, rank, order);
    UnplacedIdsAreTheCyclicOnes(g, order);
    GreedyFits(g, rank, order);
    FullOrder(tasks, order);
  }

  /** One round of the while loop. */
  method PlaceNext(
    ghost g: Graph, rank: string -> nat, ghost order: seq<string>, ready: seq<string>,
    children: map<string, seq<string>>, indegree: map<string, int>)
    returns (nextReady: seq<string>, lowered: map<string, int>)
    requires Closed(g) && KahnState(g, rank, order, ready, indegree) && ready != []
    requires Recorded(g, children, g.Keys)
    ensures KahnState(g, rank, order + [ready[0]], nextReady, lowered)
  {
    var current := ready[0];
    FirstReadyIsFirstAvailable(g, rank, order, ready, indegree);
    assert forall x :: Count(children[current], x) == if x in g then Count(g[x], current) else 0;
    var unlocked;
    lowered, unlocked := Unlock(g, children[current], order, current, indegree);
    NextReady(g, rank, order, ready, indegree, unlocked);
    if unlocked != [] {
      SortedIdsAreTheIds(rank, ready[1..] + unlocked);
      nextReady := SortIds(rank, ready[1..] + unlocked);
    } else {
      assert ready[1..] + unlocked == ready[1..];
      nextReady := ready[1..];
    }
  }

  /** TaskGraph._ordered_ids: Kahn's algorithm with a deterministic, key-sorted ready list. It
      succeeds exactly on acyclic dependencies, with the least topological order under the key;
      otherwise it names exactly the tasks on a cycle or depending on one. */
  method OrderedIds(tasks: seq<Task>, rank: string -> nat) returns (r: Result<seq<string>, GraphError>)
    requires UniqueIds(tasks) && KnownDependencies(tasks)
    ensures r.Success? <==> Acyclic(GraphOf(tasks))
    ensures r.Success? ==> TopologicalOrder(GraphOf(tasks), r.value) && Greedy(GraphOf(tasks), rank, r.value)
    ensures r.Failure? ==> r.error.DagCycle?
    ensures r.Failure? ==> forall x :: x in r.error.inCycle <==> x in GraphOf(tasks) && LeadsToACycle(GraphOf(tasks), x)
  {
    ghost var g := GraphOf(tasks);
    KnownMeansClosed(tasks);
    var children, indegree := BuildChildren(tasks);
    forall x | x in g ensures Pending(g[x], []) == |g[x]| { NothingPlaced(g[x]); }
    var ready := InitialReady(tasks, rank, indegree);
    var order: seq<string> := [];
    while ready != []
      invariant KahnState(g, rank, order, ready, indegree)
      decreases |g| - |order|
    {
      var current := ready[0];
      ready, indegree := PlaceNext(g, rank, order, ready, children, indegree);
      order := order + [current];
      GreedyFits(g, rank, order);
    }
    Verdict(tasks, rank, order);
    if |order| != |tasks| {
      var inCycle := Unplaced(tasks, order);
      return Failure(DagCycle(inCycle));
    }
    return Success(order);
  }

  lemma GreedyFits(g: Graph, rank: string -> nat, order: seq<string>)
    requires Greedy(g, rank, order)
    ensures |order| <= |g|
    ensures Distinct(order) && forall x :: x in order ==> x in g
  {
    GreedyRespectsDependencies(g, rank, order);
    RespectingOrderIsDistinct(g, order);
    DistinctFits(order, g.Keys);
  }

  lemma {:induction false} GraphSize(tasks: seq<Task>)
    requires UniqueIds(tasks)
    ensures |GraphOf(tasks)| == |tasks|
  {
    if tasks != [] {
      var n := |tasks| - 1;
      GraphSize(tasks[..n]);
      GraphHolds(tasks[..n]);
    }
  }

  /** Counting the placed ids tells whether all are placed. */
  lemma FullOrder(tasks: seq<Task>, order: seq<string>)
    requires UniqueIds(tasks) && Distinct(order) && forall x :: x in order ==> x in GraphOf(tasks)
    ensures |order| == |tasks| <==> forall x :: x in GraphOf(tasks) ==> x in order
  {
    var g := GraphOf(tasks);
    GraphSize(tasks);
    if forall x :: x in g ==> x in order {
      DistinctLength(order, g.Keys);
    } else {
      var y :| y in g && y !in order;
      DistinctFits(order, g.Keys - {y});
    }
  }

  /** sorted(set(index) - set(order)). */
  method Unplaced(tasks: seq<Task>, order: seq<string>) returns (unplaced: seq<string>)
    ensures forall x :: x in unplaced <==> x in GraphOf(tasks) && x !in order
    ensures Sorted(NoRank, unplaced)
  {
    GraphHolds(tasks);
    var left: seq<string> := [];
    for i := 0 to |tasks|
      invariant forall x :: x in left <==> x !in order && exists j :: 0 <= j < i && tasks[j].id == x
    {
      if tasks[i].id !in order {
        left := left + [tasks[i].id];
      }
    }
    SortIdsSorts(NoRank, left);
    unplaced := SortIds(NoRank, left);
    assert forall x :: x in left <==> x in multiset(left);
    assert forall x :: x in unplaced <==> x in multiset(unplaced);
  }

  /** What the error detail of OrderedIds names: every task that leads into a cycle, which are all
      on a cycle exactly when nothing off every cycle depends on a task that is on one. */
  lemma InCycleNamesOnlyMembersExactly(tasks: seq<Task>, inCycle: seq<string>)
    requires forall x :: x in inCycle <==> x in GraphOf(tasks) && LeadsToACycle(GraphOf(tasks), x)
    ensures var g := GraphOf(tasks);
            (forall x :: x in inCycle ==> OnACycle(g, x))
            <==> (forall u, d :: u in g && !OnACycle(g, u) && d in g[u] ==> !OnACycle(g, d))
  {
    LeadingMeansBeingOnExactly(GraphOf(tasks));
  }
}
