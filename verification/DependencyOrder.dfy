/** Dependency graphs and the orders that respect them: what an integration order is, which one
    is least, and why there is none exactly when some dependencies form a cycle. */
module DependencyOrder {
  import opened IdOrder

  /** Each task id with the ids it depends on, repetitions included. */
  type Graph = map<string, seq<string>>

  ghost predicate Closed(g: Graph) {
    forall x, i :: x in g && 0 <= i < |g[x]| ==> g[x][i] in g
  }

  /** Not placed yet, with every dependency placed. */
  ghost predicate Available(g: Graph, placed: seq<string>, x: string) {
    x in g && x !in placed && forall d :: d in g[x] ==> d in placed
  }

  /** Distinct ids, each after all its dependencies. */
  ghost predicate RespectsDependencies(g: Graph, order: seq<string>) {
    forall i :: 0 <= i < |order| ==> Available(g, order[..i], order[i])
  }

  ghost predicate TopologicalOrder(g: Graph, order: seq<string>) {
    RespectsDependencies(g, order) && forall x :: x in g ==> x in order
  }

  /** Each position holds the first of the ids available there. */
  ghost predicate Greedy(g: Graph, rank: string -> nat, order: seq<string>) {
    forall i :: 0 <= i < |order| ==> FirstAvailable(g, rank, order[..i], order[i])
  }

  ghost predicate FirstAvailable(g: Graph, rank: string -> nat, placed: seq<string>, x: string) {
    Available(g, placed, x) && forall y :: Available(g, placed, y) ==> x == y || Before(rank, x, y)
  }

  /** a and b first differ at a position where a has the smaller id. */
  ghost predicate LexBefore(rank: string -> nat, a: seq<string>, b: seq<string>) {
    exists k :: 0 <= k < |a| && k < |b| && a[..k] == b[..k] && Before(rank, a[k], b[k])
  }

  /** c[0] depends on c[1], c[1] on c[2], ..., and the last on c[0]. */
  ghost predicate Cycle(g: Graph, c: seq<string>) {
    c != [] && Chain(g, c) && c[0] in g[c[|c| - 1]]
  }

  /** Each id depends on the next one. */
  ghost predicate Chain(g: Graph, p: seq<string>) {
    && (forall i :: 0 <= i < |p| ==> p[i] in g)
    && (forall i :: 0 <= i < |p| - 1 ==> p[i + 1] in g[p[i]])
  }

  ghost predicate Acyclic(g: Graph) {
    forall c :: !Cycle(g, c)
  }

  // ----- orders -------------------------------------------------------------

  lemma RespectingOrderIsDistinct(g: Graph, order: seq<string>)
    requires RespectsDependencies(g, order)
    ensures Distinct(order) && forall x :: x in order ==> x in g
  {
    forall i, j | 0 <= i < j < |order| ensures order[i] != order[j] {
      assert Available(g, order[..j], order[j]);
      assert order[..j][i] == order[i];
    }
  }

  lemma GreedyRespectsDependencies(g: Graph, rank: string -> nat, order: seq<string>)
    requires Greedy(g, rank, order)
    ensures RespectsDependencies(g, order)
  {
    forall i | 0 <= i < |order| ensures Available(g, order[..i], order[i]) {
      assert FirstAvailable(g, rank, order[..i], order[i]);
    }
  }

  lemma TopologicalOrdersAgreeInLength(g: Graph, a: seq<string>, b: seq<string>)
    requires TopologicalOrder(g, a) && TopologicalOrder(g, b)
    ensures |a| == |b|
  {
    RespectingOrderIsDistinct(g, a);
    RespectingOrderIsDistinct(g, b);
    DistinctLength(a, g.Keys);
    DistinctLength(b, g.Keys);
  }

  lemma {:induction false} DistinctLength(s: seq<string>, all: set<string>)
    requires Distinct(s) && forall x :: x in s <==> x in all
    ensures |s| == |all|
  {
    if s == [] {
      assert all == {};
    } else {
      var n := |s| - 1;
      forall x ensures x in s[..n] <==> x in all - {s[n]} {
        if x in all - {s[n]} {
          var i :| 0 <= i < |s| && s[i] == x;
          assert s[..n][i] == x;
        }
      }
      DistinctLength(s[..n], all - {s[n]});
    }
  }

  /** Taking the first available id at every step yields the least of all topological orders. */
  lemma GreedyIsLeast(g: Graph, rank: string -> nat, order: seq<string>, other: seq<string>)
    requires Greedy(g, rank, order) && TopologicalOrder(g, order) && TopologicalOrder(g, other)
    ensures other == order || LexBefore(rank, order, other)
  {
    TopologicalOrdersAgreeInLength(g, order, other);
    if other != order {
      var k := FirstDifference(order, other, 0);
      assert FirstAvailable(g, rank, order[..k], order[k]);
      assert Available(g, other[..k], other[k]);
    }
  }

  lemma {:induction false} FirstDifference(a: seq<string>, b: seq<string>, from: nat) returns (k: nat)
    requires |a| == |b| && a != b && from <= |a| && a[..from] == b[..from]
    ensures k < |a| && a[..k] == b[..k] && a[k] != b[k]
    decreases |a| - from
  {
    assert a[..|a|] == a && b[..|b|] == b;
    assert from < |a|;
    if a[from] == b[from] {
      assert a[..from + 1] == a[..from] + [a[from]];
      assert b[..from + 1] == b[..from] + [b[from]];
      k := FirstDifference(a, b, from + 1);
    } else {
      k := from;
    }
  }

  // ----- cycles -------------------------------------------------------------

  /** No member of a cycle can ever be placed. */
  lemma {:induction false} CycleIsNeverPlaced(g: Graph, order: seq<string>, c: seq<string>, i: nat)
    requires RespectsDependencies(g, order) && Cycle(g, c) && i < |order|
    ensures order[i] !in c
  {
    if order[i] in c {
      var k :| 0 <= k < |c| && c[k] == order[i];
      var next := if k == |c| - 1 then c[0] else c[k + 1];
      assert next in g[c[k]];
      assert Available(g, order[..i], order[i]);
      var j :| 0 <= j < i && order[..i][j] == next;
      CycleIsNeverPlaced(g, order, c, j);
      assert false;
    }
  }

  /** When no id is available any more, following unplaced dependencies from any unplaced id
      runs into a cycle: the chain starts at the id and its tail from `entry` on is the cycle. */
  lemma BackEdgeClosesACycle(g: Graph, chain: seq<string>, entry: nat)
    requires Chain(g, chain) && entry < |chain| && chain[entry] in g[chain[|chain| - 1]]
    ensures Cycle(g, chain[entry..])
  {
    var c := chain[entry..];
    assert c[0] == chain[entry] && c[|c| - 1] == chain[|chain| - 1];
    forall i | 0 <= i < |c| - 1 ensures c[i + 1] in g[c[i]] {
      assert chain[entry + i + 1] in g[chain[entry + i]];
    }
  }

  lemma ChainExtends(g: Graph, walked: seq<string>, next: string)
    requires walked != [] && Chain(g, walked) && Distinct(walked) && next in g && next !in walked
    requires next in g[walked[|walked| - 1]]
    ensures Chain(g, walked + [next]) && Distinct(walked + [next])
  {
  }

  lemma {:induction false} StuckIdsLeadToACycle(g: Graph, placed: seq<string>, walked: seq<string>)
    returns (chain: seq<string>, entry: nat)
    requires Closed(g) && (forall y :: y in g ==> !Available(g, placed, y))
    requires walked != [] && Chain(g, walked) && Distinct(walked) && forall y :: y in walked ==> y !in placed
    ensures Chain(g, chain) && entry < |chain| && Cycle(g, chain[entry..])
    ensures walked <= chain && forall y :: y in chain ==> y !in placed
    decreases |g.Keys| + 1 - |walked|
  {
    var last := walked[|walked| - 1];
    assert !Available(g, placed, last);
    var next :| next in g[last] && next !in placed;
    DistinctFits(walked, g.Keys);
    if next in walked {
      entry :| 0 <= entry < |walked| && walked[entry] == next;
      chain := walked;
      BackEdgeClosesACycle(g, chain, entry);
    } else {
      ChainExtends(g, walked, next);
      chain, entry := StuckIdsLeadToACycle(g, placed, walked + [next]);
      assert walked <= walked + [next];
    }
  }

  lemma {:induction false} DistinctFits(s: seq<string>, all: set<string>)
    requires Distinct(s) && forall x :: x in s ==> x in all
    ensures |s| <= |all|
  {
    if s != [] {
      var n := |s| - 1;
      forall x | x in s[..n] ensures x in all - {s[n]} {
        var i :| 0 <= i < n && s[..n][i] == x;
        assert s[i] != s[n];
      }
      DistinctFits(s[..n], all - {s[n]});
    }
  }

  /** x is on a cycle or depends, transitively, on one. */
  ghost predicate LeadsToACycle(g: Graph, x: string) {
    exists chain, entry :: 0 <= entry < |chain| && Chain(g, chain) && chain[0] == x && Cycle(g, chain[entry..])
  }

  lemma PlacedDependenciesArePlaced(g: Graph, order: seq<string>)
    requires RespectsDependencies(g, order)
    ensures forall x :: x in order ==> x in g
    ensures forall x, d :: x in order && d in g[x] ==> d in order
  {
    RespectingOrderIsDistinct(g, order);
    forall x, d | x in order && d in g[x] ensures d in order {
      var i :| 0 <= i < |order| && order[i] == x;
      assert Available(g, order[..i], order[i]);
      assert d in order[..i];
    }
  }

  lemma {:induction false} ChainIntoACycleIsNeverPlaced(g: Graph, order: seq<string>, chain: seq<string>, entry: nat, k: nat)
    requires RespectsDependencies(g, order) && Chain(g, chain) && entry < |chain| && Cycle(g, chain[entry..])
    requires k <= entry
    ensures chain[k] !in order
    decreases entry - k
  {
    if k == entry {
      assert chain[entry..][0] == chain[k];
      forall i | 0 <= i < |order| ensures order[i] !in chain[entry..] {
        CycleIsNeverPlaced(g, order, chain[entry..], i);
      }
    } else {
      ChainIntoACycleIsNeverPlaced(g, order, chain, entry, k + 1);
      assert chain[k + 1] in g[chain[k]];
      PlacedDependenciesArePlaced(g, order);
    }
  }

  lemma CycleStaysUnplaced(g: Graph, order: seq<string>, c: seq<string>)
    requires RespectsDependencies(g, order) && Cycle(g, c)
    ensures c[0] in g && c[0] !in order
  {
    assert c[0..] == c;
    ChainIntoACycleIsNeverPlaced(g, order, c, 0, 0);
  }

  /** When nothing is available any more, the unplaced ids are exactly those on a cycle or
      depending on one; so everything is placed exactly when the graph is acyclic. */
  lemma UnplacedIdsAreTheCyclicOnes(g: Graph, order: seq<string>)
    requires Closed(g) && RespectsDependencies(g, order) && forall y :: y in g ==> !Available(g, order, y)
    ensures forall x :: x in g ==> (x !in order <==> LeadsToACycle(g, x))
    ensures (forall x :: x in g ==> x in order) <==> Acyclic(g)
  {
    forall x | x in g ensures x !in order <==> LeadsToACycle(g, x) {
      if x !in order {
        var chain, entry := StuckIdsLeadToACycle(g, order, [x]);
        assert chain[0] == x;
      }
      if LeadsToACycle(g, x) {
        var chain, entry :| 0 <= entry < |chain| && Chain(g, chain) && chain[0] == x && Cycle(g, chain[entry..]);
        ChainIntoACycleIsNeverPlaced(g, order, chain, entry, 0);
      }
    }
    forall c | Cycle(g, c) ensures c[0] in g && c[0] !in order {
      CycleStaysUnplaced(g, order, c);
    }
    if Acyclic(g) {
      forall x | x in g ensures x in order {
        if x !in order {
          var chain, entry := StuckIdsLeadToACycle(g, order, [x]);
        }
      }
    }
  }

  // ----- on a cycle, or only downstream of one ------------------------------

  ghost predicate OnACycle(g: Graph, x: string) {
    exists c :: Cycle(g, c) && x in c
  }

  /** The chain from x into the cycle at `entry`. */
  ghost predicate ChainIntoCycle(g: Graph, chain: seq<string>, entry: nat, x: string) {
    entry < |chain| && Chain(g, chain) && chain[0] == x && Cycle(g, chain[entry..])
  }

  lemma MembersLeadToTheirCycle(g: Graph, x: string)
    requires OnACycle(g, x)
    ensures LeadsToACycle(g, x) && x in g
  {
    var c :| Cycle(g, c) && x in c;
    var k :| 0 <= k < |c| && c[k] == x;
    var rotated := c[k..] + c[..k];
    forall i | 0 <= i < |rotated| - 1 ensures rotated[i + 1] in g[rotated[i]] {
      RotatedStep(g, c, k, i);
    }
    forall i | 0 <= i < |rotated| ensures rotated[i] in g {
      assert rotated[i] == if i < |c| - k then c[k + i] else c[i - (|c| - k)];
    }
    assert Cycle(g, rotated[0..]) by {
      assert rotated[0..] == rotated;
      if k > 0 {
        assert rotated[|rotated| - 1] == c[k - 1] && c[k - 1 + 1] in g[c[k - 1]];
      } else {
        assert rotated == c;
      }
    }
  }

  lemma RotatedStep(g: Graph, c: seq<string>, k: nat, i: nat)
    requires Cycle(g, c) && k < |c| && i < |c| - 1
    ensures var r := c[k..] + c[..k]; r[i] in g && r[i + 1] in g[r[i]]
  {
    var n := |c| - k;
    if i + 1 < n {
      assert c[k + i + 1] in g[c[k + i]];
    } else if i + 1 == n {
      assert c[0] in g[c[|c| - 1]];
    } else {
      assert c[i - n + 1] in g[c[i - n]];
    }
  }

  /** Where a chain into a cycle starts off every cycle, some task off every cycle depends directly
      on one that is on a cycle. */
  lemma {:induction false} ChainsEnterSomewhere(g: Graph, chain: seq<string>, entry: nat, x: string) returns (u: string, d: string)
    requires ChainIntoCycle(g, chain, entry, x) && !OnACycle(g, x)
    ensures u in g && !OnACycle(g, u) && d in g[u] && OnACycle(g, d)
    decreases |chain|
  {
    assert chain[0..] == chain && chain[0] in chain;
    var rest := chain[1..];
    assert chain[1] in g[chain[0]];
    forall i | 0 <= i < |rest| - 1 ensures rest[i + 1] in g[rest[i]] {
      assert chain[i + 2] in g[chain[i + 1]];
    }
    if OnACycle(g, chain[1]) {
      u, d := x, chain[1];
    } else {
      assert rest[entry - 1..] == chain[entry..];
      u, d := ChainsEnterSomewhere(g, rest, entry - 1, chain[1]);
    }
  }

  /** Depending on a task that leads into a cycle leads into it too. */
  lemma DependingOnItLeadsThere(g: Graph, x: string, d: string)
    requires x in g && d in g[x] && LeadsToACycle(g, d)
    ensures LeadsToACycle(g, x)
  {
    var chain, entry :| 0 <= entry < |chain| && Chain(g, chain) && chain[0] == d && Cycle(g, chain[entry..]);
    var longer := [x] + chain;
    forall i | 0 <= i < |longer| - 1 ensures longer[i + 1] in g[longer[i]] {
      assert i > 0 ==> chain[i] in g[chain[i - 1]];
    }
    assert longer[entry + 1..] == chain[entry..];
    assert Chain(g, longer) && longer[0] == x && Cycle(g, longer[entry + 1..]);
  }

  /** Everything that leads into a cycle is on one exactly when no task off every cycle depends on a
      task that is on a cycle. */
  lemma LeadingMeansBeingOnExactly(g: Graph)
    ensures (forall x :: x in g && LeadsToACycle(g, x) ==> OnACycle(g, x))
       <==> (forall u, d :: u in g && !OnACycle(g, u) && d in g[u] ==> !OnACycle(g, d))
  {
    if forall u, d :: u in g && !OnACycle(g, u) && d in g[u] ==> !OnACycle(g, d) {
      forall x | x in g && LeadsToACycle(g, x) ensures OnACycle(g, x) {
        if !OnACycle(g, x) {
          var chain, entry :| 0 <= entry < |chain| && Chain(g, chain) && chain[0] == x && Cycle(g, chain[entry..]);
          var u, d := ChainsEnterSomewhere(g, chain, entry, x);
        }
      }
    }
    if u, d :| u in g && !OnACycle(g, u) && d in g[u] && OnACycle(g, d) {
      MembersLeadToTheirCycle(g, d);
      DependingOnItLeadsThere(g, u, d);
    }
  }

  /** A and B depend on each other and C on A: C leads into the cycle without being on one. */
  lemma DownstreamOfACycle()
    ensures var g := map["A" := ["B"], "B" := ["A"], "C" := ["A"]];
            Closed(g) && LeadsToACycle(g, "C") && !OnACycle(g, "C")
  {
    var g: Graph := map["A" := ["B"], "B" := ["A"], "C" := ["A"]];
    var chain := ["C", "A", "B"];
    assert chain[1..] == ["A", "B"];
    assert Chain(g, chain) && Cycle(g, chain[1..]);
    NobodysDependencyIsOffCycles(g, "C");
  }

  lemma NobodysDependencyIsOffCycles(g: Graph, x: string)
    requires forall y :: y in g ==> x !in g[y]
    ensures !OnACycle(g, x)
  {
    forall c | Cycle(g, c) ensures x !in c {
      forall k | 0 <= k < |c| ensures c[k] != x {
        var before := if k > 0 then c[k - 1] else c[|c| - 1];
        assert k > 0 ==> c[k - 1 + 1] in g[c[k - 1]];
        assert c[k] in g[before];
      }
    }
  }
}
