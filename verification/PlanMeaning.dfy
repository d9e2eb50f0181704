/** What a plan's verdict comes down to: when a task may run, in terms of the recorded statuses
    alone (tools/agent/orchestration.py). */
module PlanMeaning {
  import opened IdOrder
  import opened DependencyOrder
  import opened Lifecycle
  import opened TaskGraph
  import opened Conflicts
  import opened Orchestration
  import opened Planner
  import opened SchedulerRuns

  /** Recorded as not started, with all its dependencies and every earlier task it conflicts with
      recorded DONE. */
  ghost predicate Eligible(b: Board, s: Statuses, x: string)
    requires ValidState(b, s) && x in GraphOf(b.tasks)
  {
    && (s[x].Planned? || s[x].Ready? || s[x].Blocked?)
    && (forall d :: d in GraphOf(b.tasks)[x] ==> s[d].Done?)
    && (forall y :: y in GraphOf(b.tasks) && Conflicting(b.tasks, b.config, x, y) && Earlier(b.order, y, x) ==> s[y].Done?)
  }

  lemma EligibleTasksAreTheCandidates(b: Board, s: Statuses, x: string)
    requires ValidState(b, s) && x in GraphOf(b.tasks)
    ensures Candidate(b, s, x) <==> Eligible(b, s, x)
  {
    var deps := GraphOf(b.tasks)[x];
    assert AllDone(deps, s) <==> forall d :: d in deps ==> s[d].Done? by {
      if forall d :: d in deps ==> s[d].Done? {
        assert forall i :: 0 <= i < |deps| ==> deps[i] in deps;
      }
    }
    forall y | y in GraphOf(b.tasks) ensures Derived(b.tasks, s, y).Done? <==> s[y].Done? {}
  }

  /** The eligible ones among the first n tasks of the integration order. */
  ghost function EligibleBefore(b: Board, s: Statuses, n: nat): set<string>
    requires ValidState(b, s) && n <= |b.order|
  {
    set x | x in b.order[..n] && x in GraphOf(b.tasks) && Eligible(b, s, x)
  }

  lemma CountingCandidates(b: Board, s: Statuses, n: nat)
    requires ValidState(b, s) && n <= |b.order|
    ensures |CandidatesUpTo(b, s, n)| == |EligibleBefore(b, s, n)|
  {
    CandidatesAreTheCandidates(b, s, n);
    forall x ensures x in CandidatesUpTo(b, s, n) <==> x in EligibleBefore(b, s, n) {
      if x in GraphOf(b.tasks) { EligibleTasksAreTheCandidates(b, s, x); }
    }
    DistinctLength(CandidatesUpTo(b, s, n), EligibleBefore(b, s, n));
  }

  /** The tasks recorded IN_PROGRESS, and nothing else, occupy the slots. */
  lemma {:induction false} ActiveTasksAreTheRunningOnes(b: Board, s: Statuses, n: nat)
    requires ValidState(b, s) && n <= |b.order|
    ensures forall x :: x in ActiveUpTo(b, s, n) <==> x in b.order[..n] && x in s && s[x].InProgress?
    ensures Distinct(ActiveUpTo(b, s, n))
  {
    if n > 0 {
      var x := b.order[n - 1];
      ActiveTasksAreTheRunningOnes(b, s, n - 1);
      OrderHoldsTheIds(b);
      var fewer := ActiveUpTo(b, s, n - 1);
      assert ActiveUpTo(b, s, n) == if x in s && s[x].InProgress? then fewer + [x] else fewer;
      PrefixGrows(b.order, n);
    }
  }

  lemma PrefixGrows(order: seq<string>, n: nat)
    requires 0 < n <= |order| && Distinct(order)
    ensures order[..n] == order[..n - 1] + [order[n - 1]] && order[n - 1] !in order[..n - 1]
  {
  }

  lemma CountingRunningTasks(b: Board, s: Statuses)
    requires ValidState(b, s)
    ensures |ActiveUpTo(b, s, |b.order|)| == |Running(b, s)|
    ensures Slots(b, s) == if |Running(b, s)| < b.config.maxSubAgents then b.config.maxSubAgents - |Running(b, s)| else 0
  {
    ActiveTasksAreTheRunningOnes(b, s, |b.order|);
    OrderHoldsTheIds(b);
    assert b.order[..|b.order|] == b.order;
    DistinctLength(ActiveUpTo(b, s, |b.order|), Running(b, s));
  }

  ghost function Running(b: Board, s: Statuses): set<string>
    requires ValidState(b, s)
  {
    set x | x in GraphOf(b.tasks) && s[x].InProgress?
  }

  /** A task runs exactly when it is eligible and the running tasks, with the eligible ones before
      it in the integration order, leave it a place. */
  lemma RunnableExactly(b: Board, s: Statuses, i: nat)
    requires ValidState(b, s) && i < |b.order| && b.order[i] in GraphOf(b.tasks)
    ensures b.order[i] in Wave(b, s) <==>
              Eligible(b, s, b.order[i]) && |Running(b, s)| + |EligibleBefore(b, s, i)| < b.config.maxSubAgents
  {
    EligibleTasksAreTheCandidates(b, s, b.order[i]);
    CountingCandidates(b, s, i);
    CountingRunningTasks(b, s);
    WaveByPosition(b, s, i);
  }

  // ----- task ids -----------------------------------------------------------

  /** A letter or digit, then up to 62 of those and of ".", "_" and "-", then a letter or digit. */
  ghost predicate SpelledOut(id: string, middle: string) {
    && 2 <= |id| == |middle| + 2 <= 64 && id == [id[0]] + middle + [id[|id| - 1]]
    && IsAlphanumeric(id[0]) && IsAlphanumeric(id[|id| - 1])
    && forall c :: c in middle ==> IsAlphanumeric(c) || c in "._-"
  }

  /** An id is one letter or digit, or spelled out as above; one trailing newline passes too. */
  lemma IdsAreSpelledOut(id: string)
    ensures IsIdText(id) <==> (|id| == 1 && IsAlphanumeric(id[0])) || exists middle :: SpelledOut(id, middle)
    ensures ValidTaskId(id) <==> IsIdText(id) || exists core :: IsIdText(core) && id == core + "\n"
  {
    if IsIdText(id) && |id| > 1 {
      var middle := id[1..|id| - 1];
      assert id == [id[0]] + middle + [id[|id| - 1]];
      forall c | c in middle ensures IsAlphanumeric(c) || c in "._-" {
        var i :| 0 <= i < |middle| && middle[i] == c;
        assert id[i + 1] == c;
      }
      assert SpelledOut(id, middle);
    }
    if middle :| SpelledOut(id, middle) {
      forall i | 0 < i < |id| - 1 ensures IsAlphanumeric(id[i]) || id[i] in "._-" {
        assert id[i] == middle[i - 1];
      }
    }
    if id != "" && id[|id| - 1] == '\n' {
      assert id == id[..|id| - 1] + "\n";
    }
  }
}
