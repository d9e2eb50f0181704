/** Pairwise conflict classification of ownership surfaces (tools/agent/conflicts.py). */
module Conflicts {
  import opened Wrappers
  import opened Globs
  import opened PatternText
  import opened TaskGraph
  import opened Ownership

  const AUTO_RESOLVABLE_CEILING := 1

  /** level is 0 to 4, for C0 to C4. */
  datatype PairConflict = PairConflict(left: string, right: string, level: nat, overlaps: seq<(string, string)>) {
    predicate AutoResolvable() {
      level <= AUTO_RESOLVABLE_CEILING
    }
  }

  function ClassifyPattern(pattern: string, config: Config, shared: seq<string>): (level: nat)
    ensures 1 <= level <= 4
  {
    if Reaches(pattern, config.safetyPaths) then 4
    else if Reaches(pattern, config.publicTruthPaths) then 3
    else if Reaches(pattern, shared) then 2
    else 1
  }

  function OverlapLevel(p: string, q: string, config: Config, shared: seq<string>): nat {
    var a, b := ClassifyPattern(p, config, shared), ClassifyPattern(q, config, shared);
    if a < b then b else a
  }

  ghost predicate OverlappingPair(left: Task, right: Task, p: string, q: string) {
    p in Surface(left) && q in Surface(right) && PatternsOverlap(p, q)
  }

  /** The pair's level is the highest one any two overlapping patterns reach, C0 if none overlap. */
  ghost predicate IsPairLevel(left: Task, right: Task, config: Config, level: nat) {
    var shared := left.sharedContracts + right.sharedContracts;
    && (forall p, q | OverlappingPair(left, right, p, q) :: OverlapLevel(p, q, config, shared) <= level)
    && (level > 0 ==> exists p, q :: OverlappingPair(left, right, p, q) && OverlapLevel(p, q, config, shared) == level)
  }

  lemma PairLevelIsUnique(left: Task, right: Task, config: Config, a: nat, b: nat)
    requires IsPairLevel(left, right, config, a) && IsPairLevel(left, right, config, b)
    ensures a == b
  {
  }

  method ClassifyPair(left: Task, right: Task, config: Config) returns (c: PairConflict)
    ensures c.left == left.id && c.right == right.id
    ensures IsPairLevel(left, right, config, c.level)
    ensures forall p, q :: (p, q) in c.overlaps <==> OverlappingPair(left, right, p, q)
  {
    var shared := left.sharedContracts + right.sharedContracts;
    var mine, others := Surface(left), Surface(right);
    var overlaps: seq<(string, string)> := [];
    var level := 0;
    for i := 0 to |mine|
      invariant forall p, q :: (p, q) in overlaps <==> p in mine[..i] && q in others && PatternsOverlap(p, q)
      invariant forall o :: o in overlaps ==> OverlapLevel(o.0, o.1, config, shared) <= level
      invariant level > 0 ==> exists o :: o in overlaps && OverlapLevel(o.0, o.1, config, shared) == level
    {
      assert mine[..i + 1] == mine[..i] + [mine[i]];
      for j := 0 to |others|
        invariant forall p, q :: (p, q) in overlaps <==>
                    (p in mine[..i] && q in others && PatternsOverlap(p, q))
                    || (p == mine[i] && q in others[..j] && PatternsOverlap(p, q))
        invariant forall o :: o in overlaps ==> OverlapLevel(o.0, o.1, config, shared) <= level
        invariant level > 0 ==> exists o :: o in overlaps && OverlapLevel(o.0, o.1, config, shared) == level
      {
        assert others[..j + 1] == others[..j] + [others[j]];
        if PatternsOverlap(mine[i], others[j]) {
          var reached := OverlapLevel(mine[i], others[j], config, shared);
          overlaps := overlaps + [(mine[i], others[j])];
          assert overlaps[|overlaps| - 1] == (mine[i], others[j]);
          level := if level < reached then reached else level;
        }
      }
      assert others[..|others|] == others;
    }
    assert mine[..|mine|] == mine;
    forall p, q ensures (p, q) in overlaps <==> OverlappingPair(left, right, p, q) {}
    if level > 0 {
      var o :| o in overlaps && OverlapLevel(o.0, o.1, config, shared) == level;
      assert OverlappingPair(left, right, o.0, o.1);
    }
    c := PairConflict(left.id, right.id, level, overlaps);
  }

  // ----- consequences -------------------------------------------------------

  lemma OverlapIsSymmetric(p: string, q: string)
    ensures PatternsOverlap(p, q) <==> PatternsOverlap(q, p)
  {
  }

  /** A conflict above the auto-resolvable ceiling. */
  ghost predicate Blocks(left: Task, right: Task, config: Config) {
    exists level: nat :: IsPairLevel(left, right, config, level) && level > AUTO_RESOLVABLE_CEILING
  }

  lemma LevelIsSymmetric(left: Task, right: Task, config: Config, level: nat)
    requires IsPairLevel(left, right, config, level)
    ensures IsPairLevel(right, left, config, level)
  {
    var shared, swapped := left.sharedContracts + right.sharedContracts, right.sharedContracts + left.sharedContracts;
    forall p, q ensures OverlapLevel(p, q, config, shared) == OverlapLevel(q, p, config, swapped) {
      SharedOrderDoesNotMatter(p, config, shared, swapped);
      SharedOrderDoesNotMatter(q, config, shared, swapped);
    }
    forall p, q ensures OverlappingPair(right, left, p, q) <==> OverlappingPair(left, right, q, p) {
      OverlapIsSymmetric(p, q);
    }
    if level > 0 {
      var p, q :| OverlappingPair(left, right, p, q) && OverlapLevel(p, q, config, shared) == level;
      assert OverlappingPair(right, left, q, p) && OverlapLevel(q, p, config, swapped) == level;
    }
  }

  lemma SharedOrderDoesNotMatter(p: string, config: Config, a: seq<string>, b: seq<string>)
    requires forall x :: x in a <==> x in b
    ensures ClassifyPattern(p, config, a) == ClassifyPattern(p, config, b)
  {
    assert Reaches(p, a) ==> Reaches(p, b) by {
      if Reaches(p, a) {
        var i :| 0 <= i < |a| && PatternsOverlap(p, a[i]);
        assert a[i] in b;
      }
    }
    assert Reaches(p, b) ==> Reaches(p, a) by {
      if Reaches(p, b) {
        var i :| 0 <= i < |b| && PatternsOverlap(p, b[i]);
        assert b[i] in a;
      }
    }
  }

  lemma BlocksIsSymmetric(left: Task, right: Task, config: Config)
    ensures Blocks(left, right, config) <==> Blocks(right, left, config)
  {
    if Blocks(left, right, config) {
      var level: nat :| IsPairLevel(left, right, config, level) && level > AUTO_RESOLVABLE_CEILING;
      LevelIsSymmetric(left, right, config, level);
    }
    if Blocks(right, left, config) {
      var level: nat :| IsPairLevel(right, left, config, level) && level > AUTO_RESOLVABLE_CEILING;
      LevelIsSymmetric(right, left, config, level);
    }
  }

  /** Tasks classified C0 own disjoint sets of paths: with trimmed patterns, two tasks that both
      own some path are classified above C0. */
  lemma OwnersOfOnePathConflict(left: Task, right: Task, config: Config, level: nat, path: string)
    requires IsPairLevel(left, right, config, level) && (!EndsWithNewline(path) || IsGlob(path))
    requires forall p :: p in Surface(left) || p in Surface(right) ==> Trimmed(p)
    requires Owns(left, path) && Owns(right, path)
    ensures level > 0
  {
    var p := OwningPattern(left, path);
    var q := OwningPattern(right, path);
    OverlapIsConservative(path, p, q);
    assert OverlappingPair(left, right, p, q);
  }

  lemma OwningPattern(t: Task, path: string) returns (p: string)
    requires Owns(t, path) && forall p :: p in Surface(t) ==> Trimmed(p)
    ensures p in Surface(t) && MatchesPattern(path, p)
  {
    var normalized := NormalizeAll(Surface(t)).value;
    var i :| 0 <= i < |normalized| && MatchesPattern(path, normalized[i]);
    p := Surface(t)[i];
    TrimTrims(p);
  }

  /** Untrimmed patterns can hide a conflict: the pair is classified on the raw text, ownership
      is decided on the trimmed one. */
  lemma AnUntrimmedPatternCanHideAConflict(config: Config) returns (left: Task, right: Task)
    ensures IsPairLevel(left, right, config, 0)
    ensures Owns(left, "a") && Owns(right, "a")
  {
    left := Task("T1", [], "worker", [" a"], [], [], false, [], false);
    right := Task("T2", [], "worker", ["a"], [], [], false, [], false);
    assert TrimLeft(" a") == TrimLeft("a") by { assert " a"[1..] == "a"; }
    assert Trim(" a") == "a" && Trim("a") == "a";
    assert NormalizePattern(" a") == Some("a") && NormalizePattern("a") == Some("a") by {
      assert !HasBadSegment("a");
    }
    LiteralMatches("a", "a");
    forall t | t == left || t == right ensures NormalizeAll(Surface(t)).Some? && NormalizeAll(Surface(t)).value[0] == "a" {
      assert |Surface(t)| == 1 && NormalizePattern(Surface(t)[0]) == Some("a");
    }
    forall p, q ensures !OverlappingPair(left, right, p, q) {
      assert p in Surface(left) ==> p == " a";
      assert q in Surface(right) ==> q == "a";
    }
  }

  /** The pair at positions i < j, classified. */
  ghost predicate Classifies(tasks: seq<Task>, config: Config, i: nat, j: nat, c: PairConflict) {
    i < j < |tasks| && c.left == tasks[i].id && c.right == tasks[j].id && IsPairLevel(tasks[i], tasks[j], config, c.level)
  }

  ghost predicate Classified(tasks: seq<Task>, config: Config, i: nat, j: nat, conflicts: seq<PairConflict>) {
    exists c :: c in conflicts && Classifies(tasks, config, i, j, c)
  }

  lemma StaysClassified(tasks: seq<Task>, config: Config, conflicts: seq<PairConflict>, c: PairConflict)
    ensures forall i, j :: 0 <= i && 0 <= j && Classified(tasks, config, i, j, conflicts) ==>
              Classified(tasks, config, i, j, conflicts + [c])
  {
    forall i, j | 0 <= i && 0 <= j && Classified(tasks, config, i, j, conflicts)
      ensures Classified(tasks, config, i, j, conflicts + [c])
    {
      var b :| b in conflicts && Classifies(tasks, config, i, j, b);
      assert b in conflicts + [c];
    }
  }

  /** Every unordered task pair, classified. */
  method ClassifyAll(tasks: seq<Task>, config: Config) returns (conflicts: seq<PairConflict>)
    ensures forall c :: c in conflicts ==> exists i, j :: 0 <= i && 0 <= j && Classifies(tasks, config, i, j, c)
    ensures forall i, j :: 0 <= i < j < |tasks| ==> Classified(tasks, config, i, j, conflicts)
  {
    conflicts := [];
    for i := 0 to |tasks|
      invariant forall c :: c in conflicts ==> exists k, j :: 0 <= k && 0 <= j && Classifies(tasks, config, k, j, c)
      invariant forall k, j :: 0 <= k < i && k < j < |tasks| ==> Classified(tasks, config, k, j, conflicts)
    {
      for n := i + 1 to |tasks|
        invariant forall c :: c in conflicts ==> exists k, j :: 0 <= k && 0 <= j && Classifies(tasks, config, k, j, c)
        invariant forall k, j :: 0 <= k < i && k < j < |tasks| ==> Classified(tasks, config, k, j, conflicts)
        invariant forall j :: i < j < n ==> Classified(tasks, config, i, j, conflicts)
      {
        var c := ClassifyPair(tasks[i], tasks[n], config);
        assert Classifies(tasks, config, i, n, c);
        StaysClassified(tasks, config, conflicts, c);
        conflicts := conflicts + [c];
        assert c in conflicts;
      }
    }
  }

  /** requires_serial_review. */
  predicate RequiresSerialReview(t: Task, config: Config) {
    t.safetyCritical || exists i :: 0 <= i < |t.allowedPaths| && Reaches(t.allowedPaths[i], config.safetyPaths)
  }

  // ----- what the levels mean -----------------------------------------------

  ghost predicate OverlapsOneOf(p: string, patterns: seq<string>) {
    exists q :: q in patterns && PatternsOverlap(p, q)
  }

  /** Some overlap of the two surfaces involves a pattern that overlaps one of these. */
  ghost predicate OverlapIn(left: Task, right: Task, patterns: seq<string>) {
    exists p, q :: OverlappingPair(left, right, p, q) && (OverlapsOneOf(p, patterns) || OverlapsOneOf(q, patterns))
  }

  lemma ReachesMeans(p: string, patterns: seq<string>)
    ensures Reaches(p, patterns) <==> OverlapsOneOf(p, patterns)
  {
    if OverlapsOneOf(p, patterns) {
      var q :| q in patterns && PatternsOverlap(p, q);
      var i :| 0 <= i < |patterns| && patterns[i] == q;
    }
  }

  lemma OverlapLevelMeans(p: string, q: string, config: Config, shared: seq<string>)
    ensures var level := OverlapLevel(p, q, config, shared);
            && 1 <= level <= 4
            && (level == 4 <==> OverlapsOneOf(p, config.safetyPaths) || OverlapsOneOf(q, config.safetyPaths))
            && (level >= 3 <==> || OverlapsOneOf(p, config.safetyPaths) || OverlapsOneOf(q, config.safetyPaths)
                                || OverlapsOneOf(p, config.publicTruthPaths) || OverlapsOneOf(q, config.publicTruthPaths))
            && (level >= 2 <==> || OverlapsOneOf(p, config.safetyPaths) || OverlapsOneOf(q, config.safetyPaths)
                                || OverlapsOneOf(p, config.publicTruthPaths) || OverlapsOneOf(q, config.publicTruthPaths)
                                || OverlapsOneOf(p, shared) || OverlapsOneOf(q, shared))
  {
    forall r | r == p || r == q
      ensures Reaches(r, config.safetyPaths) <==> OverlapsOneOf(r, config.safetyPaths)
      ensures Reaches(r, config.publicTruthPaths) <==> OverlapsOneOf(r, config.publicTruthPaths)
      ensures Reaches(r, shared) <==> OverlapsOneOf(r, shared)
    {
      ReachesMeans(r, config.safetyPaths);
      ReachesMeans(r, config.publicTruthPaths);
      ReachesMeans(r, shared);
    }
  }

  /** The level of a pair: 0 without an overlap, 4 when an overlap touches a safety path, 3 when one
      touches a public truth but none a safety path, 2 for a shared contract only, else 1. */
  lemma PairLevelMeans(left: Task, right: Task, config: Config, level: nat)
    requires IsPairLevel(left, right, config, level)
    ensures var shared := left.sharedContracts + right.sharedContracts;
            var safety, truth := OverlapIn(left, right, config.safetyPaths), OverlapIn(left, right, config.publicTruthPaths);
            && level <= 4
            && (level == 0 <==> forall p, q :: !OverlappingPair(left, right, p, q))
            && (level == 4 <==> safety)
            && (level >= 3 <==> safety || truth)
            && (level >= 2 <==> safety || truth || OverlapIn(left, right, shared))
  {
    var shared := left.sharedContracts + right.sharedContracts;
    forall p, q | OverlappingPair(left, right, p, q) ensures 1 <= OverlapLevel(p, q, config, shared) <= level {}
    if level > 0 {
      var p, q :| OverlappingPair(left, right, p, q) && OverlapLevel(p, q, config, shared) == level;
      OverlapLevelMeans(p, q, config, shared);
    }
    OverlapReachesLevel(left, right, config, level);
  }

  /** ... one direction: an overlap in one of the lists raises the level. */
  lemma OverlapReachesLevel(left: Task, right: Task, config: Config, level: nat)
    requires IsPairLevel(left, right, config, level)
    ensures OverlapIn(left, right, config.safetyPaths) ==> level >= 4
    ensures OverlapIn(left, right, config.publicTruthPaths) ==> level >= 3
    ensures OverlapIn(left, right, left.sharedContracts + right.sharedContracts) ==> level >= 2
  {
    var shared := left.sharedContracts + right.sharedContracts;
    forall p, q | OverlappingPair(left, right, p, q)
      ensures OverlapsOneOf(p, config.safetyPaths) || OverlapsOneOf(q, config.safetyPaths) ==> level >= 4
      ensures OverlapsOneOf(p, config.publicTruthPaths) || OverlapsOneOf(q, config.publicTruthPaths) ==> level >= 3
      ensures OverlapsOneOf(p, shared) || OverlapsOneOf(q, shared) ==> level >= 2
    {
      OverlapLevelMeans(p, q, config, shared);
    }
  }

  /** Two tasks block each other exactly when an overlap of theirs touches a safety path, a public
      truth, or a contract one of them declares shared. */
  lemma BlocksMeans(left: Task, right: Task, config: Config, level: nat)
    requires IsPairLevel(left, right, config, level)
    ensures Blocks(left, right, config) <==>
              || OverlapIn(left, right, config.safetyPaths)
              || OverlapIn(left, right, config.publicTruthPaths)
              || OverlapIn(left, right, left.sharedContracts + right.sharedContracts)
  {
    PairLevelMeans(left, right, config, level);
    if Blocks(left, right, config) {
      var other: nat :| IsPairLevel(left, right, config, other) && other > AUTO_RESOLVABLE_CEILING;
      PairLevelIsUnique(left, right, config, level, other);
    }
  }

  /** A task needs serial review exactly when it says so or is allowed to touch a safety path. */
  lemma SerialReviewMeans(t: Task, config: Config)
    ensures RequiresSerialReview(t, config) <==>
              t.safetyCritical || exists p :: p in t.allowedPaths && OverlapsOneOf(p, config.safetyPaths)
  {
    forall p ensures Reaches(p, config.safetyPaths) <==> OverlapsOneOf(p, config.safetyPaths) {
      ReachesMeans(p, config.safetyPaths);
    }
    if p :| p in t.allowedPaths && OverlapsOneOf(p, config.safetyPaths) {
      var i :| 0 <= i < |t.allowedPaths| && t.allowedPaths[i] == p;
    }
  }
}
