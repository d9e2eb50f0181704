/** What the path rules say about the texts themselves: trimming, normalising, owning and accepting,
    each without the functions that compute it (tools/agent/paths.py, tools/agent/validation.py). */
module PathMeaning {
  import opened Wrappers
  import opened Globs
  import opened PatternText
  import opened TaskGraph
  import opened Ownership
  import opened Conflicts

  // ----- trimming -----------------------------------------------------------

  predicate AllSpace(s: string) {
    forall i :: 0 <= i < |s| ==> IsSpace(s[i])
  }

  /** Trimming takes space from both ends and nothing else. */
  lemma TrimRemovesOnlySpace(s: string) returns (before: string, after: string)
    ensures s == before + Trim(s) + after && AllSpace(before) && AllSpace(after) && Trimmed(Trim(s))
  {
    before := LeftSpace(s);
    after := RightSpace(TrimLeft(s));
    TrimTrims(s);
    assert before + (Trim(s) + after) == before + Trim(s) + after;
  }

  lemma {:induction false} LeftSpace(s: string) returns (space: string)
    ensures s == space + TrimLeft(s) && AllSpace(space)
  {
    space := "";
    if s != "" && IsSpace(s[0]) {
      space := LeftSpace(s[1..]);
      space := [s[0]] + space;
      assert s == [s[0]] + s[1..];
    }
  }

  lemma {:induction false} RightSpace(s: string) returns (space: string)
    ensures s == TrimRight(s) + space && AllSpace(space)
  {
    space := "";
    if s != "" && IsSpace(s[|s| - 1]) {
      space := RightSpace(s[..|s| - 1]);
      space := space + [s[|s| - 1]];
      assert s == s[..|s| - 1] + [s[|s| - 1]];
    }
  }

  /** The white space of the Unicode character database, and the separators 28 to 31. */
  const WHITE_SPACE: set<int> := {
    9, 10, 11, 12, 13, 28, 29, 30, 31, 32, 0x85, 0xA0, 0x1680,
    0x2000, 0x2001, 0x2002, 0x2003, 0x2004, 0x2005, 0x2006, 0x2007, 0x2008, 0x2009, 0x200A,
    0x2028, 0x2029, 0x202F, 0x205F, 0x3000}

  lemma SpaceIsWhiteSpace(c: char)
    ensures IsSpace(c) <==> c as int in WHITE_SPACE
  {
  }

  // ----- segments -----------------------------------------------------------

  /** Joining what was split gives the text back ... */
  lemma {:induction false} SplitThenJoin(s: string)
    ensures JoinSlash(SplitSlash(s)) == s
  {
    if s != "" {
      SplitThenJoin(s[1..]);
      var rest := SplitSlash(s[1..]);
      assert s == [s[0]] + s[1..];
      if s[0] == '/' {
        assert ([""] + rest)[1..] == rest;
      } else {
        assert ([[s[0]] + rest[0]] + rest[1..])[1..] == rest[1..];
      }
    }
  }

  /** ... and splitting what was joined gives the segments back. */
  lemma {:induction false} JoinThenSplit(parts: seq<string>)
    requires parts != [] && forall i :: 0 <= i < |parts| ==> '/' !in parts[i]
    ensures SplitSlash(JoinSlash(parts)) == parts
  {
    if |parts| == 1 {
      SplitPlain(parts[0], "");
      assert parts[0] + "" == parts[0] && SplitSlash("") == [""];
      assert parts == [parts[0]];
    } else {
      JoinThenSplit(parts[1..]);
      var rest := JoinSlash(parts[1..]);
      SplitPlain(parts[0], "/" + rest);
      assert ("/" + rest)[1..] == rest;
      assert SplitSlash("/" + rest) == [""] + parts[1..];
      assert ([""] + parts[1..])[1..] == parts[1..] && parts[0] + "" == parts[0];
      assert parts[0] + ("/" + rest) == JoinSlash(parts);
      assert parts == [parts[0]] + parts[1..];
    }
  }

  lemma {:induction false} SplitPlain(a: string, s: string)
    requires '/' !in a
    ensures var rest := SplitSlash(s); SplitSlash(a + s) == [a + rest[0]] + rest[1..]
  {
    var rest := SplitSlash(s);
    if a == "" {
      assert a + s == s && a + rest[0] == rest[0] && rest == [rest[0]] + rest[1..];
    } else {
      SplitPlain(a[1..], s);
      assert (a + s)[1..] == a[1..] + s;
      assert ([a[1..] + rest[0]] + rest[1..])[1..] == rest[1..];
      assert [a[0]] + (a[1..] + rest[0]) == a + rest[0];
    }
  }

  /** The text from i to j lies between two '/' or ends, with none inside. */
  ghost predicate SegmentAt(s: string, i: nat, j: nat) {
    i <= j <= |s| && (i == 0 || s[i - 1] == '/') && (j == |s| || s[j] == '/') && '/' !in s[i..j]
  }

  ghost predicate IsSegment(s: string, p: string) {
    exists i, j :: 0 <= i && 0 <= j && SegmentAt(s, i, j) && s[i..j] == p
  }

  ghost predicate LaterSegment(s: string, p: string) {
    exists i, j :: 0 < i && 0 <= j && SegmentAt(s, i, j) && s[i..j] == p
  }

  lemma {:induction false} SplitListsTheSegments(s: string)
    ensures exists j: nat :: SegmentAt(s, 0, j) && SplitSlash(s)[0] == s[..j]
    ensures forall p :: p in SplitSlash(s)[1..] <==> LaterSegment(s, p)
  {
    if s == "" {
      assert SegmentAt(s, 0, 0);
    } else {
      var t, rest := s[1..], SplitSlash(s[1..]);
      SplitListsTheSegments(t);
      var k: nat :| SegmentAt(t, 0, k) && rest[0] == t[..k];
      if s[0] == '/' {
        assert SegmentAt(s, 0, 0) && s[..0] == "";
        forall p ensures p in SplitSlash(s)[1..] <==> LaterSegment(s, p) {
          assert SplitSlash(s)[1..] == rest && rest == [rest[0]] + rest[1..];
          assert p in rest <==> p == t[..k] || LaterSegment(t, p);
          AfterASlash(s, p, k);
        }
      } else {
        assert s[..k + 1] == [s[0]] + t[..k] && s[0..k + 1] == s[..k + 1] && t[0..k] == t[..k];
        assert SegmentAt(s, 0, k + 1);
        forall p ensures p in SplitSlash(s)[1..] <==> LaterSegment(s, p) {
          assert SplitSlash(s)[1..] == rest[1..];
          AfterAPlainCharacter(s, p);
        }
      }
    }
  }

  lemma ShiftSegment(s: string, i: nat, j: nat)
    requires s != "" && 0 < i && (i > 1 || s[0] == '/')
    ensures SegmentAt(s, i, j) <==> j > 0 && SegmentAt(s[1..], i - 1, j - 1)
    ensures i <= j <= |s| ==> s[i..j] == s[1..][i - 1..j - 1]
  {
    if i <= j <= |s| {
      var t := s[1..];
      forall k | 0 <= k < j - i ensures s[i..j][k] == t[i - 1..j - 1][k] {
        assert t[i - 1 + k] == s[i + k];
      }
      assert s[i..j] == t[i - 1..j - 1];
    }
  }

  lemma FirstSegmentIsUnique(t: string, k: nat, j: nat)
    requires SegmentAt(t, 0, k) && SegmentAt(t, 0, j)
    ensures k == j
  {
    forall m | 0 <= m < j ensures t[m] != '/' {
      assert t[0..j][m] == t[m];
    }
    forall m | 0 <= m < k ensures t[m] != '/' {
      assert t[0..k][m] == t[m];
    }
  }

  lemma AfterASlash(s: string, p: string, k: nat)
    requires s != "" && s[0] == '/' && SegmentAt(s[1..], 0, k)
    ensures LaterSegment(s, p) <==> p == s[1..][..k] || LaterSegment(s[1..], p)
  {
    var t := s[1..];
    if LaterSegment(s, p) {
      var i, j :| 0 < i && 0 <= j && SegmentAt(s, i, j) && s[i..j] == p;
      ShiftSegment(s, i, j);
      if i == 1 { FirstSegmentIsUnique(t, k, j - 1); } else { assert LaterSegment(t, p); }
    }
    if p == t[..k] {
      ShiftSegment(s, 1, k + 1);
      assert t[0..k] == t[..k];
      assert SegmentAt(s, 1, k + 1) && s[1..k + 1] == p;
    }
    if LaterSegment(t, p) { LaterSegmentShifts(s, p); }
  }

  lemma LaterSegmentShifts(s: string, p: string)
    requires s != "" && LaterSegment(s[1..], p)
    ensures LaterSegment(s, p)
  {
    var t := s[1..];
    var i, j :| 0 < i && 0 <= j && SegmentAt(t, i, j) && t[i..j] == p;
    ShiftSegment(s, i + 1, j + 1);
    assert SegmentAt(s, i + 1, j + 1) && s[i + 1..j + 1] == p;
  }

  lemma AfterAPlainCharacter(s: string, p: string)
    requires s != "" && s[0] != '/'
    ensures LaterSegment(s, p) <==> LaterSegment(s[1..], p)
  {
    var t := s[1..];
    if LaterSegment(s, p) {
      var i, j :| 0 < i && 0 <= j && SegmentAt(s, i, j) && s[i..j] == p;
      assert i > 1;
      ShiftSegment(s, i, j);
      assert SegmentAt(t, i - 1, j - 1) && t[i - 1..j - 1] == p;
    }
    if LaterSegment(t, p) { LaterSegmentShifts(s, p); }
  }

  /** The parts of a split are the segments of the text. */
  lemma SegmentsAreTheParts(s: string, p: string)
    ensures p in SplitSlash(s) <==> IsSegment(s, p)
  {
    SplitListsTheSegments(s);
    var parts := SplitSlash(s);
    assert parts == [parts[0]] + parts[1..];
    var k: nat :| SegmentAt(s, 0, k) && parts[0] == s[..k];
    assert s[0..k] == s[..k];
    if i, j :| 0 <= i && 0 <= j && SegmentAt(s, i, j) && s[i..j] == p {
      if i == 0 { FirstSegmentIsUnique(s, k, j); } else { assert LaterSegment(s, p); }
    }
    if LaterSegment(s, p) {
      var i, j :| 0 < i && 0 <= j && SegmentAt(s, i, j) && s[i..j] == p;
      assert IsSegment(s, p);
    }
  }

  // ----- normalised patterns ------------------------------------------------

  /** A text with a character no repository path may hold, or with a drive letter. */
  predicate Foreign(s: string) {
    '\0' in s || '\\' in s || (|s| >= 2 && ('a' <= s[0] <= 'z' || 'A' <= s[0] <= 'Z') && s[1] == ':')
  }

  lemma BadSegmentsAreImproper(s: string)
    ensures HasBadSegment(s) <==> exists p :: p in SplitSlash(s) && !ProperSegment(p)
  {
    if HasBadSegment(s) {
      var i, j :| 0 <= i <= j <= |s| && (i == 0 || s[i - 1] == '/') && (j == |s| || s[j] == '/') && '/' !in s[i..j]
        && (s[i..j] == "" || s[i..j] == "." || s[i..j] == "..");
      assert SegmentAt(s, i, j);
      SegmentsAreTheParts(s, s[i..j]);
      assert !ProperSegment(s[i..j]);
    }
    if p :| p in SplitSlash(s) && !ProperSegment(p) {
      SegmentsAreTheParts(s, p);
      var i, j :| 0 <= i && 0 <= j && SegmentAt(s, i, j) && s[i..j] == p;
      assert p == "" || p == "." || p == "..";
    }
  }

  /** A pattern is accepted, as its trimmed text, exactly when that has nothing foreign and only
      proper segments. */
  lemma NormalizesExactly(raw: string, pattern: string)
    ensures NormalizePattern(raw) == Some(pattern) <==>
              && pattern == Trim(raw) && !Foreign(pattern)
              && forall p :: p in SplitSlash(pattern) ==> ProperSegment(p)
  {
    var s := Trim(raw);
    BadSegmentsAreImproper(s);
    if s == "" {
      assert SplitSlash(s) == [""];
      assert !ProperSegment("") && "" in SplitSlash(s);
    } else {
      if s[0] == '/' { EdgeSlashIsImproper(s, 0, 0); }
      if s[|s| - 1] == '/' { EdgeSlashIsImproper(s, |s|, |s|); }
    }
  }

  lemma EdgeSlashIsImproper(s: string, i: nat, j: nat)
    requires i == j && SegmentAt(s, i, j)
    ensures "" in SplitSlash(s) && !ProperSegment("")
  {
    assert s[i..j] == "";
    SegmentsAreTheParts(s, "");
  }

  // ----- normalised paths ---------------------------------------------------

  lemma {:induction false} CollapseSplits(a: seq<string>, b: seq<string>, done: seq<string>)
    ensures Collapse(a + b, done) == Collapse(b, Collapse(a, done))
    decreases |a|
  {
    if a == [] {
      assert a + b == b;
    } else {
      assert (a + b)[1..] == a[1..] + b;
      if a[0] == "" || a[0] == "." {
        CollapseSplits(a[1..], b, done);
      } else if a[0] != ".." || done == [] || done[|done| - 1] == ".." {
        CollapseSplits(a[1..], b, done + [a[0]]);
      } else {
        CollapseSplits(a[1..], b, done[..|done| - 1]);
      }
    }
  }

  /** Empty and "." segments make no difference, wherever they are ... */
  lemma DotsMakeNoDifference(a: seq<string>, dot: string, b: seq<string>)
    requires dot == "" || dot == "."
    ensures Collapse(a + [dot] + b, []) == Collapse(a + b, [])
  {
    assert a + [dot] + b == a + ([dot] + b);
    CollapseSplits(a, [dot] + b, []);
    CollapseSplits(a, b, []);
    assert ([dot] + b)[1..] == b;
  }

  /** ... a segment and the parent step after it cancel ... */
  lemma ParentStepsCancel(a: seq<string>, segment: string, b: seq<string>)
    requires ProperSegment(segment)
    ensures Collapse(a + [segment, ".."] + b, []) == Collapse(a + b, [])
  {
    assert a + [segment, ".."] + b == a + ([segment, ".."] + b);
    CollapseSplits(a, [segment, ".."] + b, []);
    CollapseSplits(a, b, []);
    var done := Collapse(a, []);
    assert ([segment, ".."] + b)[1..] == [".."] + b && ([".."] + b)[1..] == b;
    assert (done + [segment])[..|done|] == done;
  }

  /** ... and what has neither is left alone. */
  lemma {:induction false} CollapsedStays(parts: seq<string>, done: seq<string>)
    requires Collapsed(done + parts)
    ensures Collapse(parts, done) == done + parts
    decreases |parts|
  {
    if parts == [] {
      assert done + parts == done;
    } else {
      var all := done + parts;
      assert all[|done|] == parts[0];
      assert done != [] ==> all[|done| - 1] == done[|done| - 1];
      assert (done + [parts[0]]) + parts[1..] == all;
      CollapsedStays(parts[1..], done + [parts[0]]);
    }
  }

  /** A path is accepted exactly when its trimmed text is not empty, not foreign and not absolute,
      and its collapsed segments neither vanish nor begin with a parent step. */
  lemma PathNormalizesExactly(raw: string)
    ensures var s := Trim(raw); var parts := Collapse(SplitSlash(s), []);
            && (NormalizePath(raw).Some? <==> s != "" && s[0] != '/' && !Foreign(s) && parts != [] && parts[0] != "..")
            && (NormalizePath(raw).Some? ==> NormalizePath(raw).value == JoinSlash(parts))
  {
    var s := Trim(raw);
    var parts := Collapse(SplitSlash(s), []);
    CollapseCollapses(SplitSlash(s), []);
    if parts != [] {
      JoinedStart(parts);
    }
  }

  lemma JoinedStart(parts: seq<string>)
    requires parts != [] && Collapsed(parts)
    ensures var path := JoinSlash(parts);
            && path != "" && path != "."
            && (parts[0] == ".." <==> path == ".." || "../" <= path)
  {
    var path := JoinSlash(parts);
    if |parts| > 1 {
      assert path == parts[0] + "/" + JoinSlash(parts[1..]);
      if parts[0] == ".." { assert path[..3] == "../"; }
      if parts[0] != ".." { NotAParentStep(parts[0], "/" + JoinSlash(parts[1..])); }
      assert parts[0] + ("/" + JoinSlash(parts[1..])) == path;
    } else {
      if parts[0] != ".." { NotAParentStep(parts[0], ""); }
      assert parts[0] + "" == path;
    }
  }

  lemma NotAParentStep(first: string, rest: string)
    requires ProperSegment(first)
    ensures !("../" <= first + rest) && first + rest != ".."
  {
    var path := first + rest;
    assert path[0] == first[0];
    if |first| == 1 {
      assert first == [first[0]];
    } else if |first| == 2 {
      assert path[1] == first[1] && first == [first[0], first[1]];
    } else {
      assert path[2] == first[2] && first[2] in first;
    }
  }

  // ----- what a task owns ---------------------------------------------------

  /** The raw pattern, trimmed, covers the path. */
  predicate Covers(raw: string, path: string) {
    MatchesPattern(path, Trim(raw))
  }

  /** A task owns a path exactly when its patterns are sound and one of them covers it; integration
      paths count only for a native shared task. */
  lemma OwnsMeans(t: Task, path: string)
    ensures Owns(t, path) <==>
              && (forall raw :: raw in t.allowedPaths || (t.nativeShared && raw in t.integrationPaths) ==> NormalizePattern(raw).Some?)
              && (exists raw :: (raw in t.allowedPaths || (t.nativeShared && raw in t.integrationPaths)) && Covers(raw, path))
  {
    var surface := Surface(t);
    assert forall raw :: raw in surface <==> raw in t.allowedPaths || (t.nativeShared && raw in t.integrationPaths);
    AllNormalize(surface);
    if Owns(t, path) {
      var normalized := NormalizeAll(surface).value;
      var i :| 0 <= i < |normalized| && MatchesPattern(path, normalized[i]);
      assert surface[i] in surface && Covers(surface[i], path);
    }
    if raw :| NormalizeAll(surface).Some? && raw in surface && Covers(raw, path) {
      var i :| 0 <= i < |surface| && surface[i] == raw;
      assert NormalizePattern(raw) == Some(NormalizeAll(surface).value[i]);
    }
  }

  lemma AllNormalize(raw: seq<string>)
    ensures NormalizeAll(raw).Some? <==> forall p :: p in raw ==> NormalizePattern(p).Some?
  {
    if NormalizeAll(raw).Some? {
      forall p | p in raw ensures NormalizePattern(p).Some? {
        var i :| 0 <= i < |raw| && raw[i] == p;
      }
    }
  }

  /** No trimmed text of the first list overlaps one of the patterns. */
  ghost predicate Apart(raw: seq<string>, patterns: seq<string>) {
    forall p :: p in raw ==> !OverlapsOneOf(Trim(p), patterns)
  }

  function Trims(raw: seq<string>): seq<string> {
    seq(|raw|, i requires 0 <= i < |raw| => Trim(raw[i]))
  }

  ghost predicate AllSound(raw: seq<string>) {
    forall p :: p in raw ==> NormalizePattern(p).Some?
  }

  lemma ApartMeansDisjoint(raw: seq<string>, patterns: seq<string>)
    requires NormalizeAll(raw).Some?
    ensures NormalizeAll(raw).value == Trims(raw)
    ensures Apart(raw, patterns) <==> Disjoint(NormalizeAll(raw).value, patterns)
  {
    var normalized := NormalizeAll(raw).value;
    forall i | 0 <= i < |raw| ensures normalized[i] == Trim(raw[i]) && (Reaches(normalized[i], patterns) <==> OverlapsOneOf(Trim(raw[i]), patterns)) {
      assert NormalizePattern(raw[i]) == Some(normalized[i]);
      ReachesMeans(normalized[i], patterns);
    }
    if Disjoint(normalized, patterns) {
      forall p | p in raw ensures !OverlapsOneOf(Trim(p), patterns) {
        var i :| 0 <= i < |raw| && raw[i] == p;
      }
    }
  }

  /** A task's surface is accepted exactly when it allows something, all its patterns are sound, what
      it allows is apart from what it forbids and, unless a main agent owns it, from the protected
      paths, and its integration paths are plain files apart from everything governed or forbidden. */
  lemma AcceptsMeans(t: Task, config: Config)
    ensures Accepts(t, config) <==>
              && t.allowedPaths != []
              && AllSound(t.allowedPaths) && AllSound(t.forbiddenPaths) && AllSound(t.integrationPaths)
              && Apart(t.allowedPaths, Trims(t.forbiddenPaths))
              && (t.owner in config.mainAgentIds || Apart(t.allowedPaths, config.protectedPaths))
              && Apart(t.integrationPaths, config.protectedPaths) && Apart(t.integrationPaths, config.publicTruthPaths)
              && Apart(t.integrationPaths, config.safetyPaths) && Apart(t.integrationPaths, Trims(t.forbiddenPaths))
              && (forall p :: p in t.integrationPaths ==> !IsGlob(Trim(p)))
  {
    AllNormalize(t.allowedPaths);
    AllNormalize(t.forbiddenPaths);
    AllNormalize(t.integrationPaths);
    if AllSound(t.allowedPaths) && AllSound(t.forbiddenPaths) && AllSound(t.integrationPaths) {
      ApartMeansDisjoint(t.forbiddenPaths, []);
      ApartMeansDisjoint(t.allowedPaths, Trims(t.forbiddenPaths));
      ApartMeansDisjoint(t.allowedPaths, config.protectedPaths);
      IntegrationMeans(t.integrationPaths, Trims(t.forbiddenPaths), config);
    }
  }

  lemma IntegrationMeans(raw: seq<string>, forbidden: seq<string>, config: Config)
    requires NormalizeAll(raw).Some?
    ensures ExactUngoverned(NormalizeAll(raw).value, forbidden, config) <==>
              && Apart(raw, config.protectedPaths) && Apart(raw, config.publicTruthPaths) && Apart(raw, config.safetyPaths)
              && Apart(raw, forbidden) && forall p :: p in raw ==> !IsGlob(Trim(p))
  {
    ApartMeansDisjoint(raw, config.protectedPaths);
    ApartMeansDisjoint(raw, config.publicTruthPaths);
    ApartMeansDisjoint(raw, config.safetyPaths);
    ApartMeansDisjoint(raw, forbidden);
    if forall i :: 0 <= i < |raw| ==> !IsGlob(Trims(raw)[i]) {
      forall p | p in raw ensures !IsGlob(Trim(p)) {
        var i :| 0 <= i < |raw| && raw[i] == p;
        assert Trims(raw)[i] == Trim(p);
      }
    }
  }
}
