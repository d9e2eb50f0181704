/** What each piece of an ownership glob spans, and how exact the overlap test is
    (tools/agent/paths.py). */
module GlobMeaning {
  import opened Globs

  // ----- what a wildcard spans ----------------------------------------------

  /** `*` spans exactly the texts without '/'. */
  lemma {:induction false} StarSpansOneSegment(rest: seq<Token>, s: string)
    ensures Matches([AnyInSegment] + rest, s) <==> exists k :: 0 <= k <= |s| && '/' !in s[..k] && Matches(rest, s[k..])
    decreases |s|
  {
    var tokens := [AnyInSegment] + rest;
    assert tokens[1..] == rest && s[0..] == s;
    if s != "" {
      StarSpansOneSegment(rest, s[1..]);
      if s[0] != '/' && Matches(tokens, s[1..]) {
        var k :| 0 <= k <= |s| - 1 && '/' !in s[1..][..k] && Matches(rest, s[1..][k..]);
        assert s[..k + 1] == [s[0]] + s[1..][..k] && s[k + 1..] == s[1..][k..];
      }
      if k :| 0 < k <= |s| && '/' !in s[..k] && Matches(rest, s[k..]) {
        assert s[..k][0] == s[0] && s[..k] == [s[0]] + s[1..][..k - 1] && s[k..] == s[1..][k - 1..];
      }
    }
  }

  /** `**` spans exactly the texts without a newline. */
  lemma {:induction false} DoubleStarSpansOneLine(rest: seq<Token>, s: string)
    ensures Matches([AnyText] + rest, s) <==> exists k :: 0 <= k <= |s| && '\n' !in s[..k] && Matches(rest, s[k..])
    decreases |s|
  {
    var tokens := [AnyText] + rest;
    assert tokens[1..] == rest && s[0..] == s;
    if s != "" {
      DoubleStarSpansOneLine(rest, s[1..]);
      if s[0] != '\n' && Matches(tokens, s[1..]) {
        var k :| 0 <= k <= |s| - 1 && '\n' !in s[1..][..k] && Matches(rest, s[1..][k..]);
        assert s[..k + 1] == [s[0]] + s[1..][..k] && s[k + 1..] == s[1..][k..];
      }
      if k :| 0 < k <= |s| && '\n' !in s[..k] && Matches(rest, s[k..]) {
        assert s[..k][0] == s[0] && s[..k] == [s[0]] + s[1..][..k - 1] && s[k..] == s[1..][k - 1..];
      }
    }
  }

  /** `?` spans exactly one character other than '/'. */
  lemma QuestionMarkSpansOneCharacter(rest: seq<Token>, s: string)
    ensures Matches([AnyOne] + rest, s) <==> s != "" && s[0] != '/' && Matches(rest, s[1..])
  {
    assert ([AnyOne] + rest)[1..] == rest;
  }

  /** Any number of non-empty directories, each with its '/'. */
  ghost predicate Directories(t: string) {
    t == "" || (t[0] != '/' && t[|t| - 1] == '/' && forall i :: 0 < i < |t| && t[i] == '/' ==> t[i - 1] != '/')
  }

  lemma OneMoreDirectory(s: string, k: nat, n: nat)
    requires 1 <= k < |s| && s[k] == '/' && '/' !in s[..k] && n <= |s| - (k + 1) && Directories(s[k + 1..][..n])
    ensures Directories(s[..k + 1 + n])
  {
    var t, later := s[..k + 1 + n], s[k + 1..][..n];
    assert s[..k][0] == t[0];
    forall i | 0 <= i < k ensures t[i] != '/' {
      assert s[..k][i] == t[i];
    }
    forall i | 0 <= i < n ensures later[i] == t[k + 1 + i] {}
    forall i | k + 1 <= i < |t| && t[i] == '/' ensures t[i - 1] != '/' {
      var j := i - (k + 1);
      assert later[j] == '/';
      assert j > 0 && later[j - 1] == t[i - 1];
    }
  }

  /** The first directory of some. */
  lemma FirstDirectory(s: string, n: nat) returns (k: nat)
    requires 0 < n <= |s| && Directories(s[..n])
    ensures 1 <= k < n && s[k] == '/' && '/' !in s[..k] && Directories(s[k + 1..][..n - (k + 1)])
  {
    var t := s[..n];
    k := 0;
    while t[k] != '/'
      invariant k < n && '/' !in s[..k]
      decreases n - k
    {
      assert s[..k + 1] == s[..k] + [s[k]];
      k := k + 1;
      assert t[n - 1] == '/';
    }
    var later := s[k + 1..][..n - (k + 1)];
    forall i | 0 <= i < |later| ensures later[i] == t[k + 1 + i] {}
    forall i | 0 < i < n && t[i] == '/' ensures t[i - 1] != '/' {}
    forall i | 0 <= i < |later| && later[i] == '/' ensures t[k + i] != '/' {
      assert t[k + 1 + i] == '/';
    }
    assert later != "" ==> later[|later| - 1] == t[n - 1];
  }

  /** A double star followed by '/' spans exactly any number of non-empty directories. */
  lemma {:induction false} DoubleStarSlashSpansDirectories(rest: seq<Token>, s: string)
    ensures Matches([AnyDirectories] + rest, s) <==> exists n :: 0 <= n <= |s| && Directories(s[..n]) && Matches(rest, s[n..])
    decreases |s|
  {
    var tokens := [AnyDirectories] + rest;
    assert tokens[1..] == rest && s[0..] == s && s[..0] == "";
    if k :| 1 <= k < |s| && s[k] == '/' && '/' !in s[..k] && Matches(tokens, s[k + 1..]) {
      DoubleStarSlashSpansDirectories(rest, s[k + 1..]);
      var n :| 0 <= n <= |s| - (k + 1) && Directories(s[k + 1..][..n]) && Matches(rest, s[k + 1..][n..]);
      OneMoreDirectory(s, k, n);
      assert s[k + 1 + n..] == s[k + 1..][n..];
    }
    if n :| 0 < n <= |s| && Directories(s[..n]) && Matches(rest, s[n..]) {
      var k := FirstDirectory(s, n);
      DoubleStarSlashSpansDirectories(rest, s[k + 1..]);
      assert s[n..] == s[k + 1..][n - (k + 1)..];
    }
  }

  // ----- depth --------------------------------------------------------------

  function Slashes(s: string): nat {
    if s == "" then 0 else (if s[0] == '/' then 1 else 0) + Slashes(s[1..])
  }

  /** No two stars in a row. */
  predicate SingleStars(p: string) {
    forall i :: 0 <= i < |p| - 1 ==> !(p[i] == '*' && p[i + 1] == '*')
  }

  /** A pattern without a double star covers paths of exactly its own depth. */
  lemma {:induction false} SingleStarsKeepTheDepth(pattern: string, path: string)
    requires SingleStars(pattern) && MatchesPattern(path, pattern)
    ensures Slashes(path) == Slashes(pattern)
    decreases |pattern|, |path|
  {
    if pattern == "" {
      assert path == "" || path == "\n";
      assert path == "\n" ==> path[1..] == "";
    } else {
      var (token, width) := FirstToken(pattern);
      assert width == 1 && SingleStars(pattern[1..]);
      var tokens := Tokens(pattern);
      assert tokens[0] == token && tokens[1..] == Tokens(pattern[1..]);
      if token.AnyInSegment? {
        if Matches(tokens[1..], path) {
          SingleStarsKeepTheDepth(pattern[1..], path);
        } else {
          SingleStarsKeepTheDepth(pattern, path[1..]);
        }
      } else {
        SingleStarsKeepTheDepth(pattern[1..], path[1..]);
      }
    }
  }

  /** The pattern "*" covers exactly the texts without '/'. */
  lemma StarCoversOneSegment(path: string)
    ensures MatchesPattern(path, "*") <==> '/' !in path
  {
    assert Tokens("*"[1..]) == [];
    assert Tokens("*") == [AnyInSegment] + [];
    StarSpansOneSegment([], path);
    if MatchesPattern(path, "*") {
      var k :| 0 <= k <= |path| && '/' !in path[..k] && Matches([], path[k..]);
      assert path == path[..k] + path[k..];
    }
    if '/' !in path {
      assert path[..|path|] == path && path[|path|..] == "";
    }
  }

  // ----- how exact the overlap test is --------------------------------------

  /** The literal prefix is what precedes the first wildcard. */
  lemma {:induction false} LiteralPrefixEndsAtTheFirstWildcard(p: string)
    ensures var n := |LiteralPrefix(p)|;
            && LiteralPrefix(p) <= p && !IsGlob(LiteralPrefix(p))
            && (n < |p| ==> p[n] == '*' || p[n] == '?')
  {
    if p != "" && p[0] != '*' && p[0] != '?' {
      LiteralPrefixEndsAtTheFirstWildcard(p[1..]);
    }
  }

  /** Some path that keeps no trailing newline is covered by both patterns. */
  ghost predicate ShareAPath(left: string, right: string) {
    exists path :: !EndsWithNewline(path) && MatchesPattern(path, left) && MatchesPattern(path, right)
  }

  /** Where one pattern is a literal, patterns overlap exactly when they share a path. */
  lemma OverlapWithALiteralIsExact(left: string, right: string)
    requires (!IsGlob(left) && !EndsWithNewline(left)) || (!IsGlob(right) && !EndsWithNewline(right))
    ensures PatternsOverlap(left, right) <==> ShareAPath(left, right)
  {
    if ShareAPath(left, right) {
      var path :| !EndsWithNewline(path) && MatchesPattern(path, left) && MatchesPattern(path, right);
      OverlapIsConservative(path, left, right);
    }
    if PatternsOverlap(left, right) {
      var literal := if !IsGlob(left) && !EndsWithNewline(left) then left else right;
      LiteralMatches(literal, literal);
      if IsGlob(left) || IsGlob(right) {
        OverlapCoversTheLiteral(left, right, literal);
      }
      assert MatchesPattern(literal, left) && MatchesPattern(literal, right);
    }
  }

  lemma OverlapCoversTheLiteral(left: string, right: string, literal: string)
    requires PatternsOverlap(left, right) && (IsGlob(left) || IsGlob(right))
    requires !IsGlob(literal) && (literal == left || literal == right)
    ensures MatchesPattern(literal, left) && MatchesPattern(literal, right)
  {
    LiteralMatches(literal, literal);
  }

  /** Some text begins with both. */
  ghost predicate BeginAText(left: string, right: string) {
    exists text: string :: IsPrefix(left, text) && IsPrefix(right, text)
  }

  predicate IsPrefix(prefix: string, text: string) {
    prefix <= text
  }

  /** Two wildcard patterns overlap exactly when some text begins with both literal prefixes. */
  lemma OverlapOfGlobsIsPrefixAgreement(left: string, right: string)
    requires IsGlob(left) && IsGlob(right)
    ensures PatternsOverlap(left, right) <==> BeginAText(LiteralPrefix(left), LiteralPrefix(right))
  {
    var a, b := LiteralPrefix(left), LiteralPrefix(right);
    if PatternsOverlap(left, right) {
      var longer := if |a| < |b| then b else a;
      assert IsPrefix(a, longer) && IsPrefix(b, longer);
    }
  }
}
