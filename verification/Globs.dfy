/** The ownership glob dialect (tools/agent/paths.py): compilation to an anchored regular
    expression, matching, and the prefix-based overlap test. */
module Globs {
  import opened Wrappers

  /** The pieces compile_glob emits, each standing for one regular expression:
      (?:[^/]+/)*   .*   [^/]*   [^/]   and an escaped character. */
  datatype Token = AnyDirectories | AnyText | AnyInSegment | AnyOne | Literal(c: char)

  /** The first piece of a non-empty pattern and how many characters it takes. */
  function FirstToken(p: string): (r: (Token, nat))
    requires p != ""
    ensures 1 <= r.1 <= |p|
  {
    if p[0] == '*' && |p| > 1 && p[1] == '*' then
      if |p| > 2 && p[2] == '/' then (AnyDirectories, 3) else (AnyText, 2)
    else if p[0] == '*' then (AnyInSegment, 1)
    else if p[0] == '?' then (AnyOne, 1)
    else (Literal(p[0]), 1)
  }

  function Tokens(p: string): seq<Token> {
    if p == "" then []
    else
      var (token, width) := FirstToken(p);
      [token] + Tokens(p[width..])
  }

  lemma TokensFrom(p: string, index: nat)
    requires index < |p|
    ensures var (token, width) := FirstToken(p[index..]);
            index + width <= |p| && Tokens(p[index..]) == [token] + Tokens(p[index + width..])
  {
    var (token, width) := FirstToken(p[index..]);
    assert p[index..][width..] == p[index + width..];
  }

  lemma AppendPart(parts: seq<Token>, part: Token, rest: seq<Token>)
    ensures parts + ([part] + rest) == (parts + [part]) + rest
  {
  }

  /** compile_glob, without the enclosing anchors. */
  method CompileGlob(pattern: string) returns (parts: seq<Token>)
    ensures parts == Tokens(pattern)
  {
    parts := [];
    var index := 0;
    while index < |pattern|
      invariant 0 <= index <= |pattern|
      invariant parts + Tokens(pattern[index..]) == Tokens(pattern)
    {
      TokensFrom(pattern, index);
      var c := pattern[index];
      var part, width := Literal(c), 1;
      if c == '*' && index + 1 < |pattern| && pattern[index + 1] == '*' {
        if index + 2 < |pattern| && pattern[index + 2] == '/' {
          part, width := AnyDirectories, 3;
        } else {
          part, width := AnyText, 2;
        }
      } else if c == '*' {
        part := AnyInSegment;
      } else if c == '?' {
        part := AnyOne;
      }
      assert (part, width) == FirstToken(pattern[index..]);
      AppendPart(parts, part, Tokens(pattern[index + width..]));
      parts := parts + [part];
      index := index + width;
    }
    assert pattern[index..] == "";
  }

  /** The text matches ^tokens$. As in Python, `.` excludes the newline and `$` also matches
      before one trailing newline. */
  predicate Matches(tokens: seq<Token>, s: string)
    decreases |tokens|, |s|
  {
    if tokens == [] then s == "" || s == "\n"
    else
      var rest := tokens[1..];
      match tokens[0]
      case Literal(c) => s != "" && s[0] == c && Matches(rest, s[1..])
      case AnyOne => s != "" && s[0] != '/' && Matches(rest, s[1..])
      case AnyInSegment => Matches(rest, s) || (s != "" && s[0] != '/' && Matches(tokens, s[1..]))
      case AnyText => Matches(rest, s) || (s != "" && s[0] != '\n' && Matches(tokens, s[1..]))
      case AnyDirectories =>
        Matches(rest, s)
        || exists k :: 1 <= k < |s| && s[k] == '/' && '/' !in s[..k] && Matches(tokens, s[k + 1..])
  }

  predicate MatchesPattern(path: string, pattern: string) {
    Matches(Tokens(pattern), path)
  }

  predicate IsGlob(pattern: string) {
    '*' in pattern || '?' in pattern
  }

  /** The text before the first wildcard. */
  function LiteralPrefix(p: string): string {
    if p == "" || p[0] == '*' || p[0] == '?' then "" else [p[0]] + LiteralPrefix(p[1..])
  }

  /** patterns_overlap. */
  predicate PatternsOverlap(left: string, right: string) {
    if !IsGlob(left) && !IsGlob(right) then left == right
    else if !IsGlob(left) then MatchesPattern(left, right)
    else if !IsGlob(right) then MatchesPattern(right, left)
    else LiteralPrefix(right) <= LiteralPrefix(left) || LiteralPrefix(left) <= LiteralPrefix(right)
  }

  predicate EndsWithNewline(path: string) {
    path != "" && path[|path| - 1] == '\n'
  }

  // ----- what a pattern pins down -------------------------------------------

  /** A pattern without wildcards covers itself and, by the quirk of `$`, itself with a newline. */
  lemma {:induction false} LiteralMatches(pattern: string, path: string)
    requires !IsGlob(pattern)
    ensures MatchesPattern(path, pattern) <==> path == pattern || path == pattern + "\n"
  {
    if pattern != "" {
      assert pattern == [pattern[0]] + pattern[1..];
      if path != "" {
        LiteralMatches(pattern[1..], path[1..]);
        assert path == [path[0]] + path[1..];
        assert [pattern[0]] + (pattern[1..] + "\n") == pattern + "\n";
        assert Tokens(pattern)[1..] == Tokens(pattern[1..]);
        if path == pattern + "\n" {
          assert path[1..] == pattern[1..] + "\n";
        }
      }
    }
  }

  /** A covered path starts with the pattern's literal prefix. */
  lemma {:induction false} MatchStartsWithPrefix(pattern: string, path: string)
    requires MatchesPattern(path, pattern)
    ensures LiteralPrefix(pattern) <= path
  {
    if pattern != "" && pattern[0] != '*' && pattern[0] != '?' {
      assert Tokens(pattern)[1..] == Tokens(pattern[1..]);
      MatchStartsWithPrefix(pattern[1..], path[1..]);
      assert path == [path[0]] + path[1..];
    }
  }

  /** On paths that no strip() would shorten, the overlap test misses nothing: patterns that
      share a path overlap. */
  lemma OverlapIsConservative(path: string, left: string, right: string)
    requires !EndsWithNewline(path) || IsGlob(path)
    requires MatchesPattern(path, left) && MatchesPattern(path, right)
    ensures PatternsOverlap(left, right)
  {
    if !IsGlob(left) { LiteralMatches(left, path); assert EndsWithNewline(left + "\n"); }
    if !IsGlob(right) { LiteralMatches(right, path); assert EndsWithNewline(right + "\n"); }
    if !IsGlob(left) && path == left + "\n" {
      assert forall c :: c in path <==> c in left || c == '\n';
    }
    if !IsGlob(right) && path == right + "\n" {
      assert forall c :: c in path <==> c in right || c == '\n';
    }
    MatchStartsWithPrefix(left, path);
    MatchStartsWithPrefix(right, path);
  }

  /** ... and those are exactly the paths on which it is conservative: a wildcard-free path with
      a trailing newline is covered by two different literals. */
  lemma OverlapIsConservativeExactly(path: string)
    ensures (forall left, right :: MatchesPattern(path, left) && MatchesPattern(path, right) ==> PatternsOverlap(left, right))
       <==> !EndsWithNewline(path) || IsGlob(path)
  {
    if !EndsWithNewline(path) || IsGlob(path) {
      forall left, right | MatchesPattern(path, left) && MatchesPattern(path, right) ensures PatternsOverlap(left, right) {
        OverlapIsConservative(path, left, right);
      }
    } else {
      var stem := path[..|path| - 1];
      assert path == stem + "\n";
      LiteralMatches(stem, path);
      LiteralMatches(path, path);
      assert MatchesPattern(path, stem) && MatchesPattern(path, path) && !PatternsOverlap(stem, path);
    }
  }
}
