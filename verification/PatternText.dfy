/** Trimming and normalising ownership patterns (tools/agent/paths.py), and when comparing raw
    patterns is as good as comparing trimmed ones. */
module PatternText {
  import opened Wrappers
  import opened Globs

  /** The characters str.strip() removes. */
  predicate IsSpace(c: char) {
    var n := c as int;
    9 <= n <= 13 || 28 <= n <= 32 || n == 0x85 || n == 0xA0 || n == 0x1680 || 0x2000 <= n <= 0x200A
    || n == 0x2028 || n == 0x2029 || n == 0x202F || n == 0x205F || n == 0x3000
  }

  function TrimLeft(s: string): string {
    if s != "" && IsSpace(s[0]) then TrimLeft(s[1..]) else s
  }

  function TrimRight(s: string): string {
    if s != "" && IsSpace(s[|s| - 1]) then TrimRight(s[..|s| - 1]) else s
  }

  /** str.strip(). */
  function Trim(s: string): string {
    TrimRight(TrimLeft(s))
  }

  predicate Trimmed(s: string) {
    s == "" || (!IsSpace(s[0]) && !IsSpace(s[|s| - 1]))
  }

  lemma {:induction false} TrimRightTrims(s: string)
    ensures TrimRight(s) <= s
    ensures TrimRight(s) == "" || !IsSpace(TrimRight(s)[|TrimRight(s)| - 1])
    ensures TrimRight(s) == s <==> s == "" || !IsSpace(s[|s| - 1])
  {
    if s != "" && IsSpace(s[|s| - 1]) {
      TrimRightTrims(s[..|s| - 1]);
    }
  }

  lemma {:induction false} TrimLeftTrims(s: string)
    ensures TrimLeft(s) == "" || !IsSpace(TrimLeft(s)[0])
    ensures TrimLeft(s) == s <==> s == "" || !IsSpace(s[0])
    ensures |TrimLeft(s)| <= |s|
  {
    if s != "" && IsSpace(s[0]) {
      TrimLeftTrims(s[1..]);
    }
  }

  lemma TrimTrims(s: string)
    ensures Trimmed(Trim(s)) && (Trim(s) == s <==> Trimmed(s))
  {
    TrimLeftTrims(s);
    TrimRightTrims(TrimLeft(s));
  }

  // ----- normalisation ------------------------------------------------------

  predicate HasDrivePrefix(s: string) {
    |s| >= 2 && s[1] == ':' && ('A' <= s[0] <= 'Z' || 'a' <= s[0] <= 'z')
  }

  /** Some '/'-separated segment is empty, "." or "..". */
  predicate HasBadSegment(s: string) {
    exists i, j :: 0 <= i <= j <= |s|
      && (i == 0 || s[i - 1] == '/') && (j == |s| || s[j] == '/') && '/' !in s[i..j]
      && (s[i..j] == "" || s[i..j] == "." || s[i..j] == "..")
  }

  /** _reject_common: the trimmed text, or None where it raises. */
  function RejectCommon(raw: string): (r: Option<string>)
    ensures r.Some? ==> r.value == Trim(raw) && r.value != "" && Trimmed(r.value) && r.value[0] != '/'
  {
    var candidate := Trim(raw);
    TrimTrims(raw);
    if candidate == "" || '\0' in candidate || '\\' in candidate || candidate[0] == '/' || HasDrivePrefix(candidate) then None
    else Some(candidate)
  }

  /** normalize_repo_pattern: the trimmed pattern, or None where it raises. */
  function NormalizePattern(raw: string): (r: Option<string>)
    ensures r.Some? ==> r.value == Trim(raw) && r.value != "" && Trimmed(r.value)
  {
    var candidate := RejectCommon(raw);
    if candidate.None? || candidate.value[|candidate.value| - 1] == '/' || HasBadSegment(candidate.value) then None
    else candidate
  }

  function SplitSlash(s: string): (parts: seq<string>)
    ensures parts != [] && forall i :: 0 <= i < |parts| ==> '/' !in parts[i]
  {
    if s == "" then [""]
    else
      var rest := SplitSlash(s[1..]);
      if s[0] == '/' then [""] + rest else [[s[0]] + rest[0]] + rest[1..]
  }

  function JoinSlash(parts: seq<string>): string {
    if parts == [] then "" else if |parts| == 1 then parts[0] else parts[0] + "/" + JoinSlash(parts[1..])
  }

  /** The loop of posixpath.normpath over the components of a relative path. */
  function Collapse(parts: seq<string>, done: seq<string>): seq<string> {
    if parts == [] then done
    else if parts[0] == "" || parts[0] == "." then Collapse(parts[1..], done)
    else if parts[0] != ".." || done == [] || done[|done| - 1] == ".." then Collapse(parts[1..], done + [parts[0]])
    else Collapse(parts[1..], done[..|done| - 1])
  }

  function NormPath(s: string): string {
    var path := JoinSlash(Collapse(SplitSlash(s), []));
    if path == "" then "." else path
  }

  /** normalize_repo_path: the collapsed path, or None where it raises. */
  function NormalizePath(raw: string): Option<string> {
    var candidate := RejectCommon(raw);
    if candidate.None? then None
    else
      var path := NormPath(candidate.value);
      if path == "." || path == ".." || "../" <= path then None else Some(path)
  }

  predicate ProperSegment(s: string) {
    s != "" && s != "." && s != ".." && '/' !in s
  }

  /** Parent steps first, then proper segments. */
  ghost predicate Collapsed(parts: seq<string>) {
    && (forall i :: 0 <= i < |parts| ==> parts[i] == ".." || ProperSegment(parts[i]))
    && (forall i :: 0 < i < |parts| && parts[i] == ".." ==> parts[i - 1] == "..")
  }

  lemma {:induction false} CollapseCollapses(parts: seq<string>, done: seq<string>)
    requires Collapsed(done) && forall i :: 0 <= i < |parts| ==> '/' !in parts[i]
    ensures Collapsed(Collapse(parts, done))
    decreases |parts|
  {
    if parts != [] {
      if parts[0] == "" || parts[0] == "." {
        CollapseCollapses(parts[1..], done);
      } else if parts[0] != ".." || done == [] || done[|done| - 1] == ".." {
        CollapseCollapses(parts[1..], done + [parts[0]]);
      } else {
        CollapseCollapses(parts[1..], done[..|done| - 1]);
      }
    }
  }

  lemma {:induction false} NoLeadingParentMeansNone(parts: seq<string>, i: nat)
    requires Collapsed(parts) && i < |parts| && parts[0] != ".."
    ensures ProperSegment(parts[i])
  {
    if i > 0 {
      NoLeadingParentMeansNone(parts, i - 1);
    }
  }

  /** A normalised path consists of proper segments only: it stays inside the repository. */
  lemma NormalizedPathsStayInside(raw: string) returns (parts: seq<string>)
    requires NormalizePath(raw).Some?
    ensures parts != [] && NormalizePath(raw).value == JoinSlash(parts)
    ensures forall i :: 0 <= i < |parts| ==> ProperSegment(parts[i])
  {
    var candidate := RejectCommon(raw).value;
    parts := Collapse(SplitSlash(candidate), []);
    CollapseCollapses(SplitSlash(candidate), []);
    var path := JoinSlash(parts);
    assert |parts| > 1 ==> parts[0] + "/" <= path;
    assert parts != [] && parts[0] != "..";
    forall i | 0 <= i < |parts| ensures ProperSegment(parts[i]) {
      NoLeadingParentMeansNone(parts, i);
    }
  }

  // ----- raw against trimmed ------------------------------------------------

  /** A text the tokens match. */
  function Example(tokens: seq<Token>): string {
    if tokens == [] then ""
    else
      (match tokens[0]
       case Literal(c) => [c]
       case AnyDirectories => "x/"
       case _ => "x") + Example(tokens[1..])
  }

  lemma {:induction false} ExampleMatches(tokens: seq<Token>)
    ensures Matches(tokens, Example(tokens))
  {
    if tokens != [] {
      var rest := Example(tokens[1..]);
      ExampleMatches(tokens[1..]);
      match tokens[0]
      case Literal(c) => assert ([c] + rest)[1..] == rest;
      case AnyDirectories =>
        var s := "x/" + rest;
        assert s[1] == '/' && '/' !in s[..1] && s[2..] == rest;
      case _ => assert ("x" + rest)[1..] == rest;
    }
  }

  lemma {:induction false} TokensOfTrimmedEnds(p: string)
    requires p != ""
    ensures Tokens(p) != []
    ensures Tokens(p)[0].Literal? ==> Tokens(p)[0].c == p[0]
    ensures var last := Tokens(p)[|Tokens(p)| - 1]; last.Literal? ==> last.c == p[|p| - 1]
  {
    var (token, width) := FirstToken(p);
    if width < |p| {
      TokensOfTrimmedEnds(p[width..]);
    }
  }

  lemma {:induction false} LiteralsAreNoWildcards(p: string)
    ensures forall t :: t in Tokens(p) && t.Literal? ==> t.c != '*' && t.c != '?'
  {
    if p != "" {
      var (token, width) := FirstToken(p);
      LiteralsAreNoWildcards(p[width..]);
    }
  }

  lemma {:induction false} ExampleEnds(tokens: seq<Token>)
    requires tokens != []
    requires tokens[0].Literal? ==> !IsSpace(tokens[0].c)
    requires tokens[|tokens| - 1].Literal? ==> !IsSpace(tokens[|tokens| - 1].c)
    requires forall t :: t in tokens && t.Literal? ==> t.c != '*' && t.c != '?'
    ensures Example(tokens) != "" && Trimmed(Example(tokens)) && !IsGlob(Example(tokens))
  {
    LastOfExample(tokens);
  }

  lemma {:induction false} LastOfExample(tokens: seq<Token>)
    requires tokens != []
    requires tokens[|tokens| - 1].Literal? ==> !IsSpace(tokens[|tokens| - 1].c)
    requires forall t :: t in tokens && t.Literal? ==> t.c != '*' && t.c != '?'
    ensures Example(tokens) != "" && !IsSpace(Example(tokens)[|Example(tokens)| - 1]) && !IsGlob(Example(tokens))
  {
    if |tokens| > 1 {
      LastOfExample(tokens[1..]);
    } else {
      assert Example(tokens[1..]) == "";
    }
  }

  lemma {:induction false} TrailingLiteral(p: string, c: char)
    requires c != '*' && c != '?' && c != '/'
    ensures Tokens(p + [c]) == Tokens(p) + [Literal(c)]
  {
    if p == "" {
      assert Tokens([c][1..]) == [];
    } else {
      var (token, width) := FirstToken(p);
      assert FirstToken(p + [c]) == (token, width);
      assert (p + [c])[width..] == p[width..] + [c];
      TrailingLiteral(p[width..], c);
    }
  }

  /** A text matched up to a final literal ends with that character, or with it and a newline. */
  lemma {:induction false} EndsWithLiteral(tokens: seq<Token>, c: char, s: string)
    requires Matches(tokens + [Literal(c)], s)
    ensures s != ""
    ensures s[|s| - 1] == c || s[|s| - 1] == '\n'
    decreases |tokens|, |s|
  {
    if tokens != [] {
      var all := tokens + [Literal(c)];
      assert all[1..] == tokens[1..] + [Literal(c)];
      match tokens[0]
      case Literal(d) => EndsWithLiteral(tokens[1..], c, s[1..]);
      case AnyOne => EndsWithLiteral(tokens[1..], c, s[1..]);
      case AnyDirectories =>
        if Matches(all[1..], s) {
          EndsWithLiteral(tokens[1..], c, s);
        } else {
          var k :| 1 <= k < |s| && s[k] == '/' && '/' !in s[..k] && Matches(all, s[k + 1..]);
          EndsWithLiteral(tokens, c, s[k + 1..]);
        }
      case _ =>
        if Matches(all[1..], s) {
          EndsWithLiteral(tokens[1..], c, s);
        } else {
          EndsWithLiteral(tokens, c, s[1..]);
        }
    }
  }

  /** A pattern that starts or ends with space covers no text that does neither. */
  lemma UntrimmedMatchesNoTrimmed(raw: string, path: string)
    requires !Trimmed(raw) && Trimmed(path) && path != ""
    ensures !MatchesPattern(path, raw)
  {
    if IsSpace(raw[0]) {
      assert FirstToken(raw) == (Literal(raw[0]), 1);
    } else {
      var n := |raw| - 1;
      assert raw == raw[..n] + [raw[n]];
      TrailingLiteral(raw[..n], raw[n]);
      if MatchesPattern(path, raw) {
        EndsWithLiteral(Tokens(raw[..n]), raw[n], path);
      }
    }
  }

  /** A pattern with surrounding space covers no trimmed text its trimmed form covers by example. */
  lemma UntrimmedMissesTheExample(raw: string)
    requires Trim(raw) != "" && Trim(raw) != raw
    ensures var path := Example(Tokens(Trim(raw)));
            && Trimmed(path) && path != "" && !IsGlob(path)
            && MatchesPattern(path, Trim(raw)) && MatchesPattern(path, path)
            && !PatternsOverlap(raw, path)
  {
    var trimmed := Trim(raw);
    var path := Example(Tokens(trimmed));
    TrimTrims(raw);
    TokensOfTrimmedEnds(trimmed);
    LiteralsAreNoWildcards(trimmed);
    ExampleMatches(Tokens(trimmed));
    FirstOfExample(Tokens(trimmed));
    ExampleEnds(Tokens(trimmed));
    LiteralMatches(path, path);
    assert !Trimmed(raw) && raw != path;
    UntrimmedMatchesNoTrimmed(raw, path);
  }

  lemma FirstOfExample(tokens: seq<Token>)
    requires tokens != [] && (tokens[0].Literal? ==> !IsSpace(tokens[0].c))
    ensures Example(tokens) != "" && !IsSpace(Example(tokens)[0])
  {
  }

  /** A trimmed path both trimmed patterns cover. */
  predicate BothCover(path: string, left: string, right: string) {
    Trimmed(path) && Trimmed(left) && Trimmed(right) && MatchesPattern(path, left) && MatchesPattern(path, right)
  }

  /** Comparing a raw pattern with trimmed ones misses no shared trimmed path exactly when the
      raw pattern is trimmed already. */
  lemma RawComparisonIsSafeExactlyWhenTrimmed(raw: string)
    requires Trim(raw) != ""
    ensures (forall other, path | BothCover(path, Trim(raw), other) :: PatternsOverlap(raw, other)) <==> Trim(raw) == raw
  {
    TrimTrims(raw);
    if Trim(raw) == raw {
      forall other, path | BothCover(path, Trim(raw), other)
        ensures PatternsOverlap(raw, other)
      {
        OverlapIsConservative(path, raw, other);
      }
    } else {
      UntrimmedMissesTheExample(raw);
      var path := Example(Tokens(Trim(raw)));
      assert BothCover(path, Trim(raw), path);
    }
  }
}
