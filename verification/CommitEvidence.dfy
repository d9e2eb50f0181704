/** Matching the commits a handoff reports against the commits of its range
    (tools/agent/validation.py). Lower-casing is a parameter. */
module CommitEvidence {
  import opened Wrappers
  import opened IdOrder
  import opened PatternText
  import PathMeaning

  datatype CommitMismatch = DuplicateToken | UnknownToken | AmbiguousToken | SameCommit | MissingCommit

  /** The leading word of a commit line; empty for a blank one. */
  function CommitToken(entry: string): string {
    FirstWord(Trim(entry))
  }

  function FirstWord(entry: string): string {
    if entry == "" || IsSpace(entry[0]) then "" else [entry[0]] + FirstWord(entry[1..])
  }

  /** The lower-cased tokens that are not empty. */
  function ReportedTokens(commits: seq<string>, lower: string -> string): seq<string> {
    if commits == [] then []
    else
      var token := lower(CommitToken(commits[|commits| - 1]));
      ReportedTokens(commits[..|commits| - 1], lower) + if token == "" then [] else [token]
  }

  function Lowered(shas: seq<string>, lower: string -> string): (r: seq<string>)
    ensures |r| == |shas| && forall i :: 0 <= i < |shas| ==> r[i] == lower(shas[i])
  {
    seq(|shas|, i requires 0 <= i < |shas| => lower(shas[i]))
  }

  /** Token i stands for the commit at position m[i] and for no other, and every commit has exactly
      one token. */
  ghost predicate OneToOne(tokens: seq<string>, commits: seq<string>, m: seq<nat>) {
    && |m| == |tokens|
    && (forall i :: 0 <= i < |m| ==> Resolves(tokens[i], commits, m[i]))
    && (forall i, j :: 0 <= i < j < |m| ==> m[i] != m[j])
    && (forall k :: 0 <= k < |commits| ==> k in m)
  }

  ghost predicate Corresponds(tokens: seq<string>, commits: seq<string>) {
    exists m :: OneToOne(tokens, commits, m)
  }

  /** The token is a prefix of exactly this commit. */
  ghost predicate Resolves(token: string, commits: seq<string>, k: nat) {
    && k < |commits| && token <= commits[k]
    && forall j :: 0 <= j < |commits| && token <= commits[j] ==> j == k
  }

  ghost predicate MatchesNone(token: string, commits: seq<string>) {
    forall k :: 0 <= k < |commits| ==> !(token <= commits[k])
  }

  ghost predicate MatchesTwo(token: string, commits: seq<string>) {
    exists j, k :: 0 <= j < k < |commits| && token <= commits[j] && token <= commits[k]
  }

  ghost predicate Unresolved(token: string, commits: seq<string>) {
    forall k: nat :: !Resolves(token, commits, k)
  }

  function SetOf(s: seq<string>): set<string> {
    set x | x in s
  }

  /** len(set(s)) != len(s) is the test for a repetition. */
  lemma {:induction false} SetSizeTellsRepetition(s: seq<string>)
    ensures |SetOf(s)| <= |s| && (|SetOf(s)| == |s| <==> Distinct(s))
  {
    if s != [] {
      var init, x := s[..|s| - 1], s[|s| - 1];
      SetSizeTellsRepetition(init);
      assert SetOf(s) == SetOf(init) + {x};
      if x in init {
        assert SetOf(s) == SetOf(init);
      }
    }
  }

  /** [sha for sha in actual if sha.startswith(token)]. */
  method Hits(token: string, commits: seq<string>) returns (hits: seq<string>, ghost at: nat)
    ensures hits == [] <==> MatchesNone(token, commits)
    ensures |hits| > 1 <==> MatchesTwo(token, commits)
    ensures |hits| == 1 <==> exists k: nat :: Resolves(token, commits, k)
    ensures |hits| == 1 ==> Resolves(token, commits, at) && hits == [commits[at]]
  {
    hits, at := [], 0;
    for i := 0 to |commits|
      invariant hits == [] <==> forall k :: 0 <= k < i ==> !(token <= commits[k])
      invariant |hits| == 1 ==> at < i && token <= commits[at] && hits == [commits[at]]
      invariant |hits| == 1 ==> forall j :: 0 <= j < i && token <= commits[j] ==> j == at
      invariant |hits| > 1 ==> exists j, k :: 0 <= j < k < i && token <= commits[j] && token <= commits[k]
    {
      if token <= commits[i] {
        if hits == [] {
          at := i;
        }
        hits := hits + [commits[i]];
      }
    }
    assert |hits| == 1 ==> Resolves(token, commits, at);
  }

  /** The commit each token of a one-to-one reading stands for. */
  ghost predicate Matched(tokens: seq<string>, commits: seq<string>, matched: map<string, string>, m: seq<nat>) {
    && |m| == |tokens| && matched.Keys == SetOf(tokens)
    && forall i :: 0 <= i < |tokens| ==> Resolves(tokens[i], commits, m[i]) && matched[tokens[i]] == commits[m[i]]
  }

  /** The loop over the reported tokens. */
  method MatchTokens(tokens: seq<string>, commits: seq<string>)
    returns (r: Result<map<string, string>, CommitMismatch>, ghost m: seq<nat>)
    ensures r.Success? ==> Matched(tokens, commits, r.value, m)
    ensures r.Failure? ==> exists i :: 0 <= i < |tokens| && Unresolved(tokens[i], commits)
    ensures r == Failure(UnknownToken) ==> exists i :: 0 <= i < |tokens| && MatchesNone(tokens[i], commits)
    ensures r == Failure(AmbiguousToken) ==> exists i :: 0 <= i < |tokens| && MatchesTwo(tokens[i], commits)
    ensures r.Failure? ==> r.error.UnknownToken? || r.error.AmbiguousToken?
  {
    var matched: map<string, string> := map[];
    m := [];
    assert tokens[..0] == [];
    for i := 0 to |tokens|
      invariant Matched(tokens[..i], commits, matched, m)
    {
      var hits, at := Hits(tokens[i], commits);
      if hits == [] {
        return Failure(UnknownToken), m;
      }
      if |hits| > 1 {
        return Failure(AmbiguousToken), m;
      }
      NextMatch(tokens, i, commits, matched, m, at);
      matched := matched[tokens[i] := hits[0]];
      m := m + [at];
    }
    assert tokens[..|tokens|] == tokens;
    return Success(matched), m;
  }

  lemma NextMatch(tokens: seq<string>, i: nat, commits: seq<string>, matched: map<string, string>, m: seq<nat>, at: nat)
    requires i < |tokens| && Matched(tokens[..i], commits, matched, m) && Resolves(tokens[i], commits, at)
    ensures Matched(tokens[..i + 1], commits, matched[tokens[i] := commits[at]], m + [at])
  {
    var more := tokens[..i + 1];
    assert more == tokens[..i] + [tokens[i]];
    assert SetOf(more) == SetOf(tokens[..i]) + {tokens[i]};
    forall k | 0 <= k < |more|
      ensures Resolves(more[k], commits, (m + [at])[k])
      ensures matched[tokens[i] := commits[at]][more[k]] == commits[(m + [at])[k]]
    {
      if k < i {
        assert more[k] == tokens[..i][k];
        assert more[k] == tokens[i] ==> m[k] == at;
      }
    }
  }

  /** The matched commits, one per token. */
  function ValuesInOrder(tokens: seq<string>, matched: map<string, string>): (r: seq<string>)
    requires matched.Keys == SetOf(tokens)
    ensures |r| == |tokens| && forall i :: 0 <= i < |r| ==> r[i] == matched[tokens[i]]
    ensures SetOf(r) == matched.Values
  {
    var r := seq(|tokens|, i requires 0 <= i < |tokens| => matched[tokens[i]]);
    assert forall v :: v in matched.Values ==> exists i :: 0 <= i < |r| && r[i] == v by {
      forall v | v in matched.Values ensures exists i :: 0 <= i < |r| && r[i] == v {
        var key :| key in matched && matched[key] == v;
        var i :| 0 <= i < |tokens| && tokens[i] == key;
        assert r[i] == v;
      }
    }
    assert forall i :: 0 <= i < |r| ==> tokens[i] in matched && r[i] in matched.Values;
    r
  }

  lemma PassedChecksAreOneToOne(tokens: seq<string>, commits: seq<string>, matched: map<string, string>, m: seq<nat>)
    requires Matched(tokens, commits, matched, m)
    requires |matched.Values| == |tokens| && matched.Values == SetOf(commits)
    ensures OneToOne(tokens, commits, m)
  {
    var values := ValuesInOrder(tokens, matched);
    SetSizeTellsRepetition(values);
    forall i, j | 0 <= i < j < |m| ensures m[i] != m[j] {
      assert values[i] != values[j];
    }
    forall k | 0 <= k < |commits| ensures k in m {
      assert commits[k] in SetOf(values);
      var i :| 0 <= i < |values| && values[i] == commits[k];
      assert Resolves(tokens[i], commits, m[i]);
    }
  }

  lemma OneToOneTokensAreDistinct(tokens: seq<string>, commits: seq<string>, m: seq<nat>)
    requires OneToOne(tokens, commits, m)
    ensures Distinct(tokens) && Distinct(commits)
  {
    forall i, j | 0 <= i < j < |tokens| ensures tokens[i] != tokens[j] {
      assert Resolves(tokens[i], commits, m[i]) && Resolves(tokens[j], commits, m[j]);
    }
    forall k, l | 0 <= k < l < |commits| ensures commits[k] != commits[l] {
      assert k in m;
      var i :| 0 <= i < |m| && m[i] == k;
      assert Resolves(tokens[i], commits, k) && tokens[i] <= commits[l] ==> false;
    }
  }

  lemma OneToOnePassesTheChecks(
    tokens: seq<string>, commits: seq<string>, matched: map<string, string>, m: seq<nat>, reading: seq<nat>)
    requires Matched(tokens, commits, matched, m) && OneToOne(tokens, commits, reading)
    ensures |matched.Values| == |tokens| && matched.Values == SetOf(commits)
  {
    forall i | 0 <= i < |m| ensures m[i] == reading[i] {
      assert Resolves(tokens[i], commits, m[i]) && Resolves(tokens[i], commits, reading[i]);
    }
    var values := ValuesInOrder(tokens, matched);
    SetSizeTellsRepetition(values);
    OneToOneTokensAreDistinct(tokens, commits, reading);
    forall i, j | 0 <= i < j < |values| ensures values[i] != values[j] {
      assert commits[m[i]] != commits[m[j]];
    }
    forall c | c in SetOf(commits) ensures c in matched.Values {
      var k :| 0 <= k < |commits| && commits[k] == c;
      assert k in reading;
      var i :| 0 <= i < |reading| && reading[i] == k;
      assert values[i] == c;
    }
    forall c | c in matched.Values ensures c in SetOf(commits) {
      var i :| 0 <= i < |values| && values[i] == c;
      assert c == commits[m[i]];
    }
  }

  lemma UnresolvedMeansNoReading(tokens: seq<string>, commits: seq<string>, reading: seq<nat>)
    requires exists i :: 0 <= i < |tokens| && Unresolved(tokens[i], commits)
    ensures !OneToOne(tokens, commits, reading)
  {
    var i :| 0 <= i < |tokens| && Unresolved(tokens[i], commits);
    assert |reading| == |tokens| ==> !Resolves(tokens[i], commits, reading[i]);
  }

  /** _commit_evidence_blocker: a ready handoff passes exactly when its tokens and the commits of
      the range correspond one to one. */
  method CommitEvidenceBlocker(ready: bool, reported: seq<string>, range: seq<string>, lower: string -> string)
    returns (reason: Option<CommitMismatch>)
    ensures !ready ==> reason.None?
    ensures reason == Some(DuplicateToken) <==> ready && !Distinct(ReportedTokens(reported, lower))
    ensures reason == Some(UnknownToken) ==>
              exists t :: t in ReportedTokens(reported, lower) && MatchesNone(t, Lowered(range, lower))
    ensures reason == Some(AmbiguousToken) ==>
              exists t :: t in ReportedTokens(reported, lower) && MatchesTwo(t, Lowered(range, lower))
    ensures ready ==>
              (reason.None? <==> Corresponds(ReportedTokens(reported, lower), Lowered(range, lower)))
  {
    if !ready {
      return None;
    }
    var tokens, commits := ReportedTokens(reported, lower), Lowered(range, lower);
    forall m | OneToOne(tokens, commits, m) ensures Distinct(tokens) {
      OneToOneTokensAreDistinct(tokens, commits, m);
    }
    SetSizeTellsRepetition(tokens);
    if |SetOf(tokens)| != |tokens| {
      return Some(DuplicateToken);
    }
    var r, m := MatchTokens(tokens, commits);
    if r.Failure? {
      forall reading ensures !OneToOne(tokens, commits, reading) {
        UnresolvedMeansNoReading(tokens, commits, reading);
      }
      return Some(r.error);
    }
    var matched := r.value;
    forall reading | OneToOne(tokens, commits, reading)
      ensures |matched.Values| == |tokens| && matched.Values == SetOf(commits)
    {
      OneToOnePassesTheChecks(tokens, commits, matched, m, reading);
    }
    if |matched.Values| != |tokens| {
      return Some(SameCommit);
    }
    if matched.Values != SetOf(commits) {
      return Some(MissingCommit);
    }
    PassedChecksAreOneToOne(tokens, commits, matched, m);
    assert Corresponds(tokens, commits);
    return None;
  }

  /** So a passing handoff reports as many tokens as there are commits. */
  lemma PassingHandoffsCountTheCommits(tokens: seq<string>, commits: seq<string>, m: seq<nat>)
    requires OneToOne(tokens, commits, m)
    ensures |tokens| == |commits|
  {
    OneToOneTokensAreDistinct(tokens, commits, m);
    forall i | 0 <= i < |m| ensures m[i] < |commits| {
      assert Resolves(tokens[i], commits, m[i]);
    }
    var values := seq(|m|, i requires 0 <= i < |m| => commits[m[i]]);
    SetSizeTellsRepetition(values);
    SetSizeTellsRepetition(commits);
    forall c | c in SetOf(commits) ensures c in SetOf(values) {
      var k :| 0 <= k < |commits| && commits[k] == c;
      assert k in m;
      var i :| 0 <= i < |m| && m[i] == k;
      assert values[i] == c;
    }
    assert SetOf(values) == SetOf(commits);
    forall i, j | 0 <= i < j < |values| ensures values[i] != values[j] {
      assert m[i] != m[j];
    }
  }

  // ----- what is read off a commit line -------------------------------------

  lemma {:induction false} FirstWordEndsAtSpace(text: string) returns (rest: string)
    ensures text == FirstWord(text) + rest && (rest == "" || IsSpace(rest[0]))
    ensures forall c :: c in FirstWord(text) ==> !IsSpace(c)
  {
    rest := text;
    if text != "" && !IsSpace(text[0]) {
      rest := FirstWordEndsAtSpace(text[1..]);
      var word := FirstWord(text[1..]);
      assert FirstWord(text) == [text[0]] + word;
      assert text == [text[0]] + text[1..] == [text[0]] + (word + rest);
    }
  }

  /** The token of a line is its first maximal run of characters other than space. */
  lemma TheTokenIsTheFirstWord(entry: string) returns (before: string, rest: string)
    ensures entry == before + CommitToken(entry) + rest && PathMeaning.AllSpace(before)
    ensures forall c :: c in CommitToken(entry) ==> !IsSpace(c)
    ensures rest == "" || IsSpace(rest[0])
    ensures CommitToken(entry) == "" ==> PathMeaning.AllSpace(entry)
  {
    var after, more;
    before, after := PathMeaning.TrimRemovesOnlySpace(entry);
    more := FirstWordEndsAtSpace(Trim(entry));
    rest := more + after;
    var token := CommitToken(entry);
    assert before + (token + more) + after == before + token + (more + after);
    assert more == "" ==> rest == after;
    assert token == "" ==> Trim(entry) == more;
    assert token == "" ==> entry == before + after;
  }

  /** The tokens are those of the lines, lower-cased; blank lines have none. */
  lemma {:induction false} TokensAreThoseOfTheLines(commits: seq<string>, lower: string -> string)
    ensures forall t :: t in ReportedTokens(commits, lower) <==> t != "" && HasToken(commits, lower, t)
  {
    if commits != [] {
      TokensAreThoseOfTheLines(commits[..|commits| - 1], lower);
      OneMoreLine(commits, lower);
    }
  }

  /** A token is reported twice exactly when two lines have it. */
  lemma {:induction false} RepeatedTokensAreThoseOfTwoLines(commits: seq<string>, lower: string -> string)
    ensures Distinct(ReportedTokens(commits, lower)) <==> AllApart(commits, lower)
  {
    if commits != [] {
      var init, token := commits[..|commits| - 1], lower(CommitToken(commits[|commits| - 1]));
      RepeatedTokensAreThoseOfTwoLines(init, lower);
      TokensAreThoseOfTheLines(init, lower);
      var tokens := ReportedTokens(init, lower);
      OneMoreToken(tokens, token);
      LastIsApart(commits, lower);
      assert ReportedTokens(commits, lower) == if token == "" then tokens else tokens + [token];
    }
  }

  /** No two lines have the same token. */
  ghost predicate AllApart(commits: seq<string>, lower: string -> string) {
    forall i, j :: 0 <= i < j < |commits| ==> Apart(lower(CommitToken(commits[i])), lower(CommitToken(commits[j])))
  }

  predicate Apart(s: string, t: string) {
    s == "" || t == "" || s != t
  }

  ghost predicate HasToken(commits: seq<string>, lower: string -> string, t: string) {
    exists i :: 0 <= i < |commits| && lower(CommitToken(commits[i])) == t
  }

  lemma OneMoreLine(commits: seq<string>, lower: string -> string)
    requires commits != []
    ensures forall t :: HasToken(commits, lower, t) <==>
              HasToken(commits[..|commits| - 1], lower, t) || t == lower(CommitToken(commits[|commits| - 1]))
  {
    var init := commits[..|commits| - 1];
    forall t | HasToken(init, lower, t) ensures HasToken(commits, lower, t) {
      var i :| 0 <= i < |init| && lower(CommitToken(init[i])) == t;
      assert commits[i] == init[i];
    }
    forall t | HasToken(commits, lower, t) && t != lower(CommitToken(commits[|commits| - 1])) ensures HasToken(init, lower, t) {
      var i :| 0 <= i < |commits| && lower(CommitToken(commits[i])) == t;
      assert commits[i] == init[i];
    }
  }

  lemma OneMoreToken(tokens: seq<string>, token: string)
    ensures Distinct(tokens + [token]) <==> Distinct(tokens) && token !in tokens
  {
    var all := tokens + [token];
    if Distinct(all) {
      forall i, j | 0 <= i < j < |tokens| ensures tokens[i] != tokens[j] {
        assert all[i] != all[j];
      }
      forall i | 0 <= i < |tokens| ensures tokens[i] != token {
        assert all[i] != all[|tokens|];
      }
    }
  }

  lemma LastIsApart(commits: seq<string>, lower: string -> string)
    requires commits != []
    ensures var init, token := commits[..|commits| - 1], lower(CommitToken(commits[|commits| - 1]));
            AllApart(commits, lower) <==> AllApart(init, lower) && (token == "" || !HasToken(init, lower, token))
  {
    var n := |commits| - 1;
    var init, token := commits[..n], lower(CommitToken(commits[n]));
    assert forall i :: 0 <= i < n ==> init[i] == commits[i];
    if AllApart(commits, lower) {
      forall i | 0 <= i < n ensures Apart(lower(CommitToken(init[i])), token) {
        assert Apart(lower(CommitToken(commits[i])), lower(CommitToken(commits[n])));
      }
    }
  }
}
