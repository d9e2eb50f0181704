/** Strict Base64, as sections 3.2, 3.3 and 4 of RFC 4648 define it: the standard alphabet only,
    whole quanta of four characters, padding only at the end. Non-zero pad bits are accepted. */
module Base64 {
  import opened Wrappers
  import opened BitArithmetic

  /** The six bits a character of the alphabet stands for. */
  function Sextet(c: char): (v: Option<nat>)
    ensures v.Some? ==> v.value < 64
  {
    if 'A' <= c <= 'Z' then Some(c as int - 'A' as int)
    else if 'a' <= c <= 'z' then Some(c as int - 'a' as int + 26)
    else if '0' <= c <= '9' then Some(c as int - '0' as int + 52)
    else if c == '+' then Some(62)
    else if c == '/' then Some(63)
    else None
  }

  function Digit(v: nat): (c: char)
    requires v < 64
    ensures Sextet(c) == Some(v) && c != '='
  {
    if v < 26 then ('A' as int + v) as char
    else if v < 52 then ('a' as int + (v - 26)) as char
    else if v < 62 then ('0' as int + (v - 52)) as char
    else if v == 62 then '+'
    else '/'
  }

  function FullQuantum(q: string): (r: Option<seq<Byte>>)
    requires |q| == 4
    ensures r.Some? ==> |r.value| == 3 && '=' !in q
  {
    var a, b, c, d := Sextet(q[0]), Sextet(q[1]), Sextet(q[2]), Sextet(q[3]);
    if a.None? || b.None? || c.None? || d.None? then None
    else Some([a.value * 4 + b.value / 16, b.value % 16 * 16 + c.value / 4, c.value % 4 * 64 + d.value])
  }

  /** Only the last quantum may be padded. */
  function LastQuantum(q: string): (r: Option<seq<Byte>>)
    requires |q| == 4
    ensures r.Some? ==> 1 <= |r.value| <= 3
  {
    var a, b, c := Sextet(q[0]), Sextet(q[1]), Sextet(q[2]);
    if q[3] != '=' then FullQuantum(q)
    else if a.None? || b.None? then None
    else if q[2] == '=' then Some([a.value * 4 + b.value / 16])
    else if c.None? then None
    else Some([a.value * 4 + b.value / 16, b.value % 16 * 16 + c.value / 4])
  }

  function Decode(t: string): Option<seq<Byte>>
    decreases |t|
  {
    if t == "" then Some([])
    else if |t| < 4 then None
    else if |t| == 4 then LastQuantum(t)
    else
      var first := FullQuantum(t[..4]);
      if first.None? then None else Prepend(first.value, Decode(t[4..]))
  }

  function Prepend(x: seq<Byte>, rest: Option<seq<Byte>>): Option<seq<Byte>> {
    if rest.None? then None else Some(x + rest.value)
  }

  function Encode(x: seq<Byte>): string {
    if x == [] then ""
    else if |x| == 1 then [Digit(x[0] / 4), Digit(x[0] % 4 * 16), '=', '=']
    else if |x| == 2 then [Digit(x[0] / 4), Digit(x[0] % 4 * 16 + x[1] / 16), Digit(x[1] % 16 * 4), '=']
    else EncodedGroup(x[0], x[1], x[2]) + Encode(x[3..])
  }

  function EncodedGroup(a: Byte, b: Byte, c: Byte): string {
    [Digit(a / 4), Digit(a % 4 * 16 + b / 16), Digit(b % 16 * 4 + c / 64), Digit(c % 64)]
  }

  lemma PrependNothing(rest: Option<seq<Byte>>)
    ensures Prepend([], rest) == rest
  {
    if rest.Some? {
      assert [] + rest.value == rest.value;
    }
  }

  lemma PrependTwice(x: seq<Byte>, y: seq<Byte>, rest: Option<seq<Byte>>)
    ensures Prepend(x, Prepend(y, rest)) == Prepend(x + y, rest)
  {
    if rest.Some? {
      assert x + (y + rest.value) == (x + y) + rest.value;
    }
  }

  function Then(first: Option<seq<Byte>>, rest: Option<seq<Byte>>): Option<seq<Byte>> {
    if first.None? then None else Prepend(first.value, rest)
  }

  lemma FirstQuantumDecodes(q: string, rest: string)
    requires |q| == 4 && '=' !in q
    ensures Decode(q + rest) == Then(FullQuantum(q), Decode(rest))
  {
    if rest == "" {
      assert q + rest == q;
      assert q[3] != '=';
      if FullQuantum(q).Some? {
        assert FullQuantum(q).value + [] == FullQuantum(q).value;
      }
    } else {
      assert (q + rest)[..4] == q && (q + rest)[4..] == rest;
      if 0 < |rest| < 4 {
        assert Decode(rest).None?;
      }
    }
  }

  // ----- round trips --------------------------------------------------------

  /** The four sextets of three bytes, joined again. */
  lemma JoinFirst(a: Byte, b: Byte)
    ensures var s := a % 4 * 16 + b / 16; s < 64 && a / 4 * 4 + s / 16 == a && s % 16 == b / 16
  {
    assert (a % 4 * 16 + b / 16) / 16 == a % 4;
  }

  lemma JoinSecond(b: Byte, c: Byte)
    ensures var s := b % 16 * 4 + c / 64; s < 64 && b / 16 * 16 + s / 4 == b && s % 4 == c / 64
  {
    assert (b % 16 * 4 + c / 64) / 4 == b % 16;
  }

  lemma GroupRoundTrip(a: Byte, b: Byte, c: Byte)
    ensures FullQuantum(EncodedGroup(a, b, c)) == Some([a, b, c])
  {
    JoinFirst(a, b);
    JoinSecond(b, c);
    JoinedGroup(a / 4, a % 4 * 16 + b / 16, b % 16 * 4 + c / 64, c % 64);
    assert c / 64 * 64 + c % 64 == c;
  }

  lemma JoinedGroup(s0: nat, s1: nat, s2: nat, s3: nat)
    requires s0 < 64 && s1 < 64 && s2 < 64 && s3 < 64
    ensures FullQuantum([Digit(s0), Digit(s1), Digit(s2), Digit(s3)])
         == Some([s0 * 4 + s1 / 16, s1 % 16 * 16 + s2 / 4, s2 % 4 * 64 + s3])
  {
  }

  lemma OneByteRoundTrip(a: Byte)
    ensures LastQuantum([Digit(a / 4), Digit(a % 4 * 16), '=', '=']) == Some([a])
  {
    var s := a % 4 * 16;
    assert s / 16 == a % 4;
    assert a / 4 * 4 + a % 4 == a;
  }

  lemma TwoByteRoundTrip(a: Byte, b: Byte)
    ensures LastQuantum([Digit(a / 4), Digit(a % 4 * 16 + b / 16), Digit(b % 16 * 4), '=']) == Some([a, b])
  {
    JoinFirst(a, b);
    var s := b % 16 * 4;
    assert s / 4 == b % 16;
    assert b / 16 * 16 + b % 16 == b;
  }

  lemma {:induction false} DecodeInvertsEncode(x: seq<Byte>)
    ensures Decode(Encode(x)) == Some(x)
  {
    if |x| >= 3 {
      DecodeInvertsEncode(x[3..]);
      GroupRoundTrip(x[0], x[1], x[2]);
      FirstQuantumDecodes(EncodedGroup(x[0], x[1], x[2]), Encode(x[3..]));
      assert x == [x[0], x[1], x[2]] + x[3..];
    } else if |x| == 2 {
      TwoByteRoundTrip(x[0], x[1]);
      assert x == [x[0], x[1]];
    } else if |x| == 1 {
      OneByteRoundTrip(x[0]);
      assert x == [x[0]];
    }
  }

  /** Four characters for every three bytes begun. */
  lemma {:induction false} EncodedLength(x: seq<Byte>)
    ensures |Encode(x)| == 4 * ((|x| + 2) / 3)
  {
    if |x| >= 3 {
      EncodedLength(x[3..]);
    }
  }

  /** A text that decodes is as long as the encoding of what it decodes to. */
  lemma {:induction false} DecodedLength(t: string)
    requires Decode(t).Some?
    ensures |t| == 4 * ((|Decode(t).value| + 2) / 3)
    decreases |t|
  {
    if |t| > 4 {
      DecodedLength(t[4..]);
    }
  }

  /** The bits of the last digit that padding leaves over are zero. */
  predicate ZeroPadBits(t: string) {
    |t| >= 4 && t[|t| - 1] == '=' ==>
      var c := if t[|t| - 2] == '=' then Sextet(t[|t| - 3]) else Sextet(t[|t| - 2]);
      c.Some? && (if t[|t| - 2] == '=' then c.value % 16 == 0 else c.value % 4 == 0)
  }

  lemma DigitOfSextet(c: char)
    requires Sextet(c).Some?
    ensures Digit(Sextet(c).value) == c
  {
  }

  lemma SplitFirst(s0: nat, s1: nat, low: nat)
    requires s0 < 64 && s1 < 64 && low < 16
    ensures var a, b := s0 * 4 + s1 / 16, s1 % 16 * 16 + low; a / 4 == s0 && a % 4 * 16 + b / 16 == s1 && b % 16 == low
  {
    assert (s1 % 16 * 16 + low) / 16 == s1 % 16;
  }

  lemma SplitSecond(s2: nat, s3: nat)
    requires s2 < 64 && s3 < 64
    ensures var c := s2 % 4 * 64 + s3; s2 / 4 * 4 + c / 64 == s2 && c % 64 == s3
  {
  }

  lemma FullQuantumReencodes(q: string)
    requires |q| == 4 && FullQuantum(q).Some?
    ensures var x := FullQuantum(q).value; EncodedGroup(x[0], x[1], x[2]) == q
  {
    var s0, s1, s2, s3 := Sextet(q[0]).value, Sextet(q[1]).value, Sextet(q[2]).value, Sextet(q[3]).value;
    SplitFirst(s0, s1, s2 / 4);
    SplitSecond(s2, s3);
    var x := FullQuantum(q).value;
    assert x[0] / 4 == s0 && x[0] % 4 * 16 + x[1] / 16 == s1;
    assert x[1] % 16 * 4 + x[2] / 64 == s2 && x[2] % 64 == s3;
    QuantumIsItsDigits(q, s0, s1, s2, s3);
  }

  lemma QuantumIsItsDigits(q: string, s0: nat, s1: nat, s2: nat, s3: nat)
    requires |q| == 4 && s0 < 64 && s1 < 64 && s2 < 64 && s3 < 64
    requires Sextet(q[0]) == Some(s0) && Sextet(q[1]) == Some(s1) && Sextet(q[2]) == Some(s2) && Sextet(q[3]) == Some(s3)
    ensures q == [Digit(s0), Digit(s1), Digit(s2), Digit(s3)]
  {
    DigitOfSextet(q[0]);
    DigitOfSextet(q[1]);
    DigitOfSextet(q[2]);
    DigitOfSextet(q[3]);
  }

  lemma OneByteReencodes(q: string)
    requires |q| == 4 && LastQuantum(q).Some? && q[3] == '=' && q[2] == '='
    ensures Encode(LastQuantum(q).value) == q <==> ZeroPadBits(q)
  {
    var s0, s1 := Sextet(q[0]).value, Sextet(q[1]).value;
    var a := s0 * 4 + s1 / 16;
    DigitOfSextet(q[0]);
    DigitOfSextet(q[1]);
    assert a / 4 == s0 && a % 4 * 16 == s1 / 16 * 16;
    assert Encode([a]) == [Digit(s0), Digit(s1 / 16 * 16), '=', '='];
    assert Encode([a])[1] == q[1] <==> s1 / 16 * 16 == s1;
  }

  lemma TwoBytesReencode(q: string)
    requires |q| == 4 && LastQuantum(q).Some? && q[3] == '=' && q[2] != '='
    ensures Encode(LastQuantum(q).value) == q <==> ZeroPadBits(q)
  {
    var s0, s1, s2 := Sextet(q[0]).value, Sextet(q[1]).value, Sextet(q[2]).value;
    SplitFirst(s0, s1, s2 / 4);
    TwoByteText(s0 * 4 + s1 / 16, s1 % 16 * 16 + s2 / 4, s0, s1, s2 / 4 * 4);
    DigitOfSextet(q[0]);
    DigitOfSextet(q[1]);
    DigitOfSextet(q[2]);
    assert Digit(s2 / 4 * 4) == q[2] <==> s2 / 4 * 4 == s2;
  }

  lemma TwoByteText(a: Byte, b: Byte, s0: nat, s1: nat, s2: nat)
    requires s0 < 64 && s1 < 64 && s2 < 64
    requires a / 4 == s0 && a % 4 * 16 + b / 16 == s1 && b % 16 * 4 == s2
    ensures Encode([a, b]) == [Digit(s0), Digit(s1), Digit(s2), '=']
  {
  }

  lemma LastQuantumReencodes(q: string)
    requires |q| == 4 && LastQuantum(q).Some?
    ensures Encode(LastQuantum(q).value) == q <==> ZeroPadBits(q)
  {
    if q[3] != '=' {
      var x := LastQuantum(q).value;
      FullQuantumReencodes(q);
      assert Encode(x) == EncodedGroup(x[0], x[1], x[2]) + "";
    } else if q[2] == '=' {
      OneByteReencodes(q);
    } else {
      TwoBytesReencode(q);
    }
  }

  /** Decoding loses only the pad bits: a text comes back exactly when they are zero. */
  lemma {:induction false} EncodeInvertsDecodeExactly(t: string)
    requires Decode(t).Some?
    ensures Encode(Decode(t).value) == t <==> ZeroPadBits(t)
    decreases |t|
  {
    if |t| == 4 {
      LastQuantumReencodes(t);
    } else if |t| > 4 {
      var first, rest := FullQuantum(t[..4]).value, t[4..];
      EncodeInvertsDecodeExactly(rest);
      FullQuantumReencodes(t[..4]);
      DecodedLength(rest);
      var x := first + Decode(rest).value;
      assert x[3..] == Decode(rest).value;
      assert Encode(x) == t[..4] + Encode(Decode(rest).value);
      assert t == t[..4] + rest;
      assert |rest| >= 4;
    }
  }

  /** "AB==" and "AA==" both decode to one zero byte. */
  lemma PadBitsAreLost()
    ensures Decode("AB==") == Decode("AA==") == Some([0]) && Encode([0]) == "AA=="
  {
  }

  // ----- the language and the numbers ---------------------------------------

  function Letters(first: char, n: nat): (s: string)
    requires first as int + n <= 128
    ensures |s| == n && forall i :: 0 <= i < n ==> s[i] as int == first as int + i
  {
    seq(n, i requires 0 <= i < n => (first as int + i) as char)
  }

  /** Table 1 of RFC 4648. */
  function Alphabet(): string {
    Letters('A', 26) + Letters('a', 26) + Letters('0', 10) + ['+', '/']
  }

  /** A character stands for its place in the alphabet, and no other character for anything. */
  lemma SextetsAreTheAlphabet(c: char, v: nat)
    ensures |Alphabet()| == 64
    ensures Sextet(c) == Some(v) <==> v < 64 && Alphabet()[v] == c
  {
    if v < 64 {
      PlaceInTheAlphabet(v);
    }
    if Sextet(c).Some? {
      DigitOfSextet(c);
    }
  }

  lemma PlaceInTheAlphabet(v: nat)
    requires v < 64
    ensures |Alphabet()| == 64 && Alphabet()[v] == Digit(v)
  {
    var upper, lower, digits := Letters('A', 26), Letters('a', 26), Letters('0', 10);
    var last: string := ['+', '/'];
    var all := upper + lower + digits + last;
    if v < 26 {
      assert all[v] == upper[v];
    } else if v < 52 {
      assert all[v] == lower[v - 26];
    } else if v < 62 {
      assert all[v] == digits[v - 52];
    } else {
      assert all[v] == last[v - 62];
    }
  }

  /** n characters of the alphabet. */
  predicate Plain(s: string) {
    forall i :: 0 <= i < |s| ==> Sextet(s[i]).Some?
  }

  /** Characters of the alphabet and at most two '=', whole quanta together. */
  ghost predicate StrictText(t: string, body: string, padding: string) {
    t == body + padding && Plain(body) && |t| % 4 == 0 && (padding == "" || padding == "=" || padding == "==")
  }

  ghost predicate Strict(t: string) {
    exists body, padding :: StrictText(t, body, padding)
  }

  lemma {:induction false} DecodedTextIsStrict(t: string) returns (body: string, padding: string)
    requires Decode(t).Some?
    ensures StrictText(t, body, padding)
    decreases |t|
  {
    if t == "" {
      body, padding := "", "";
    } else if |t| == 4 {
      body, padding := LastQuantumIsStrict(t);
    } else {
      body, padding := DecodedTextIsStrict(t[4..]);
      PlainQuantum(t[..4]);
      body := t[..4] + body;
      assert t == t[..4] + t[4..];
    }
  }

  lemma PlainQuantum(q: string)
    requires |q| == 4
    ensures FullQuantum(q).Some? <==> Plain(q)
  {
    assert q == [q[0], q[1], q[2], q[3]];
  }

  lemma LastQuantumIsStrict(q: string) returns (body: string, padding: string)
    requires |q| == 4 && LastQuantum(q).Some?
    ensures StrictText(q, body, padding)
  {
    PlainQuantum(q);
    var n: nat := if q[3] != '=' then 4 else if q[2] != '=' then 3 else 2;
    body, padding := q[..n], q[n..];
    assert q == body + padding;
  }

  lemma {:induction false} StrictTextDecodes(t: string, body: string, padding: string)
    requires StrictText(t, body, padding)
    ensures Decode(t).Some?
    decreases |t|
  {
    if |t| == 4 {
      StrictQuantumDecodes(t, body, padding);
    } else if |t| > 4 {
      assert t[..4] == body[..4] && t[4..] == body[4..] + padding;
      PlainQuantum(t[..4]);
      StrictTextDecodes(t[4..], body[4..], padding);
    }
  }

  lemma StrictQuantumDecodes(q: string, body: string, padding: string)
    requires |q| == 4 && StrictText(q, body, padding)
    ensures LastQuantum(q).Some?
  {
    assert forall i :: 0 <= i < |body| ==> q[i] == body[i];
    assert forall i :: |body| <= i < 4 ==> q[i] == padding[i - |body|];
    assert q[0] == body[0] && q[1] == body[1];
    PlainQuantum(q);
  }

  /** A text decodes exactly when it is whole quanta of the alphabet with at most two '=' at the end. */
  lemma DecodesExactly(t: string)
    ensures Decode(t).Some? <==> Strict(t)
  {
    if Decode(t).Some? {
      var body, padding := DecodedTextIsStrict(t);
    }
    if Strict(t) {
      var body, padding :| StrictText(t, body, padding);
      StrictTextDecodes(t, body, padding);
    }
  }

  /** Each quantum is one number: 24 bits read as four digits or as three bytes; of a padded one the
      bits of its last byte begun are dropped. */
  lemma QuantumIsOneNumber(q: string)
    requires |q| == 4 && LastQuantum(q).Some?
    ensures var x: seq<int> := LastQuantum(q).value;
            var a, b, c, d := Sextet(q[0]), Sextet(q[1]), Sextet(q[2]), Sextet(q[3]);
            && a.Some? && b.Some?
            && (q[3] != '=' ==>
                  (|x| == 3 && c.Some? && d.Some?
                   && x[0] * 65536 + x[1] * 256 + x[2] == a.value * 262144 + b.value * 4096 + c.value * 64 + d.value))
            && (q[3] == '=' && q[2] != '=' ==>
                  (|x| == 2 && c.Some? && x[0] * 256 + x[1] == (a.value * 4096 + b.value * 64 + c.value) / 4))
            && (q[3] == '=' && q[2] == '=' ==> |x| == 1 && x[0] == (a.value * 64 + b.value) / 16)
  {
  }
}
