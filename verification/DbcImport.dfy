/** Decoding an import payload in bounded steps (runtime/canx/api/dbc.py). */
module DbcImport {
  import opened Wrappers
  import opened BitArithmetic
  import opened Base64

  const MAX_DBC_IMPORT_BYTES: nat := 16 * 1024 * 1024
  const MAX_IMPORT_BASE64_CHARS: nat := 4 * ((MAX_DBC_IMPORT_BYTES + 2) / 3)
  const DECODE_CHUNK_CHARS: nat := 256 * 1024

  datatype ImportError = ContentEmpty | ContentTooLarge | NotBase64

  /** Whole quanta without padding decode on their own. */
  lemma {:induction false} DecodeSplits(a: string, b: string)
    requires |a| % 4 == 0 && '=' !in a
    ensures Decode(a + b) == Then(Decode(a), Decode(b))
    decreases |a|
  {
    PrependNothing(Decode(b));
    if a == "" {
      assert a + b == b;
    } else if b == "" {
      assert a + b == a;
      if Decode(a).Some? {
        assert Decode(a).value + [] == Decode(a).value;
      }
    } else {
      var q, rest := a[..4], a[4..];
      assert a == q + rest && '=' !in rest;
      assert (a + b)[..4] == q && (a + b)[4..] == rest + b;
      DecodeSplits(rest, b);
      FirstQuantumDecodes(q, rest);
      if FullQuantum(q).Some? && Decode(rest).Some? {
        PrependTwice(FullQuantum(q).value, Decode(rest).value, Decode(b));
      }
    }
  }

  /** Padding before the last quantum is refused. */
  lemma {:induction false} EarlyPaddingIsRefused(a: string, b: string)
    requires |a| % 4 == 0 && '=' in a && b != ""
    ensures Decode(a + b).None?
    decreases |a|
  {
    var q, rest := a[..4], a[4..];
    assert a == q + rest;
    assert (a + b)[..4] == q && (a + b)[4..] == rest + b;
    if '=' !in q {
      EarlyPaddingIsRefused(rest, b);
    }
  }

  /** _decode_strict_base64, one step at a time: it accepts what one strict decode of the whole text
      accepts, and yields the same bytes. */
  method DecodeStrictBase64(t: string, chunk: nat) returns (r: Option<seq<Byte>>)
    requires chunk > 0 && chunk % 4 == 0
    ensures r == Decode(t)
  {
    var parts: seq<Byte> := [];
    var start: nat := 0;
    assert t[0..] == t;
    PrependNothing(Decode(t));
    while start < |t|
      invariant start <= |t| && Decode(t) == Prepend(parts, Decode(t[start..]))
      decreases |t| - start
    {
      var end := if start + chunk < |t| then start + chunk else |t|;
      var step := t[start..end];
      assert t[start..] == step + t[end..];
      if '=' in step && end < |t| {
        EarlyPaddingIsRefused(step, t[end..]);
        return None;
      }
      StepDecodes(step, t[end..]);
      var decoded := Decode(step);
      if decoded.None? {
        return None;
      }
      PrependTwice(parts, decoded.value, Decode(t[end..]));
      parts := parts + decoded.value;
      start := end;
    }
    assert parts + [] == parts;
    return Some(parts);
  }

  lemma StepDecodes(step: string, rest: string)
    requires rest == "" || (|step| % 4 == 0 && '=' !in step)
    ensures Decode(step + rest) == Then(Decode(step), Decode(rest))
  {
    if rest == "" {
      assert step + rest == step;
      if Decode(step).Some? {
        assert Decode(step).value + [] == Decode(step).value;
      }
    } else {
      DecodeSplits(step, rest);
    }
  }

  /** decode_import_content: what it accepts is exactly the strict Base64 of 1 byte to 16 MiB, so
      the length guard never turns such content away. */
  method DecodeImportContent(t: string) returns (r: Result<seq<Byte>, ImportError>)
    ensures r.Success? <==> Decode(t).Some? && 0 < |Decode(t).value| <= 16_777_216
    ensures r.Success? ==> r.value == Decode(t).value
    ensures r == Failure(ContentEmpty) <==> t == ""
    ensures r == Failure(ContentTooLarge) <==>
              |t| > 22_369_624 || (Decode(t).Some? && |Decode(t).value| > 16_777_216)
  {
    if Decode(t).Some? {
      DecodedLength(t);
    }
    if t == "" {
      return Failure(ContentEmpty);
    }
    if |t| > MAX_IMPORT_BASE64_CHARS {
      return Failure(ContentTooLarge);
    }
    var raw := DecodeStrictBase64(t, DECODE_CHUNK_CHARS);
    if raw.None? {
      return Failure(NotBase64);
    }
    if raw.value == [] {
      return Failure(ContentEmpty);
    }
    if |raw.value| > MAX_DBC_IMPORT_BYTES {
      return Failure(ContentTooLarge);
    }
    return Success(raw.value);
  }

  /** Every document within the bound can be sent, and arrives unchanged. */
  lemma DocumentsWithinTheBoundPass(x: seq<Byte>)
    requires 0 < |x| <= MAX_DBC_IMPORT_BYTES
    ensures Encode(x) != "" && |Encode(x)| <= MAX_IMPORT_BASE64_CHARS && Decode(Encode(x)) == Some(x)
  {
    assert (|x| + 2) / 3 <= (MAX_DBC_IMPORT_BYTES + 2) / 3;
    EncodedLength(x);
    DecodeInvertsEncode(x);
  }

  /** The length guard alone would let up to two bytes too many through. */
  lemma TheGuardIsNotTheBound(x: seq<Byte>)
    requires |x| > MAX_DBC_IMPORT_BYTES
    ensures |Encode(x)| <= MAX_IMPORT_BASE64_CHARS <==> |x| <= MAX_DBC_IMPORT_BYTES + 2
  {
    EncodedLength(x);
  }
}
