/** The chunked recording format (runtime/canx/recorder/msgpack_recorder.py): a magic, then one
    length-prefixed chunk per batch. The batch codec is a parameter. */
module RecordingFile {
  import opened Wrappers
  import opened BitArithmetic
  import opened CanFrame

  type Encoder = FrameBatch -> seq<Byte>
  type Decoder = seq<Byte> -> Option<FrameBatch>

  datatype ReadError = MagicInvalid | PrefixTruncated | ChunkTruncated | PayloadUndecodable

  const MAX_PAYLOAD: nat := 0x1_0000_0000

  /** "CANXMSG1". */
  function Magic(): seq<Byte> {
    [0x43, 0x41, 0x4E, 0x58, 0x4D, 0x53, 0x47, 0x31]
  }

  /** struct.pack(">I", n). */
  function LengthPrefix(n: nat): (p: seq<Byte>)
    requires n < MAX_PAYLOAD
    ensures |p| == 4
  {
    [n / 0x100_0000, n / 0x1_0000 % 256, n / 256 % 256, n % 256]
  }

  function Chunk(payload: seq<Byte>): seq<Byte>
    requires |payload| < MAX_PAYLOAD
  {
    LengthPrefix(|payload|) + payload
  }

  /** Every batch encodes to a payload a chunk can carry. */
  ghost predicate Framable(encode: Encoder, batches: seq<FrameBatch>) {
    forall i :: 0 <= i < |batches| ==> |encode(batches[i])| < MAX_PAYLOAD
  }

  /** The codec round-trips on these batches. */
  ghost predicate RoundTrips(encode: Encoder, decode: Decoder, batches: seq<FrameBatch>) {
    forall i :: 0 <= i < |batches| ==> decode(encode(batches[i])) == Some(batches[i])
  }

  ghost function Chunks(encode: Encoder, batches: seq<FrameBatch>): seq<Byte>
    requires Framable(encode, batches)
  {
    if batches == [] then [] else Chunk(encode(batches[0])) + Chunks(encode, batches[1..])
  }

  ghost function Recording(encode: Encoder, batches: seq<FrameBatch>): seq<Byte>
    requires Framable(encode, batches)
  {
    Magic() + Chunks(encode, batches)
  }

  // ----- reading ------------------------------------------------------------

  /** What the chunks in rest hold. */
  function Parse(decode: Decoder, rest: seq<Byte>): Result<seq<FrameBatch>, ReadError>
    decreases |rest|
  {
    if rest == [] then Success([])
    else if |rest| < 4 then Failure(PrefixTruncated)
    else
      var length := FromBytesBig(rest[..4]);
      if |rest| - 4 < length then Failure(ChunkTruncated)
      else
        var batch := decode(rest[4..4 + length]);
        if batch.None? then Failure(PayloadUndecodable)
        else
          match Parse(decode, rest[4 + length..])
          case Failure(e) => Failure(e)
          case Success(batches) => Success([batch.value] + batches)
  }

  function Read(decode: Decoder, file: seq<Byte>): Result<seq<FrameBatch>, ReadError> {
    if |file| < 8 || file[..8] != Magic() then Failure(MagicInvalid) else Parse(decode, file[8..])
  }

  function Append(before: seq<FrameBatch>, rest: Result<seq<FrameBatch>, ReadError>): Result<seq<FrameBatch>, ReadError> {
    match rest
    case Failure(e) => Failure(e)
    case Success(batches) => Success(before + batches)
  }

  /** file.read(n): at most n bytes from the position. */
  function ReadBytes(file: seq<Byte>, position: nat, n: nat): seq<Byte>
    requires position <= |file|
  {
    if position + n <= |file| then file[position..position + n] else file[position..]
  }

  /** read_recording. */
  method ReadRecording(decode: Decoder, file: seq<Byte>) returns (r: Result<seq<FrameBatch>, ReadError>)
    ensures r == Read(decode, file)
  {
    if ReadBytes(file, 0, 8) != Magic() {
      return Failure(MagicInvalid);
    }
    var batches: seq<FrameBatch> := [];
    var position: nat := 8;
    AppendNothing(Parse(decode, file[8..]));
    var prefix := ReadBytes(file, position, 4);
    while prefix != []
      invariant 8 <= position <= |file| && prefix == ReadBytes(file, position, 4)
      invariant Parse(decode, file[8..]) == Append(batches, Parse(decode, file[position..]))
      decreases |file| - position
    {
      if |prefix| != 4 {
        return Failure(PrefixTruncated);
      }
      ghost var rest := file[position..];
      assert rest[..4] == prefix;
      var length := FromBytesBig(prefix);
      var payload := ReadBytes(file, position + 4, length);
      if |payload| != length {
        return Failure(ChunkTruncated);
      }
      assert rest[4..4 + length] == payload && rest[4 + length..] == file[position + 4 + length..];
      var batch := decode(payload);
      if batch.None? {
        return Failure(PayloadUndecodable);
      }
      AppendTwice(batches, [batch.value], Parse(decode, file[position + 4 + length..]));
      batches := batches + [batch.value];
      position := position + 4 + length;
      prefix := ReadBytes(file, position, 4);
    }
    assert file[position..] == [];
    assert batches + [] == batches;
    return Success(batches);
  }

  lemma AppendNothing(rest: Result<seq<FrameBatch>, ReadError>)
    ensures Append([], rest) == rest
  {
    if rest.Success? {
      assert [] + rest.value == rest.value;
    }
  }

  lemma AppendTwice(a: seq<FrameBatch>, b: seq<FrameBatch>, rest: Result<seq<FrameBatch>, ReadError>)
    ensures Append(a, Append(b, rest)) == Append(a + b, rest)
  {
    if rest.Success? {
      assert a + (b + rest.value) == (a + b) + rest.value;
    }
  }

  // ----- round trip and truncation ------------------------------------------

  lemma PrefixReadsBack(n: nat)
    requires n < MAX_PAYLOAD
    ensures FromBytesBig(LengthPrefix(n)) == n
  {
    var p := LengthPrefix(n);
    FourBigBytes(p);
    assert n / 256 / 256 == n / 0x1_0000 && n / 0x1_0000 / 256 == n / 0x100_0000;
  }

  lemma FourBigBytes(p: seq<Byte>)
    requires |p| == 4
    ensures var a: nat, b: nat, c: nat, d: nat := p[0], p[1], p[2], p[3]; FromBytesBig(p) == ((a * 256 + b) * 256 + c) * 256 + d
  {
    var a: nat, b: nat, c: nat := p[0], p[1], p[2];
    assert FromBytesBig(p[..0]) == 0;
    assert p[..1][..0] == p[..0] && p[..2][..1] == p[..1] && p[..3][..2] == p[..2];
    assert FromBytesBig(p[..1]) == a;
    assert FromBytesBig(p[..2]) == a * 256 + b;
    assert FromBytesBig(p[..3]) == (a * 256 + b) * 256 + c;
  }

  lemma OneChunkParses(decode: Decoder, payload: seq<Byte>, rest: seq<Byte>)
    requires |payload| < MAX_PAYLOAD && decode(payload).Some?
    ensures Parse(decode, Chunk(payload) + rest) == Append([decode(payload).value], Parse(decode, rest))
  {
    var all, n := Chunk(payload) + rest, |payload|;
    assert all[..4] == LengthPrefix(n) && all[4..4 + n] == payload && all[4 + n..] == rest;
    PrefixReadsBack(n);
  }

  lemma {:induction false} WholeChunksParse(encode: Encoder, decode: Decoder, batches: seq<FrameBatch>, rest: seq<Byte>)
    requires Framable(encode, batches) && RoundTrips(encode, decode, batches)
    ensures Parse(decode, Chunks(encode, batches) + rest) == Append(batches, Parse(decode, rest))
  {
    if batches == [] {
      assert Chunks(encode, batches) + rest == rest;
      AppendNothing(Parse(decode, rest));
    } else {
      var payload, more := encode(batches[0]), Chunks(encode, batches[1..]);
      WholeChunksParse(encode, decode, batches[1..], rest);
      OneChunkParses(decode, payload, more + rest);
      assert Chunks(encode, batches) + rest == Chunk(payload) + (more + rest);
      AppendTwice([batches[0]], batches[1..], Parse(decode, rest));
      assert [batches[0]] + batches[1..] == batches;
    }
  }

  /** Reading back a recording yields the batches that were appended. */
  lemma RecordingReadsBack(encode: Encoder, decode: Decoder, batches: seq<FrameBatch>)
    requires Framable(encode, batches) && RoundTrips(encode, decode, batches)
    ensures Read(decode, Recording(encode, batches)) == Success(batches)
  {
    WholeChunksParse(encode, decode, batches, []);
    assert Chunks(encode, batches) + [] == Chunks(encode, batches);
    assert Recording(encode, batches)[..8] == Magic() && Recording(encode, batches)[8..] == Chunks(encode, batches);
    assert batches + [] == batches;
  }

  /** A chunk that ends early is refused, wherever it ends. */
  lemma TornChunkIsRefused(decode: Decoder, payload: seq<Byte>, m: nat)
    requires |payload| < MAX_PAYLOAD && 0 < m < |Chunk(payload)|
    ensures Parse(decode, Chunk(payload)[..m]).Failure?
  {
    var torn := Chunk(payload)[..m];
    if m >= 4 {
      assert torn[..4] == LengthPrefix(|payload|);
      PrefixReadsBack(|payload|);
    }
  }

  ghost predicate Torn(torn: seq<Byte>, payload: seq<Byte>)
    requires |payload| < MAX_PAYLOAD
  {
    0 < |torn| < |Chunk(payload)| && torn == Chunk(payload)[..|torn|]
  }

  /** A cut leaves whole chunks and possibly a torn one. */
  lemma {:induction false} CutSplits(encode: Encoder, batches: seq<FrameBatch>, m: nat) returns (k: nat, torn: seq<Byte>)
    requires Framable(encode, batches) && m <= |Chunks(encode, batches)|
    ensures k <= |batches| && Chunks(encode, batches)[..m] == Chunks(encode, batches[..k]) + torn
    ensures torn != [] ==> k < |batches| && Torn(torn, encode(batches[k]))
  {
    if batches == [] {
      k, torn := 0, [];
    } else {
      var first, rest := Chunk(encode(batches[0])), Chunks(encode, batches[1..]);
      var all := Chunks(encode, batches);
      assert all == first + rest;
      if m < |first| {
        k, torn := 0, first[..m];
        assert batches[..0] == [] && all[..m] == first[..m];
      } else {
        k, torn := CutSplits(encode, batches[1..], m - |first|);
        assert all[..m] == first + rest[..m - |first|];
        assert batches[..k + 1][1..] == batches[1..][..k];
        assert first + (Chunks(encode, batches[1..][..k]) + torn) == (first + Chunks(encode, batches[1..][..k])) + torn;
        k := k + 1;
      }
    }
  }

  lemma {:induction false} ChunksOfAPrefix(encode: Encoder, batches: seq<FrameBatch>, k: nat)
    requires Framable(encode, batches) && k <= |batches|
    ensures Chunks(encode, batches[..k]) <= Chunks(encode, batches)
  {
    if k > 0 {
      ChunksOfAPrefix(encode, batches[1..], k - 1);
      assert batches[..k][1..] == batches[1..][..k - 1];
    }
  }

  /** What a cut file holds, and how it reads. */
  lemma CutFileReads(encode: Encoder, decode: Decoder, batches: seq<FrameBatch>, m: nat) returns (k: nat, torn: seq<Byte>)
    requires Framable(encode, batches) && RoundTrips(encode, decode, batches) && m <= |Chunks(encode, batches)|
    ensures k <= |batches| && Chunks(encode, batches)[..m] == Chunks(encode, batches[..k]) + torn
    ensures Parse(decode, Chunks(encode, batches)[..m]).Success? ==> torn == []
  {
    k, torn := CutSplits(encode, batches, m);
    WholeChunksParse(encode, decode, batches[..k], torn);
    if torn != [] {
      TornChunkIsRefused(decode, encode(batches[k]), |torn|);
    }
  }

  /** Byte n is where the k-th chunk ends. */
  ghost predicate Boundary(encode: Encoder, batches: seq<FrameBatch>, k: nat, n: nat)
    requires Framable(encode, batches)
  {
    k <= |batches| && n == |Recording(encode, batches[..k])|
  }

  lemma BoundaryReads(encode: Encoder, decode: Decoder, batches: seq<FrameBatch>, k: nat, n: nat)
    requires Framable(encode, batches) && RoundTrips(encode, decode, batches) && Boundary(encode, batches, k, n)
    ensures n <= |Recording(encode, batches)| && Read(decode, Recording(encode, batches)[..n]) == Success(batches[..k])
  {
    ChunksOfAPrefix(encode, batches, k);
    assert Recording(encode, batches)[..n] == Recording(encode, batches[..k]);
    RecordingReadsBack(encode, decode, batches[..k]);
  }

  lemma ReadableCutIsABoundary(encode: Encoder, decode: Decoder, batches: seq<FrameBatch>, n: nat) returns (k: nat)
    requires Framable(encode, batches) && RoundTrips(encode, decode, batches) && n <= |Recording(encode, batches)|
    requires Read(decode, Recording(encode, batches)[..n]).Success?
    ensures Boundary(encode, batches, k, n)
  {
    var torn: seq<Byte>;
    var file := Recording(encode, batches);
    assert file[..n][8..] == Chunks(encode, batches)[..n - 8];
    k, torn := CutFileReads(encode, decode, batches, n - 8);
  }

  /** A recording cut at byte n reads back as the batches before the cut when that is a chunk
      boundary, and is refused otherwise. */
  lemma TruncationIsAPrefixOrRefused(encode: Encoder, decode: Decoder, batches: seq<FrameBatch>, n: nat)
    requires Framable(encode, batches) && RoundTrips(encode, decode, batches) && n <= |Recording(encode, batches)|
    ensures Read(decode, Recording(encode, batches)[..n]).Success? <==> exists k: nat :: Boundary(encode, batches, k, n)
    ensures forall k: nat :: Boundary(encode, batches, k, n) ==> Read(decode, Recording(encode, batches)[..n]) == Success(batches[..k])
  {
    forall k: nat | Boundary(encode, batches, k, n)
      ensures Read(decode, Recording(encode, batches)[..n]) == Success(batches[..k])
    {
      BoundaryReads(encode, decode, batches, k, n);
    }
    if Read(decode, Recording(encode, batches)[..n]).Success? {
      var k := ReadableCutIsABoundary(encode, decode, batches, n);
    }
  }

  // ----- what reads at all --------------------------------------------------

  function ChunksOf(payloads: seq<seq<Byte>>): seq<Byte>
    requires forall i :: 0 <= i < |payloads| ==> |payloads[i]| < MAX_PAYLOAD
  {
    if payloads == [] then [] else Chunk(payloads[0]) + ChunksOf(payloads[1..])
  }

  /** The payloads decode to the batches, one by one. */
  ghost predicate DecodeTo(decode: Decoder, payloads: seq<seq<Byte>>, batches: seq<FrameBatch>) {
    && |payloads| == |batches|
    && forall i :: 0 <= i < |payloads| ==> |payloads[i]| < MAX_PAYLOAD && decode(payloads[i]) == Some(batches[i])
  }

  /** The bytes are whole chunks of payloads that decode to the batches. */
  ghost predicate Spells(decode: Decoder, rest: seq<Byte>, batches: seq<FrameBatch>) {
    exists payloads :: DecodeTo(decode, payloads, batches) && rest == ChunksOf(payloads)
  }

  /** A length prefix is the only one of its length. */
  lemma PrefixIsItsLength(p: seq<Byte>)
    requires |p| == 4
    ensures FromBytesBig(p) < MAX_PAYLOAD && LengthPrefix(FromBytesBig(p)) == p
  {
    FourBigBytes(p);
    var a: nat, b: nat, c: nat, d: nat := p[0], p[1], p[2], p[3];
    var n := FromBytesBig(p);
    LastByte((a * 256 + b) * 256 + c, d);
    LastByte(a * 256 + b, c);
    LastByte(a, b);
    ShiftedTwice(n);
    assert LengthPrefix(n) == [a, b, c, d] == p;
  }

  lemma LastByte(high: nat, low: nat)
    requires low < 256
    ensures (high * 256 + low) / 256 == high && (high * 256 + low) % 256 == low
  {
  }

  lemma ShiftedTwice(n: nat)
    ensures n / 0x1_0000 == n / 256 / 256 && n / 0x100_0000 == n / 256 / 256 / 256
  {
  }

  lemma {:induction false} ParsedBytesAreChunks(decode: Decoder, rest: seq<Byte>) returns (payloads: seq<seq<Byte>>)
    requires Parse(decode, rest).Success?
    ensures DecodeTo(decode, payloads, Parse(decode, rest).value) && rest == ChunksOf(payloads)
    decreases |rest|
  {
    payloads := [];
    if rest != [] {
      var length := FromBytesBig(rest[..4]);
      var payload, later := rest[4..4 + length], rest[4 + length..];
      var more := ParsedBytesAreChunks(decode, later);
      PrefixIsItsLength(rest[..4]);
      payloads := OneMorePayload(decode, payload, more, Parse(decode, later).value);
      assert rest == (rest[..4] + payload) + later;
    }
  }

  lemma OneMorePayload(decode: Decoder, payload: seq<Byte>, more: seq<seq<Byte>>, batches: seq<FrameBatch>)
    returns (payloads: seq<seq<Byte>>)
    requires DecodeTo(decode, more, batches) && |payload| < MAX_PAYLOAD && decode(payload).Some?
    ensures DecodeTo(decode, payloads, [decode(payload).value] + batches) && ChunksOf(payloads) == Chunk(payload) + ChunksOf(more)
  {
    payloads := [payload] + more;
    assert payloads[1..] == more;
  }

  lemma {:induction false} ChunksParse(decode: Decoder, payloads: seq<seq<Byte>>, batches: seq<FrameBatch>)
    requires DecodeTo(decode, payloads, batches)
    ensures Parse(decode, ChunksOf(payloads)) == Success(batches)
  {
    if payloads != [] {
      ChunksParse(decode, payloads[1..], batches[1..]);
      OneChunkParses(decode, payloads[0], ChunksOf(payloads[1..]));
      assert [batches[0]] + batches[1..] == batches;
    }
  }

  /** A file reads as these batches exactly when it is the text CANXMSG1 and then, to the last byte,
      length-prefixed payloads that decode to them. */
  lemma ReadsExactly(decode: Decoder, file: seq<Byte>, batches: seq<FrameBatch>)
    ensures Read(decode, file) == Success(batches) <==>
              && |file| >= 8 && (forall i :: 0 <= i < 8 ==> file[i] == "CANXMSG1"[i] as int)
              && Spells(decode, file[8..], batches)
  {
    if |file| >= 8 {
      MagicIsItsText(file[..8]);
      if Read(decode, file).Success? {
        var payloads := ParsedBytesAreChunks(decode, file[8..]);
        assert Spells(decode, file[8..], Read(decode, file).value);
      }
      if Spells(decode, file[8..], batches) {
        var payloads :| DecodeTo(decode, payloads, batches) && file[8..] == ChunksOf(payloads);
        ChunksParse(decode, payloads, batches);
      }
    }
  }

  lemma MagicIsItsText(start: seq<Byte>)
    requires |start| == 8
    ensures start == Magic() <==> forall i :: 0 <= i < 8 ==> start[i] == "CANXMSG1"[i] as int
  {
    assert forall i :: 0 <= i < 8 ==> Magic()[i] == "CANXMSG1"[i] as int;
  }
}
