/** The compiled extraction recipe of one signal (runtime/canx/dbc/decode.py): a byte window,
    a right shift and a mask. Proved to read exactly the bits of module SignalLayout. */
module SignalPlan {
  import opened Wrappers
  import opened BitArithmetic
  import opened Bitwise
  import opened DbcModel
  import opened SignalLayout

  datatype Plan = Plan(
    signal: Signal,
    choices: map<int, string>,
    multiplexerIds: Option<set<nat>>,
    bigEndian: bool,
    byteStart: nat,
    byteCount: nat,
    shift: nat,
    mask: nat,
    signBit: nat)

  /** dict comprehension over the declared choices: a later entry replaces an earlier one. */
  function ChoiceTable(choices: seq<Choice>): map<int, string> {
    if choices == [] then map[]
    else
      var last := choices[|choices| - 1];
      ChoiceTable(choices[..|choices| - 1])[last.value := last.text]
  }

  function CompileSignal(s: Signal, lengthBits: nat): Option<Plan>
    requires s.length >= 1
  {
    if s.length > lengthBits then None
    else if s.byteOrder.LittleEndian? && s.startBit + s.length > lengthBits then None
    else
      var networkStart := 8 * (s.startBit / 8) + (7 - s.startBit % 8);
      if s.byteOrder.BigEndian? && networkStart + s.length > lengthBits then None
      else
        var (byteStart, byteCount, shift) :=
          if s.byteOrder.LittleEndian? then
            (s.startBit / 8, (s.startBit % 8 + s.length + 7) / 8, s.startBit % 8)
          else
            var first := networkStart / 8;
            var count := (networkStart + s.length - 1) / 8 - first + 1;
            (first, count, count * 8 - (networkStart - first * 8) - s.length);
        if shift < 0 then None
        else
          Some(Plan(
            s,
            ChoiceTable(s.choices),
            if s.multiplexerIds.None? then None else Some(set i | i in s.multiplexerIds.value),
            s.byteOrder.BigEndian?,
            byteStart,
            byteCount,
            shift,
            Pow2(s.length) - 1,
            if s.isSigned then Pow2(s.length - 1) else 0))
  }

  /** A slice that clamps its bounds to the data, as Python's does. */
  function Window(data: seq<Byte>, start: nat, count: nat): seq<Byte> {
    if start >= |data| then []
    else if start + count >= |data| then data[start..]
    else data[start..start + count]
  }

  function RawValue(p: Plan, data: seq<Byte>): int {
    var window := Window(data, p.byteStart, p.byteCount);
    var number := if p.bigEndian then FromBytesBig(window) else FromBytesLittle(window);
    var value := And(ShiftRight(number, p.shift), p.mask);
    if p.signBit != 0 && And(value, p.signBit) != 0 then value - (p.mask + 1) else value
  }

  // ----- masks -------------------------------------------------------------

  lemma {:induction false} AndLowMask(a: nat, n: nat)
    ensures And(a, Pow2(n) - 1) == a % Pow2(n)
    decreases n
  {
    if n == 0 {
    } else if a == 0 {
    } else {
      AndLowMask(a / 2, n - 1);
      assert (Pow2(n) - 1) / 2 == Pow2(n - 1) - 1 && (Pow2(n) - 1) % 2 == 1;
      RemainderFromHalf(a, Pow2(n - 1));
    }
  }

  lemma RemainderFromHalf(a: nat, d: nat)
    requires d > 0
    ensures a % (2 * d) == a % 2 + 2 * (a / 2 % d)
  {
    var h, r := a / 2, a % 2;
    assert h == (h / d) * d + h % d;
    assert a == (h / d) * (2 * d) + (r + 2 * (h % d)) by {
      Associate(h / d, 2, d);
      Associate(h / d, d, 2);
    }
    DivisionIsUnique(a, 2 * d, h / d, r + 2 * (h % d));
  }

  lemma {:induction false} AndSingleBit(a: nat, n: nat)
    ensures And(a, Pow2(n)) == Pow2(n) * Bit(a, n)
    decreases n
  {
    if a == 0 {
      DivisionIsUnique(0, Pow2(n), 0, 0);
    } else if n == 0 {
      assert And(a / 2, 1 / 2) == 0;
    } else {
      AndSingleBit(a / 2, n - 1);
      DivideTwice(a, 2, Pow2(n - 1));
      assert Bit(a / 2, n - 1) == Bit(a, n);
      assert Pow2(n) / 2 == Pow2(n - 1) && Pow2(n) % 2 == 0;
      Associate(2, Pow2(n - 1), Bit(a, n));
    }
  }

  // ----- which signals compile ----------------------------------------------

  lemma IntelCompilesWhenItFits(s: Signal, byteCount: nat)
    requires s.length >= 1 && s.byteOrder.LittleEndian?
    ensures CompileSignal(s, 8 * byteCount).Some? <==> Fits(s, byteCount)
  {
    if Fits(s, byteCount) {
      assert PayloadBitOf(s, s.length - 1) / 8 < byteCount;
    }
  }

  lemma MotorolaBitByte(s: Signal, k: nat)
    requires s.length >= 1 && s.byteOrder.BigEndian? && k < s.length
    ensures PayloadBitOf(s, k) / 8 == (NetworkBit(s.startBit) + (s.length - 1 - k)) / 8
  {
    WalkInNetworkOrder(s.startBit, s.length - 1 - k);
    NetworkBitParts(NetworkBit(s.startBit) + (s.length - 1 - k));
  }

  lemma MotorolaFitsByItsLastBit(s: Signal, byteCount: nat)
    requires s.length >= 1 && s.byteOrder.BigEndian?
    ensures Fits(s, byteCount) <==> NetworkBit(s.startBit) + s.length <= 8 * byteCount
  {
    MotorolaBitByte(s, 0);
    if NetworkBit(s.startBit) + s.length <= 8 * byteCount {
      forall k | 0 <= k < s.length ensures PayloadBitOf(s, k) / 8 < byteCount {
        MotorolaBitByte(s, k);
      }
    } else {
      assert PayloadBitOf(s, 0) / 8 >= byteCount;
    }
  }

  /** A compiled plan exists exactly for the signals whose bits lie in the payload. */
  lemma CompilesExactlyWhenItFits(s: Signal, byteCount: nat)
    requires s.length >= 1
    ensures CompileSignal(s, 8 * byteCount).Some? <==> Fits(s, byteCount)
  {
    if s.byteOrder.LittleEndian? {
      IntelCompilesWhenItFits(s, byteCount);
    } else {
      MotorolaFitsByItsLastBit(s, byteCount);
    }
  }

  /** The window of a compiled signal lies in the declared payload, its shift is below a byte,
      and the window is no longer than the signal's bits need. */
  lemma PlanShape(s: Signal, byteCount: nat)
    requires s.length >= 1 && CompileSignal(s, 8 * byteCount).Some?
    ensures var p := CompileSignal(s, 8 * byteCount).value;
            && p.shift < 8
            && p.byteStart + p.byteCount <= byteCount
            && p.shift + s.length <= 8 * p.byteCount < p.shift + s.length + 8
  {
  }

  /** The refusal of a negative shift is dead: it changes no outcome. */
  lemma ShiftIsNeverNegative(s: Signal)
    requires s.length >= 1
    ensures var networkStart := 8 * (s.startBit / 8) + (7 - s.startBit % 8);
            var first := networkStart / 8;
            var count := (networkStart + s.length - 1) / 8 - first + 1;
            0 <= count * 8 - (networkStart - first * 8) - s.length < 8
  {
  }

  // ----- extraction ---------------------------------------------------------

  function WindowNumber(p: Plan, data: seq<Byte>): nat {
    var window := Window(data, p.byteStart, p.byteCount);
    if p.bigEndian then FromBytesBig(window) else FromBytesLittle(window)
  }

  lemma IntelWindowBit(s: Signal, byteCount: nat, k: nat)
    requires s.length >= 1 && CompileSignal(s, 8 * byteCount).Some?
    requires s.byteOrder.LittleEndian? && k < s.length
    ensures var p, b := CompileSignal(s, 8 * byteCount).value, PayloadBitOf(s, k);
            && b / 8 == p.byteStart + (p.shift + k) / 8
            && b % 8 == (p.shift + k) % 8
            && (p.shift + k) / 8 < p.byteCount
  {
  }

  /** Counting i positions from the front is counting 8 * total - 1 - i from the back. */
  lemma FromTheBack(total: nat, i: nat)
    requires i < 8 * total
    ensures (8 * total - 1 - i) / 8 == total - 1 - i / 8 && (8 * total - 1 - i) % 8 == 7 - i % 8
  {
  }

  /** Network position i, counted from the back of a window of `count` bytes from byte `start`. */
  lemma WindowPosition(i: nat, start: nat, count: nat, m: nat)
    requires 8 * start <= i && m == 8 * count - 1 - (i - 8 * start)
    ensures i / 8 == start + (count - 1 - m / 8) && 7 - i % 8 == m % 8 && m / 8 < count
  {
    var past := i - 8 * start;
    assert i / 8 == start + past / 8 && i % 8 == past % 8;
    FromTheBack(count, past);
  }

  lemma MotorolaShift(s: Signal, byteCount: nat)
    requires s.length >= 1 && CompileSignal(s, 8 * byteCount).Some? && s.byteOrder.BigEndian?
    ensures var p := CompileSignal(s, 8 * byteCount).value;
            8 * p.byteStart <= NetworkBit(s.startBit)
            && p.shift == 8 * p.byteCount - (NetworkBit(s.startBit) - 8 * p.byteStart) - s.length
  {
  }

  /** Where the bits of a Motorola signal lie in a window that starts at byte `start`. */
  lemma MotorolaBitInWindow(s: Signal, k: nat, start: nat, count: nat, shift: nat)
    requires s.byteOrder.BigEndian? && k < s.length && 8 * start <= NetworkBit(s.startBit)
    requires shift == 8 * count - (NetworkBit(s.startBit) - 8 * start) - s.length
    ensures PayloadBitOf(s, k) / 8 == start + (count - 1 - (shift + k) / 8)
    ensures PayloadBitOf(s, k) % 8 == (shift + k) % 8 && (shift + k) / 8 < count
  {
    var i := NetworkBit(s.startBit) + (s.length - 1 - k);
    WalkInNetworkOrder(s.startBit, s.length - 1 - k);
    NetworkBitParts(i);
    WindowPosition(i, start, count, shift + k);
  }

  lemma MotorolaWindowBit(s: Signal, byteCount: nat, k: nat)
    requires s.length >= 1 && CompileSignal(s, 8 * byteCount).Some?
    requires s.byteOrder.BigEndian? && k < s.length
    ensures var p, b := CompileSignal(s, 8 * byteCount).value, PayloadBitOf(s, k);
            && b / 8 == p.byteStart + (p.byteCount - 1 - (p.shift + k) / 8)
            && b % 8 == (p.shift + k) % 8
            && (p.shift + k) / 8 < p.byteCount
  {
    var p := CompileSignal(s, 8 * byteCount).value;
    MotorolaShift(s, byteCount);
    MotorolaBitInWindow(s, k, p.byteStart, p.byteCount, p.shift);
  }

  lemma MotorolaWindowReads(s: Signal, byteCount: nat, data: seq<Byte>, k: nat)
    requires s.length >= 1 && CompileSignal(s, 8 * byteCount).Some? && s.byteOrder.BigEndian?
    requires byteCount <= |data| && Fits(s, |data|) && k < s.length
    ensures var p := CompileSignal(s, 8 * byteCount).value;
            Bit(WindowNumber(p, data), p.shift + k) == BitValue(s, data, k)
  {
    var p := CompileSignal(s, 8 * byteCount).value;
    PlanShape(s, byteCount);
    MotorolaWindowBit(s, byteCount, k);
    BitOfBig(Window(data, p.byteStart, p.byteCount), p.shift + k);
  }

  lemma IntelWindowReads(s: Signal, byteCount: nat, data: seq<Byte>, k: nat)
    requires s.length >= 1 && CompileSignal(s, 8 * byteCount).Some? && s.byteOrder.LittleEndian?
    requires byteCount <= |data| && Fits(s, |data|) && k < s.length
    ensures var p := CompileSignal(s, 8 * byteCount).value;
            Bit(WindowNumber(p, data), p.shift + k) == BitValue(s, data, k)
  {
    var p := CompileSignal(s, 8 * byteCount).value;
    PlanShape(s, byteCount);
    IntelWindowBit(s, byteCount, k);
    BitOfLittle(Window(data, p.byteStart, p.byteCount), p.shift + k);
  }

  lemma WindowBit(s: Signal, byteCount: nat, data: seq<Byte>, k: nat)
    requires s.length >= 1 && CompileSignal(s, 8 * byteCount).Some?
    requires byteCount <= |data| && Fits(s, |data|) && k < s.length
    ensures var p := CompileSignal(s, 8 * byteCount).value;
            Bit(WindowNumber(p, data), p.shift + k) == BitValue(s, data, k)
  {
    if s.byteOrder.BigEndian? {
      MotorolaWindowReads(s, byteCount, data, k);
    } else {
      IntelWindowReads(s, byteCount, data, k);
    }
  }

  /** Shifting and masking a number reads off the weighted sum of its bits. */
  lemma {:induction false} FieldIsWeightedSum(s: Signal, data: seq<Byte>, number: nat, shift: nat, n: nat)
    requires Fits(s, |data|) && n <= s.length
    requires forall k :: 0 <= k < s.length ==> Bit(number, shift + k) == BitValue(s, data, k)
    ensures ShiftRight(number, shift) % Pow2(n) == WeightedSum(s, data, n)
  {
    if n > 0 {
      FieldIsWeightedSum(s, data, number, shift, n - 1);
      FieldStep(number, shift, n - 1);
    }
  }

  lemma FitsInMore(s: Signal, byteCount: nat, more: nat)
    requires Fits(s, byteCount) && byteCount <= more
    ensures Fits(s, more)
  {
  }

  /** The masked field, before any sign step, is the weighted sum of the signal's bits. */
  lemma MaskedFieldIsTheSum(s: Signal, byteCount: nat, data: seq<Byte>)
    requires s.length >= 1 && byteCount <= |data| && Fits(s, |data|)
    requires CompileSignal(s, 8 * byteCount).Some?
    ensures var p := CompileSignal(s, 8 * byteCount).value;
            And(ShiftRight(WindowNumber(p, data), p.shift), p.mask) == WeightedSum(s, data, s.length)
  {
    var p := CompileSignal(s, 8 * byteCount).value;
    AndLowMask(ShiftRight(WindowNumber(p, data), p.shift), s.length);
    forall k | 0 <= k < s.length ensures Bit(WindowNumber(p, data), p.shift + k) == BitValue(s, data, k) {
      WindowBit(s, byteCount, data, k);
    }
    FieldIsWeightedSum(s, data, WindowNumber(p, data), p.shift, s.length);
  }

  /** The sign step turns the plain sum into the two's-complement value. */
  lemma SignStep(s: Signal, data: seq<Byte>)
    requires s.length >= 1 && Fits(s, |data|) && s.isSigned
    ensures var sum, sign := WeightedSum(s, data, s.length), Pow2(s.length - 1);
            (if And(sum, sign) != 0 then sum - (Pow2(s.length) - 1 + 1) else sum) == SignalValue(s, data)
  {
    AndSingleBit(WeightedSum(s, data, s.length), s.length - 1);
    TopBit(s, data);
  }

  /** Window, shift and mask read exactly the signal's own bits, in both byte orders,
      signed or not, from any payload at least as long as the message declares. */
  lemma ExtractionReadsTheSignal(s: Signal, byteCount: nat, data: seq<Byte>)
    requires s.length >= 1 && byteCount <= |data|
    requires CompileSignal(s, 8 * byteCount).Some?
    ensures Fits(s, |data|)
    ensures RawValue(CompileSignal(s, 8 * byteCount).value, data) == SignalValue(s, data)
  {
    CompilesExactlyWhenItFits(s, byteCount);
    FitsInMore(s, byteCount, |data|);
    MaskedFieldIsTheSum(s, byteCount, data);
    if s.isSigned {
      SignStep(s, data);
    }
  }

  lemma TopDigit(low: nat, d: nat, top: nat)
    requires low < d && top < 2
    ensures (low + d * top) / d % 2 == top
  {
    Commute(d, top);
    DivisionIsUnique(low + d * top, d, top, low);
  }

  lemma TopBit(s: Signal, data: seq<Byte>)
    requires s.length >= 1 && Fits(s, |data|)
    ensures Bit(WeightedSum(s, data, s.length), s.length - 1) == BitValue(s, data, s.length - 1)
  {
    WeightedSumBound(s, data, s.length - 1);
    TopDigit(WeightedSum(s, data, s.length - 1), Pow2(s.length - 1), BitValue(s, data, s.length - 1));
  }

  // ----- choices ------------------------------------------------------------

  /** The label a direct scan of the declared choices finds for a raw value. */
  function ScanChoices(choices: seq<Choice>, raw: int): Option<string> {
    if choices == [] then None
    else if choices[0].value == raw then Some(choices[0].text)
    else ScanChoices(choices[1..], raw)
  }

  function Lookup<K, V>(table: map<K, V>, key: K): Option<V> {
    if key in table then Some(table[key]) else None
  }

  lemma {:induction false} ScanFinds(choices: seq<Choice>, raw: int)
    ensures ScanChoices(choices, raw).None? <==> forall i :: 0 <= i < |choices| ==> choices[i].value != raw
    ensures forall i :: 0 <= i < |choices| && choices[i].value == raw
              && (forall j :: 0 <= j < i ==> choices[j].value != raw)
              ==> ScanChoices(choices, raw) == Some(choices[i].text)
  {
    if choices != [] {
      ScanFinds(choices[1..], raw);
      if choices[0].value != raw {
        forall i | 0 <= i < |choices| && choices[i].value == raw && (forall j :: 0 <= j < i ==> choices[j].value != raw)
          ensures ScanChoices(choices, raw) == Some(choices[i].text)
        {
          assert choices[1..][i - 1] == choices[i];
          assert forall j :: 0 <= j < i - 1 ==> choices[1..][j] == choices[j + 1];
        }
        assert forall i :: 0 <= i < |choices| - 1 ==> choices[1..][i] == choices[i + 1];
      }
    }
  }

  /** With distinct choice values, the compiled table answers like the scan. */
  lemma {:induction false} TableMatchesScan(choices: seq<Choice>, raw: int)
    requires forall i, j :: 0 <= i < j < |choices| ==> choices[i].value != choices[j].value
    ensures Lookup(ChoiceTable(choices), raw) == ScanChoices(choices, raw)
  {
    if choices != [] {
      var n := |choices| - 1;
      TableMatchesScan(choices[..n], raw);
      ScanFinds(choices[..n], raw);
      ScanFinds(choices, raw);
      if choices[n].value != raw {
        if i :| 0 <= i < n && choices[i].value == raw {
          assert choices[..n][i] == choices[i];
          assert ScanChoices(choices[..n], raw) == Some(choices[i].text);
        } else {
          assert ScanChoices(choices[..n], raw).None?;
        }
      }
    }
  }
}
