/** Where the bits of a DBC signal lie in a payload, bit by bit, and the number they spell.
    This is the reference the compiled extraction (module SignalPlan) is proved against.

    Payload bit p is bit p % 8 of byte p / 8. An Intel signal occupies consecutive payload
    bits from its start bit upwards. A Motorola signal starts at its most significant bit and
    walks towards less significant bits: down to bit 0 of a byte, then on to bit 7 of the next. */
module SignalLayout {
  import opened BitArithmetic
  import opened DbcModel

  function NextMotorolaBit(p: nat): nat {
    if p % 8 == 0 then p + 15 else p - 1
  }

  function MotorolaWalk(start: nat, steps: nat): nat {
    if steps == 0 then start else NextMotorolaBit(MotorolaWalk(start, steps - 1))
  }

  /** The payload bit that carries weight 2^k of the signal. */
  function PayloadBitOf(s: Signal, k: nat): nat
    requires k < s.length
  {
    if s.byteOrder.LittleEndian? then s.startBit + k else MotorolaWalk(s.startBit, s.length - 1 - k)
  }

  /** Every bit of the signal lies in the first byteCount bytes. */
  predicate Fits(s: Signal, byteCount: nat) {
    forall k :: 0 <= k < s.length ==> PayloadBitOf(s, k) / 8 < byteCount
  }

  function BitValue(s: Signal, data: seq<Byte>, k: nat): (b: nat)
    requires k < s.length && Fits(s, |data|)
    ensures b < 2
  {
    var p := PayloadBitOf(s, k);
    Bit(data[p / 8], p % 8)
  }

  /** The weighted sum of the signal's n least significant bits. */
  function WeightedSum(s: Signal, data: seq<Byte>, n: nat): nat
    requires n <= s.length && Fits(s, |data|)
  {
    if n == 0 then 0 else WeightedSum(s, data, n - 1) + Pow2(n - 1) * BitValue(s, data, n - 1)
  }

  /** The signal's raw value: plain binary, or two's complement, where the top bit
      weighs -2^(length - 1). */
  function SignalValue(s: Signal, data: seq<Byte>): int
    requires s.length >= 1 && Fits(s, |data|)
  {
    if s.isSigned then
      WeightedSum(s, data, s.length - 1) - Pow2(s.length - 1) * BitValue(s, data, s.length - 1)
    else
      WeightedSum(s, data, s.length)
  }

  lemma {:induction false} WeightedSumBound(s: Signal, data: seq<Byte>, n: nat)
    requires n <= s.length && Fits(s, |data|)
    ensures WeightedSum(s, data, n) < Pow2(n)
  {
    if n > 0 {
      WeightedSumBound(s, data, n - 1);
    }
  }

  /** An n-bit signal ranges over [-2^(n-1), 2^(n-1)) when signed, over [0, 2^n) otherwise. */
  lemma SignalValueRange(s: Signal, data: seq<Byte>)
    requires s.length >= 1 && Fits(s, |data|)
    ensures var half: int := Pow2(s.length - 1);
            s.isSigned ==> -half <= SignalValue(s, data) < half
    ensures !s.isSigned ==> 0 <= SignalValue(s, data) < Pow2(s.length)
  {
    WeightedSumBound(s, data, s.length - 1);
    WeightedSumBound(s, data, s.length);
  }

  /** Only the signal's own bits matter. */
  lemma {:induction false} ValueDependsOnOwnBits(s: Signal, a: seq<Byte>, b: seq<Byte>, n: nat)
    requires n <= s.length && Fits(s, |a|) && Fits(s, |b|)
    requires forall k :: 0 <= k < s.length ==> BitValue(s, a, k) == BitValue(s, b, k)
    ensures WeightedSum(s, a, n) == WeightedSum(s, b, n)
    ensures n == s.length >= 1 ==> SignalValue(s, a) == SignalValue(s, b)
  {
    if n > 0 {
      ValueDependsOnOwnBits(s, a, b, n - 1);
    }
  }

  /** Two payloads that agree on the declared bytes give the signal the same value. */
  lemma BytesPastTheLengthDoNotMatter(s: Signal, a: seq<Byte>, b: seq<Byte>, byteCount: nat)
    requires s.length >= 1 && Fits(s, byteCount)
    requires byteCount <= |a| && byteCount <= |b| && a[..byteCount] == b[..byteCount]
    ensures SignalValue(s, a) == SignalValue(s, b)
  {
    forall k | 0 <= k < s.length
      ensures BitValue(s, a, k) == BitValue(s, b, k)
    {
      var p := PayloadBitOf(s, k);
      assert a[..byteCount][p / 8] == b[..byteCount][p / 8];
    }
    ValueDependsOnOwnBits(s, a, b, s.length);
  }

  /** The bit at position n of the payload when each byte is numbered from its bit 7 downwards; and
      the other way round, for the renumbering is its own inverse. */
  function NetworkBit(n: nat): nat {
    8 * (n / 8) + (7 - n % 8)
  }

  lemma NetworkBitParts(n: nat)
    ensures NetworkBit(n) / 8 == n / 8 && NetworkBit(n) % 8 == 7 - n % 8
  {
  }

  lemma NextNetworkBit(n: nat)
    ensures n % 8 < 7 ==> NetworkBit(n + 1) == NetworkBit(n) - 1
    ensures n % 8 == 7 ==> NetworkBit(n + 1) == NetworkBit(n) + 15
  {
    var q, r := n / 8, n % 8;
    assert n + 1 == 8 * q + (r + 1);
    if r < 7 {
      assert (n + 1) / 8 == q && (n + 1) % 8 == r + 1;
    } else {
      assert (n + 1) / 8 == q + 1 && (n + 1) % 8 == 0;
    }
  }

  /** The walk in network order simply counts up. */
  lemma {:induction false} WalkInNetworkOrder(start: nat, steps: nat)
    ensures MotorolaWalk(start, steps) == NetworkBit(NetworkBit(start) + steps)
  {
    if steps == 0 {
      NetworkBitParts(start);
      NetworkBitParts(NetworkBit(start));
    } else {
      WalkInNetworkOrder(start, steps - 1);
      NextNetworkBit(NetworkBit(start) + steps - 1);
      NetworkBitParts(NetworkBit(start) + steps - 1);
    }
  }
}
