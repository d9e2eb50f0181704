/** Powers of two, single bits of a natural number, and numbers read from bytes.
    A right shift by k is a division by Pow2(k); a mask of n ones is a remainder modulo Pow2(n). */
module BitArithmetic {

  type Byte = b: nat | b < 256

  function Pow2(n: nat): (p: nat)
    ensures p >= 1
  {
    if n == 0 then 1 else 2 * Pow2(n - 1)
  }

  function ShiftRight(n: nat, k: nat): nat {
    QuotientIsNatural(n, Pow2(k));
    n / Pow2(k)
  }

  /** The bit of weight 2^k in n. */
  function Bit(n: nat, k: nat): (b: nat)
    ensures b < 2
  {
    ShiftRight(n, k) % 2
  }

  /** The number whose base-256 digits are w, least significant first. */
  function FromBytesLittle(w: seq<Byte>): nat {
    if w == [] then 0 else w[0] + 256 * FromBytesLittle(w[1..])
  }

  /** The number whose base-256 digits are w, most significant first. */
  function FromBytesBig(w: seq<Byte>): nat {
    if w == [] then 0 else FromBytesBig(w[..|w| - 1]) * 256 + w[|w| - 1]
  }

  // ----- division lemmas ---------------------------------------------------

  lemma ProductBounds(x: int, d: int)
    requires d > 0
    ensures x >= 1 ==> x * d >= d
    ensures x <= -1 ==> x * d <= -d
  {
  }

  lemma Distribute(x: int, y: int, d: int)
    ensures (x + y) * d == x * d + y * d
  {
  }

  lemma Associate(a: int, b: int, c: int)
    ensures a * b * c == a * (b * c)
  {
  }

  lemma Commute(a: int, b: int)
    ensures a * b == b * a
  {
  }

  lemma Split(n: int, d: int)
    requires d > 0
    ensures n == n / d * d + n % d && 0 <= n % d < d
  {
  }

  lemma QuotientIsNatural(n: nat, d: nat)
    requires d > 0
    ensures n / d >= 0
  {
    var q, r := n / d, n % d;
    Split(n, d);
    ProductBounds(q, d);
  }

  lemma DivisionIsUnique(n: int, d: int, q: int, r: int)
    requires d > 0 && 0 <= r < d && n == q * d + r
    ensures n / d == q && n % d == r
  {
    var q', r' := n / d, n % d;
    Split(n, d);
    Distribute(q, -q', d);
    Negate(q', d);
    ProductBounds(q - q', d);
  }

  lemma Negate(x: int, d: int)
    ensures -x * d == -(x * d)
  {
  }

  /** (q * b + r) * a, with the product q * (a * b) split off. */
  lemma Regroup(q: int, b: int, r: int, a: int)
    ensures (q * b + r) * a == q * (a * b) + r * a
  {
    Distribute(q * b, r, a);
    Associate(q, b, a);
    Commute(a, b);
  }

  lemma PositiveProduct(a: int, b: int)
    requires a > 0 && b > 0
    ensures a * b > 0
  {
    ProductBounds(a, b);
  }

  /** A remainder in two digits is still a remainder. */
  lemma TwoDigitRemainder(r2: int, b: int, r: int, a: int)
    requires 0 <= r2 < b && 0 <= r < a
    ensures 0 <= r2 * a + r < a * b
  {
    Distribute(b - r2, r2, a);
    ProductBounds(b - r2, a);
    ProductBounds(r2, a);
    Commute(a, b);
  }

  lemma DivideTwice(n: nat, a: nat, b: nat)
    requires a > 0 && b > 0
    ensures a * b > 0 && n / (a * b) == n / a / b
  {
    var q, r := n / a, n % a;
    var q2, r2 := q / b, q % b;
    Split(n, a);
    Split(q, b);
    Regroup(q2, b, r2, a);
    TwoDigitRemainder(r2, b, r, a);
    PositiveProduct(a, b);
    DivisionIsUnique(n, a * b, q2, r2 * a + r);
  }

  lemma SplitRemainder(n: nat, a: nat)
    requires a > 0
    ensures n % (2 * a) == n % a + a * (n / a % 2)
  {
    var q, r := n / a, n % a;
    var q2, r2 := q / 2, q % 2;
    Split(n, a);
    Split(q, 2);
    Regroup(q2, 2, r2, a);
    TwoDigitRemainder(r2, 2, r, a);
    Commute(a, r2);
    Commute(a, 2);
    DivisionIsUnique(n, 2 * a, q2, r2 * a + r);
  }

  lemma {:induction false} Pow2Sum(a: nat, b: nat)
    ensures Pow2(a + b) == Pow2(a) * Pow2(b)
  {
    if a > 0 {
      Pow2Sum(a - 1, b);
      assert 2 * (Pow2(a - 1) * Pow2(b)) == (2 * Pow2(a - 1)) * Pow2(b);
    }
  }

  lemma ShiftTwice(n: nat, s: nat, k: nat)
    ensures ShiftRight(ShiftRight(n, s), k) == ShiftRight(n, s + k)
  {
    Pow2Sum(s, k);
    DivideTwice(n, Pow2(s), Pow2(k));
  }

  // ----- bits of byte strings ----------------------------------------------

  /** Adding a multiple of 2 * d leaves the bit of weight d alone. */
  lemma EvenMultipleKeepsParity(low: nat, d: nat, c: nat)
    requires d > 0
    ensures (low + d * (2 * c)) / d % 2 == low / d % 2
  {
    var q, r := low / d, low % d;
    assert low + d * (2 * c) == (q + 2 * c) * d + r by {
      assert low == q * d + r;
    }
    DivisionIsUnique(low + d * (2 * c), d, q + 2 * c, r);
  }

  lemma HighPartOfByte(rest: nat, k: nat)
    requires k < 8
    ensures 256 * rest == Pow2(k) * (2 * (Pow2(7 - k) * rest))
  {
    Pow2Sum(k, 8 - k);
    assert Pow2(8) == 256;
    assert Pow2(8 - k) == 2 * Pow2(7 - k);
    Associate(Pow2(k), 2 * Pow2(7 - k), rest);
    Associate(2, Pow2(7 - k), rest);
  }

  lemma BitOfLowByte(low: Byte, rest: nat, k: nat)
    ensures Bit(low + 256 * rest, k) == if k < 8 then Bit(low, k) else Bit(rest, k - 8)
  {
    if k < 8 {
      HighPartOfByte(rest, k);
      EvenMultipleKeepsParity(low, Pow2(k), Pow2(7 - k) * rest);
    } else {
      assert Pow2(8) == 256;
      ShiftTwice(low + 256 * rest, 8, k - 8);
      DivisionIsUnique(low + 256 * rest, 256, rest, low);
    }
  }

  lemma {:induction false} BitOfLittle(w: seq<Byte>, k: nat)
    requires k < 8 * |w|
    ensures Bit(FromBytesLittle(w), k) == Bit(w[k / 8], k % 8)
  {
    BitOfLowByte(w[0], FromBytesLittle(w[1..]), k);
    if k >= 8 {
      BitOfLittle(w[1..], k - 8);
      assert w[1..][(k - 8) / 8] == w[k / 8];
    }
  }

  lemma {:induction false} BitOfBig(w: seq<Byte>, k: nat)
    requires k < 8 * |w|
    ensures Bit(FromBytesBig(w), k) == Bit(w[|w| - 1 - k / 8], k % 8)
  {
    var front := w[..|w| - 1];
    BitOfLowByte(w[|w| - 1], FromBytesBig(front), k);
    if k >= 8 {
      BitOfBig(front, k - 8);
      assert front[|front| - 1 - (k - 8) / 8] == w[|w| - 1 - k / 8];
    }
  }

  /** Shifting and masking reads one more bit per mask bit. */
  lemma FieldStep(n: nat, s: nat, k: nat)
    ensures ShiftRight(n, s) % Pow2(k + 1) == ShiftRight(n, s) % Pow2(k) + Pow2(k) * Bit(n, s + k)
  {
    var m, a := ShiftRight(n, s), Pow2(k);
    SplitRemainder(m, a);
    ShiftTwice(n, s, k);
    assert Pow2(k + 1) == 2 * a;
  }
}
