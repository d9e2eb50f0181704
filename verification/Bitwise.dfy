/** The `&` operator on naturals, and what it means bit by bit. */
module Bitwise {
  import opened BitArithmetic

  /** Bitwise conjunction of two naturals. */
  function And(a: nat, b: nat): nat {
    if a == 0 || b == 0 then 0 else a % 2 * (b % 2) + 2 * And(a / 2, b / 2)
  }

  lemma BitOfHalf(n: nat, k: nat)
    ensures Bit(n, 0) == n % 2
    ensures Bit(n, k + 1) == Bit(n / 2, k)
  {
    assert Pow2(0) == 1 && Pow2(1) == 2;
    assert n / 1 == n;
    ShiftTwice(n, 1, k);
    assert ShiftRight(n, 1) == n / 2;
  }

  lemma ProductOfBits(p: nat, q: nat)
    requires p < 2 && q < 2
    ensures p * q == if p == 1 && q == 1 then 1 else 0
  {
  }

  lemma OneStepOfAnd(a: nat, b: nat)
    ensures And(a, b) % 2 == a % 2 * (b % 2)
    ensures And(a, b) / 2 == And(a / 2, b / 2)
  {
    ProductOfBits(a % 2, b % 2);
    if a != 0 && b != 0 {
      DivisionIsUnique(And(a, b), 2, And(a / 2, b / 2), a % 2 * (b % 2));
    }
  }

  /** Each bit of the conjunction is the product of the operands' bits. */
  lemma {:induction false} AndBitByBit(a: nat, b: nat, k: nat)
    ensures Bit(And(a, b), k) == Bit(a, k) * Bit(b, k)
    decreases k
  {
    OneStepOfAnd(a, b);
    var j := if k > 0 then k - 1 else 0;
    BitOfHalf(And(a, b), j);
    BitOfHalf(a, j);
    BitOfHalf(b, j);
    if k > 0 {
      AndBitByBit(a / 2, b / 2, k - 1);
    }
  }

  /** Numbers with the same bits are the same. */
  lemma {:induction false} BitsDetermineTheNumber(a: nat, b: nat)
    requires forall k: nat :: Bit(a, k) == Bit(b, k)
    ensures a == b
    decreases a + b
  {
    BitOfHalf(a, 0);
    BitOfHalf(b, 0);
    assert Bit(a, 0) == Bit(b, 0);
    if a != 0 || b != 0 {
      forall k: nat ensures Bit(a / 2, k) == Bit(b / 2, k) {
        BitOfHalf(a, k);
        BitOfHalf(b, k);
        assert Bit(a, k + 1) == Bit(b, k + 1);
      }
      BitsDetermineTheNumber(a / 2, b / 2);
    }
  }

  /** Two numbers agree under a mask exactly when they agree on every bit set in it. */
  lemma AgreeUnderAMask(a: nat, b: nat, mask: nat)
    ensures And(a, mask) == And(b, mask) <==> forall k: nat :: Bit(mask, k) == 1 ==> Bit(a, k) == Bit(b, k)
  {
    if And(a, mask) == And(b, mask) {
      forall k: nat | Bit(mask, k) == 1 ensures Bit(a, k) == Bit(b, k) {
        AndBitByBit(a, mask, k);
        AndBitByBit(b, mask, k);
      }
    }
    if forall k: nat :: Bit(mask, k) == 1 ==> Bit(a, k) == Bit(b, k) {
      forall k: nat ensures Bit(And(a, mask), k) == Bit(And(b, mask), k) {
        AndBitByBit(a, mask, k);
        AndBitByBit(b, mask, k);
        assert Bit(mask, k) == 0 || Bit(mask, k) == 1;
      }
      BitsDetermineTheNumber(And(a, mask), And(b, mask));
    }
  }
}
