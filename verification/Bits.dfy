/** Bitwise operations on naturals, bit by bit. */
module Bits {
  import opened Words

  function Xor(a: nat, b: nat): nat {
    if a == 0 && b == 0 then 0 else (a % 2 + b % 2) % 2 + 2 * Xor(a / 2, b / 2)
  }

  function And(a: nat, b: nat): nat {
    if a == 0 && b == 0 then 0 else (a % 2) * (b % 2) + 2 * And(a / 2, b / 2)
  }

  function Or(a: nat, b: nat): nat {
    if a == 0 && b == 0 then 0
    else (if a % 2 == 1 || b % 2 == 1 then 1 else 0) + 2 * Or(a / 2, b / 2)
  }

  lemma {:induction false} XorBound(a: nat, b: nat, n: nat)
    requires a < Pow2(n) && b < Pow2(n)
    ensures Xor(a, b) < Pow2(n)
  {
    if n != 0 && (a != 0 || b != 0) {
      XorBound(a / 2, b / 2, n - 1);
    }
  }

  function XorByte(a: u8, b: u8): u8 {
    XorByteFits(a, b);
    Xor(a, b)
  }

  lemma XorByteFits(a: u8, b: u8)
    ensures Xor(a, b) < 0x100
  {
    assert Pow2(8) == 0x100;
    hide Xor, Pow2;
    XorBound(a, b, 8);
  }

  lemma {:induction false} XorZero(a: nat)
    ensures Xor(a, 0) == a
  {
    if a != 0 {
      XorZero(a / 2);
    }
  }

  lemma {:induction false} XorCommutes(a: nat, b: nat)
    ensures Xor(a, b) == Xor(b, a)
  {
    if a != 0 || b != 0 {
      XorCommutes(a / 2, b / 2);
    }
  }

  lemma XorParts(a: nat, b: nat)
    ensures Xor(a, b) / 2 == Xor(a / 2, b / 2)
    ensures Xor(a, b) % 2 == (a % 2 + b % 2) % 2
  {
  }

  lemma SameHalves(x: nat, y: nat)
    requires x / 2 == y / 2 && x % 2 == y % 2
    ensures x == y
  {
  }

  lemma ParityCancel(a: nat, b: nat)
    ensures ((a % 2 + b % 2) % 2 + b % 2) % 2 == a % 2
    ensures (b % 2 + (b % 2 + a % 2) % 2) % 2 == a % 2
  {
  }

  lemma CancelParity(a: nat, b: nat)
    ensures Xor(Xor(a, b), b) % 2 == a % 2
    ensures Xor(b, Xor(b, a)) % 2 == a % 2
  {
    hide Xor;
    ParityCancel(a, b);
    XorParts(a, b);
    XorParts(b, a);
    XorParts(Xor(a, b), b);
    XorParts(b, Xor(b, a));
  }

  /** Applying one mask twice undoes it. */
  lemma {:induction false} XorCancel(a: nat, b: nat)
    ensures Xor(Xor(a, b), b) == a
    ensures Xor(b, Xor(b, a)) == a
  {
    if a != 0 || b != 0 {
      hide Xor;
      XorCancel(a / 2, b / 2);
      CancelParity(a, b);
      XorParts(a, b);
      XorParts(b, a);
      XorParts(Xor(a, b), b);
      XorParts(b, Xor(b, a));
      SameHalves(Xor(Xor(a, b), b), a);
      SameHalves(Xor(b, Xor(b, a)), a);
    }
  }

  /** `a << n`, unbounded. */
  function ShiftLeft(a: nat, n: nat): nat {
    if n == 0 then a else 2 * ShiftLeft(a, n - 1)
  }

  lemma {:induction false} ShiftLeftIsProduct(a: nat, n: nat)
    ensures ShiftLeft(a, n) == Pow2(n) * a
  {
    if n != 0 {
      ShiftLeftIsProduct(a, n - 1);
      ScaleProduct(2, Pow2(n - 1), a);
    }
  }

  lemma {:induction false} XorShifted(lo: nat, hi: nat, n: nat)
    requires lo < Pow2(n)
    ensures Xor(lo, ShiftLeft(hi, n)) == lo + ShiftLeft(hi, n)
  {
    if n == 0 {
      XorZeroLeft(hi);
    } else {
      hide Xor;
      XorShifted(lo / 2, hi, n - 1);
      var x := ShiftLeft(hi, n);
      EvenSum(lo, ShiftLeft(hi, n - 1));
      XorParts(lo, x);
      SameHalves(Xor(lo, x), lo + x);
    }
  }

  lemma XorDisjoint(lo: nat, hi: nat, n: nat)
    requires lo < Pow2(n)
    ensures Xor(lo, Pow2(n) * hi) == lo + Pow2(n) * hi
  {
    hide Xor, Pow2, ShiftLeft;
    XorShifted(lo, hi, n);
    ShiftLeftIsProduct(hi, n);
  }

  lemma {:induction false} XorZeroLeft(a: nat)
    ensures Xor(0, a) == a
  {
    if a != 0 {
      XorZeroLeft(a / 2);
    }
  }

  lemma {:induction false} AndZero(b: nat)
    ensures And(0, b) == 0
  {
    if b != 0 {
      AndZero(b / 2);
    }
  }

  /** Masking with n ones keeps a number of n bits. */
  lemma {:induction false} AndOnes(b: nat, n: nat)
    requires b < Pow2(n)
    ensures And(Pow2(n) - 1, b) == b
  {
    if n != 0 {
      AndOnes(b / 2, n - 1);
      assert (Pow2(n) - 1) / 2 == Pow2(n - 1) - 1 && (Pow2(n) - 1) % 2 == 1;
    }
  }

  lemma OrParts(a: nat, b: nat)
    ensures Or(a, b) / 2 == Or(a / 2, b / 2)
    ensures Or(a, b) % 2 == if a % 2 == 1 || b % 2 == 1 then 1 else 0
  {
  }

  lemma {:induction false} OrShiftedLeft(lo: nat, hi: nat, n: nat)
    requires lo < Pow2(n)
    ensures Or(lo, ShiftLeft(hi, n)) == lo + ShiftLeft(hi, n)
    ensures Or(ShiftLeft(hi, n), lo) == lo + ShiftLeft(hi, n)
  {
    if n == 0 {
      OrZero(hi);
    } else {
      hide Or;
      OrShiftedLeft(lo / 2, hi, n - 1);
      var x := ShiftLeft(hi, n);
      EvenSum(lo, ShiftLeft(hi, n - 1));
      OrParts(lo, x);
      OrParts(x, lo);
      SameHalves(Or(lo, x), lo + x);
      SameHalves(Or(x, lo), lo + x);
    }
  }

  /** Operands with no common bits are joined by addition. */
  lemma OrDisjoint(lo: nat, hi: nat, n: nat)
    requires lo < Pow2(n)
    ensures Or(lo, Pow2(n) * hi) == lo + Pow2(n) * hi
    ensures Or(Pow2(n) * hi, lo) == lo + Pow2(n) * hi
  {
    hide Or, Pow2, ShiftLeft;
    OrShiftedLeft(lo, hi, n);
    ShiftLeftIsProduct(hi, n);
  }

  lemma EvenSum(a: nat, b: nat)
    ensures (a + 2 * b) / 2 == a / 2 + b && (a + 2 * b) % 2 == a % 2
    ensures 2 * b / 2 == b && 2 * b % 2 == 0
  {
  }

  lemma {:induction false} OrZero(a: nat)
    ensures Or(0, a) == a && Or(a, 0) == a
  {
    if a != 0 {
      OrZero(a / 2);
    }
  }

  lemma {:induction false} OrIsZero(a: nat, b: nat)
    ensures Or(a, b) == 0 <==> a == 0 && b == 0
  {
    if a != 0 || b != 0 {
      OrIsZero(a / 2, b / 2);
    }
  }

  /** `a >> k & 1` */
  predicate BitOf(a: nat, k: nat) {
    if k == 0 then a % 2 == 1 else BitOf(a / 2, k - 1)
  }

  lemma {:induction false} NoBits(k: nat)
    ensures !BitOf(0, k)
  {
    if k > 0 {
      NoBits(k - 1);
    }
  }

  lemma {:induction false} OrBit(a: nat, b: nat, k: nat)
    ensures BitOf(Or(a, b), k) <==> BitOf(a, k) || BitOf(b, k)
  {
    if a == 0 && b == 0 {
      NoBits(k);
    } else {
      OrParts(a, b);
      if k > 0 {
        hide Or;
        OrBit(a / 2, b / 2, k - 1);
      }
    }
  }

  lemma {:induction false} OrBound(a: nat, b: nat, n: nat)
    requires a < Pow2(n) && b < Pow2(n)
    ensures Or(a, b) < Pow2(n)
  {
    if n != 0 && (a != 0 || b != 0) {
      OrBound(a / 2, b / 2, n - 1);
    }
  }

  /** A mask of one bit has that bit and no other. */
  lemma {:induction false} MaskBit(k: nat, j: nat)
    ensures BitOf(Pow2(k), j) <==> j == k
  {
    if k == 0 {
      if j > 0 {
        NoBits(j - 1);
      }
    } else if j > 0 {
      MaskBit(k - 1, j - 1);
    }
  }

  /** Testing with a mask of one bit. */
  lemma {:induction false} AndMask(a: nat, k: nat)
    ensures And(a, Pow2(k)) != 0 <==> BitOf(a, k)
  {
    if k == 0 {
      AndZero(a / 2);
      AndZeroRight(a / 2);
    } else {
      AndMask(a / 2, k - 1);
    }
  }

  lemma {:induction false} AndZeroRight(a: nat)
    ensures And(a, 0) == 0
  {
    if a != 0 {
      AndZeroRight(a / 2);
    }
  }
}
