/** Integers modulo p = 2^255 - 19, as a congruence on all of Z. */
module ModP {
  import opened Words

  const P := 57896044618658097711785492504343953926634992332820282019728792003956564819949

  /** Bits in each limb of a field element. */
  const LIMB_BITS: seq<nat> := [51, 51, 51, 51, 51]

  /** p again, kept a symbol: statements about polynomials are decided without any 255-bit literal. */
  ghost const PRIME: int := Pow2(51 * |LIMB_BITS|) - 19

  ghost predicate Cong(a: int, b: int) {
    PRIME != 0 && a % PRIME == b % PRIME
  }

  lemma PrimeIsP()
    ensures PRIME == P
  {
    hide Pow2;
    Pow2Small();
    Pow2Product(12, 13, 0x1000, 0x2000);
    Pow2Product(13, 13, 0x2000, 0x2000);
    Pow2Product(25, 26, 0x200_0000, 0x400_0000);
    Pow2Product(51, 51, 0x8_0000_0000_0000, 0x8_0000_0000_0000);
    Pow2Product(102, 51, 0x40_0000_0000_0000_0000_0000_0000, 0x8_0000_0000_0000);
    Pow2Product(102, 153, 0x40_0000_0000_0000_0000_0000_0000, 0x200_0000_0000_0000_0000_0000_0000_0000_0000_0000);
  }

  /** Congruent numbers are those with one canonical residue. */
  lemma CongResidue(a: int, b: int)
    ensures Cong(a, b) <==> a % P == b % P
  {
    PrimeIsP();
  }

  lemma CongRefl(a: int)
    ensures Cong(a, a)
  {
    CongResidue(a, a);
  }

  lemma CongSym(a: int, b: int)
    requires Cong(a, b)
    ensures Cong(b, a)
  {
  }

  lemma CongTrans(a: int, b: int, c: int)
    requires Cong(a, b) && Cong(b, c)
    ensures Cong(a, c)
  {
  }

  lemma CongMultiple(a: int, b: int, k: int)
    requires a == b + k * P
    ensures Cong(a, b)
  {
    hide Cong;
    CongResidue(a, b);
  }

  lemma Difference(a: int, b: int) returns (k: int)
    requires Cong(a, b)
    ensures a == b + k * P
  {
    hide Cong;
    CongResidue(a, b);
    k := a / P - b / P;
  }

  lemma CongAdd(a: int, a': int, b: int, b': int)
    requires Cong(a, a') && Cong(b, b')
    ensures Cong(a + b, a' + b')
    ensures Cong(a - b, a' - b')
  {
    hide Cong;
    var k := Difference(a, a');
    var l := Difference(b, b');
    CongMultiple(a + b, a' + b', k + l);
    CongMultiple(a - b, a' - b', k - l);
  }

  lemma CongMul(a: int, a': int, b: int, b': int)
    requires Cong(a, a') && Cong(b, b')
    ensures Cong(a * b, a' * b')
  {
    hide Cong;
    var k := Difference(a, a');
    var l := Difference(b, b');
    calc {
      a * b;
      (a' + k * P) * (b' + l * P);
      a' * b' + (a' * l + k * b' + k * l * P) * P;
    }
    CongMultiple(a * b, a' * b', a' * l + k * b' + k * l * P);
  }

  lemma {:induction false} CongPow(a: int, b: int, e: nat)
    requires Cong(a, b)
    ensures Cong(Pow(a, e), Pow(b, e))
  {
    hide Cong;
    CongRefl(1);
    if e != 0 {
      CongPow(a, b, e - 1);
      CongMul(a, b, Pow(a, e - 1), Pow(b, e - 1));
    }
  }
}
