/** Decimal numerals as they are printed. */
module Numerals {
  import opened Words

  /** `%u` */
  function Digits(v: nat): bytes {
    if v < 10 then [0x30 + v] else Digits(v / 10) + [0x30 + v % 10]
  }

  lemma {:induction false} DigitsOk(v: nat, n: nat)
    requires n > 0 && v < Pow(10, n)
    ensures 1 <= |Digits(v)| <= n
    ensures forall i :: 0 <= i < |Digits(v)| ==> 0x30 <= Digits(v)[i] <= 0x39
  {
    if v >= 10 {
      DigitsOk(v / 10, n - 1);
    }
  }
}
