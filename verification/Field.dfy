/** GF(2^255 - 19) in five lazily reduced 51-bit limbs, updated in place. */
module Field {
  import opened Words
  import opened ModP

  const TWO51 := 0x8_0000_0000_0000
  const TWO54 := 0x40_0000_0000_0000
  const TWO102 := 5070602400912917605986812821504
  const TWO153 := 11417981541647679048466287755595961091061972992
  const TWO204 := 25711008708143844408671393477458601640355247900524685364822016
  const TWO255 := 57896044618658097711785492504343953926634992332820282019728792003956564819968

  ghost function Limbs(a: int, b: int, c: int, d: int, e: int): int {
    a + TWO51 * b + TWO102 * c + TWO153 * d + TWO204 * e
  }

  /** The integer a limb array denotes. */
  ghost function Val(h: array<u64>): int
    reads h
    requires h.Length == 5
  {
    Limbs(h[0], h[1], h[2], h[3], h[4])
  }

  /** Every limb is at most `bound`. */
  ghost predicate Within(h: array<u64>, bound: int)
    reads h
    requires h.Length == 5
  {
    forall i :: 0 <= i < 5 ==> h[i] <= bound
  }

  /** What `FeMul` and `FeCarry` leave behind: no limb exceeds 2^51. */
  ghost predicate Reduced(h: array<u64>)
    reads h
    requires h.Length == 5
  {
    Within(h, TWO51)
  }

  method FeAdd(h: array<u64>, f: array<u64>, g: array<u64>)
    requires h.Length == f.Length == g.Length == 5
    requires Within(f, TWO54 - 1) && Within(g, TWO54 - 1)
    modifies h
    ensures Val(h) == old(Val(f)) + old(Val(g))
    ensures Within(h, 2 * TWO54 - 2)
    ensures old(Reduced(f)) && old(Reduced(g)) ==> Within(h, 2 * TWO51)
  {
    for i := 0 to 5
      invariant forall k :: 0 <= k < i ==> h[k] == old(f[k]) + old(g[k])
      invariant forall k :: i <= k < 5 ==> h[k] == old(h[k]) && f[k] == old(f[k]) && g[k] == old(g[k])
    {
      h[i] := f[i] + g[i];
    }
  }

  /** The limbs of 2p. */
  function TwoP(i: nat): u64
    requires i < 5
  {
    if i == 0 then 0xf_ffff_ffff_ffda else 0xf_ffff_ffff_fffe
  }

  method FeSub(h: array<u64>, f: array<u64>, g: array<u64>)
    requires h.Length == f.Length == g.Length == 5
    requires Within(f, TWO54 - 1)
    requires forall i :: 0 <= i < 5 ==> g[i] <= TwoP(i)
    modifies h
    ensures Val(h) == old(Val(f)) + 2 * P - old(Val(g))
    ensures Within(h, TWO54 + 2 * TWO51)
  {
    for i := 0 to 5
      invariant forall k :: 0 <= k < i ==> h[k] == old(f[k]) + TwoP(k) - old(g[k])
      invariant forall k :: i <= k < 5 ==> h[k] == old(h[k]) && f[k] == old(f[k]) && g[k] == old(g[k])
    {
      h[i] := f[i] + TwoP(i) - g[i];
    }
  }

  /** Moves what limb i holds above 51 bits into limb i + 1. */
  method CarryLimb(h: array<u64>, i: nat)
    requires h.Length == 5 && i < 4
    requires h[i + 1] <= 0xffff_ffff_ffff_e000
    modifies h
    ensures h[i] == old(h[i]) % TWO51 && h[i + 1] == old(h[i + 1]) + old(h[i]) / TWO51
    ensures forall k :: 0 <= k < 5 && k != i && k != i + 1 ==> h[k] == old(h[k])
    ensures Val(h) == old(Val(h))
  {
    var c: u64 := h[i] / TWO51;
    h[i] := h[i] % TWO51;
    h[i + 1] := h[i + 1] + c;
  }

  /** Takes limb 4's overflow back to limb 0, since 2^255 = 19 modulo p. */
  method FoldTop(h: array<u64>)
    requires h.Length == 5
    requires h[0] < TWO51
    modifies h
    ensures h[4] == old(h[4]) % TWO51 && h[0] == old(h[0]) + 19 * (old(h[4]) / TWO51)
    ensures forall k :: 0 < k < 4 ==> h[k] == old(h[k])
    ensures Cong(Val(h), old(Val(h)))
  {
    var c: u64 := h[4] / TWO51;
    h[4] := h[4] % TWO51;
    h[0] := h[0] + c * 19;
    CongMultiple(Val(h), old(Val(h)), 0 - c as int);
  }

  method FeCarry(h: array<u64>)
    requires h.Length == 5
    requires Within(h, 0xffff_ffff_ffff_e000)
    modifies h
    ensures Cong(Val(h), old(Val(h)))
    ensures Reduced(h) && forall i :: 0 <= i < 5 && i != 1 ==> h[i] < TWO51
  {
    hide Val, Cong;
    CarryLimb(h, 0);
    CarryLimb(h, 1);
    CarryLimb(h, 2);
    CarryLimb(h, 3);
    FoldTop(h);
    CarryLimb(h, 0);
  }

  /** Five digits in radix r. */
  ghost function InRadix(r: int, a: int, b: int, c: int, d: int, e: int): int {
    a + r * (b + r * (c + r * (d + r * e)))
  }

  lemma HornerScale(r: int, x: int, a: int, t: int)
    ensures x * (a + r * t) == x * a + r * (x * t)
  {
  }

  lemma InRadixScale(r: int, x: int, a: int, b: int, c: int, d: int, e: int)
    ensures x * InRadix(r, a, b, c, d, e) == InRadix(r, x * a, x * b, x * c, x * d, x * e)
  {
    HornerScale(r, x, d, e);
    HornerScale(r, x, c, d + r * e);
    HornerScale(r, x, b, c + r * (d + r * e));
    HornerScale(r, x, a, b + r * (c + r * (d + r * e)));
  }

  lemma InRadixAdd(r: int, a: int, b: int, c: int, d: int, e: int, a': int, b': int, c': int, d': int, e': int)
    ensures InRadix(r, a, b, c, d, e) + InRadix(r, a', b', c', d', e')
         == InRadix(r, a + a', b + b', c + c', d + d', e + e')
  {
    HornerScale(1, r, d, d');
    HornerScale(1, r, e, e');
    HornerScale(1, r, c + r * (d + r * e), c' + r * (d' + r * e'));
    HornerScale(1, r, d + r * e, d' + r * e');
    HornerScale(1, r, b + r * (c + r * (d + r * e)), b' + r * (c' + r * (d' + r * e')));
  }

  /** Where r^5 = 19, moving up one digit brings the top one back as 19. */
  lemma ShiftDigits(r: int, a: int, b: int, c: int, d: int, e: int)
    requires Cong(r * (r * (r * (r * r))), 19)
    ensures Cong(r * InRadix(r, a, b, c, d, e), InRadix(r, 19 * e, a, b, c, d))
  {
    hide Cong;
    InRadixAdd(r, a, b, c, d, 0, 0, 0, 0, 0, e);
    var rest := InRadix(r, a, b, c, d, 0);
    HornerScale(1, r, rest, InRadix(r, 0, 0, 0, 0, e));
    var top := r * (r * (r * (r * r)));
    assert r * InRadix(r, 0, 0, 0, 0, e) == top * e by { TopDigit(r, e); }
    CongRefl(e);
    CongMul(top, 19, e, e);
    CongRefl(r * rest);
    CongAdd(top * e, 19 * e, r * rest, r * rest);
  }

  lemma TopDigit(r: int, e: int)
    ensures r * InRadix(r, 0, 0, 0, 0, e) == r * (r * (r * (r * r))) * e
  {
  }

  /** One row of the schoolbook product, on top of what the higher rows left. */
  lemma AddRow(
    r: int, acc: int, a: int, b: int, c: int, d: int, e: int,
    x: int, g0: int, g1: int, g2: int, g3: int, g4: int)
    requires Cong(r * (r * (r * (r * r))), 19) && Cong(acc, InRadix(r, a, b, c, d, e))
    ensures Cong(r * acc + x * InRadix(r, g0, g1, g2, g3, g4),
                 InRadix(r, 19 * e + x * g0, a + x * g1, b + x * g2, c + x * g3, d + x * g4))
  {
    hide Cong;
    ShiftDigits(r, a, b, c, d, e);
    InRadixScale(r, x, g0, g1, g2, g3, g4);
    InRadixAdd(r, 19 * e, a, b, c, d, x * g0, x * g1, x * g2, x * g3, x * g4);
    var row := x * InRadix(r, g0, g1, g2, g3, g4);
    hide InRadix;
    CongRefl(r);
    CongMul(r, r, acc, InRadix(r, a, b, c, d, e));
    CongTrans(r * acc, r * InRadix(r, a, b, c, d, e), InRadix(r, 19 * e, a, b, c, d));
    CongRefl(row);
    CongAdd(r * acc, InRadix(r, 19 * e, a, b, c, d), row, row);
  }

  lemma HornerProduct(r: int, f0: int, f1: int, f2: int, f3: int, f4: int, g: int)
    ensures r * (r * (r * (r * (f4 * g) + f3 * g) + f2 * g) + f1 * g) + f0 * g == InRadix(r, f0, f1, f2, f3, f4) * g
  {
    HornerScale(r, g, f3, f4);
    HornerScale(r, g, f2, f3 + r * f4);
    HornerScale(r, g, f1, f2 + r * (f3 + r * f4));
    HornerScale(r, g, f0, f1 + r * (f2 + r * (f3 + r * f4)));
  }

  /** In a radix whose fifth power is 19, schoolbook columns folded by 19 are the product. */
  lemma ColumnsAreProduct(
    r: int, f0: int, f1: int, f2: int, f3: int, f4: int, g0: int, g1: int, g2: int, g3: int, g4: int)
    requires Cong(r * (r * (r * (r * r))), 19)
    ensures Cong(
      InRadix(r, f0 * g0 + 19 * (f1 * g4 + f2 * g3 + f3 * g2 + f4 * g1),
              f0 * g1 + f1 * g0 + 19 * (f2 * g4 + f3 * g3 + f4 * g2),
              f0 * g2 + f1 * g1 + f2 * g0 + 19 * (f3 * g4 + f4 * g3),
              f0 * g3 + f1 * g2 + f2 * g1 + f3 * g0 + 19 * (f4 * g4),
              f0 * g4 + f1 * g3 + f2 * g2 + f3 * g1 + f4 * g0),
      InRadix(r, f0, f1, f2, f3, f4) * InRadix(r, g0, g1, g2, g3, g4))
  {
    hide Cong;
    var g := InRadix(r, g0, g1, g2, g3, g4);
    InRadixScale(r, f4, g0, g1, g2, g3, g4);
    CongRefl(f4 * g);
    HornerProduct(r, f0, f1, f2, f3, f4, g);
    var t3 := r * (f4 * g) + f3 * g;
    var t2 := r * t3 + f2 * g;
    var t1 := r * t2 + f1 * g;
    hide InRadix;
    AddRow(r, f4 * g, f4 * g0, f4 * g1, f4 * g2, f4 * g3, f4 * g4, f3, g0, g1, g2, g3, g4);
    AddRow(r, t3, 19 * (f4 * g4) + f3 * g0, f4 * g0 + f3 * g1, f4 * g1 + f3 * g2, f4 * g2 + f3 * g3,
           f4 * g3 + f3 * g4, f2, g0, g1, g2, g3, g4);
    AddRow(r, t2, 19 * (f4 * g3 + f3 * g4) + f2 * g0, 19 * (f4 * g4) + f3 * g0 + f2 * g1,
           f4 * g0 + f3 * g1 + f2 * g2, f4 * g1 + f3 * g2 + f2 * g3, f4 * g2 + f3 * g3 + f2 * g4,
           f1, g0, g1, g2, g3, g4);
    AddRow(r, t1, 19 * (f4 * g2 + f3 * g3 + f2 * g4) + f1 * g0, 19 * (f4 * g3 + f3 * g4) + f2 * g0 + f1 * g1,
           19 * (f4 * g4) + f3 * g0 + f2 * g1 + f1 * g2, f4 * g0 + f3 * g1 + f2 * g2 + f1 * g3,
           f4 * g1 + f3 * g2 + f2 * g3 + f1 * g4, f0, g0, g1, g2, g3, g4);
    CongSym(r * t1 + f0 * g,
            InRadix(r, f0 * g0 + 19 * (f1 * g4 + f2 * g3 + f3 * g2 + f4 * g1),
                    f0 * g1 + f1 * g0 + 19 * (f2 * g4 + f3 * g3 + f4 * g2),
                    f0 * g2 + f1 * g1 + f2 * g0 + 19 * (f3 * g4 + f4 * g3),
                    f0 * g3 + f1 * g2 + f2 * g1 + f3 * g0 + 19 * (f4 * g4),
                    f0 * g4 + f1 * g3 + f2 * g2 + f3 * g1 + f4 * g0));
  }

  lemma LimbsInRadix(a: int, b: int, c: int, d: int, e: int)
    ensures Limbs(a, b, c, d, e) == InRadix(TWO51, a, b, c, d, e)
  {
  }

  lemma FifthPower()
    ensures Cong(TWO51 * (TWO51 * (TWO51 * (TWO51 * TWO51))), 19)
  {
    hide Cong;
    CongMultiple(TWO255, 19, 1);
  }

  /** Multiplying by 19 g is multiplying by g and then by 19. */
  lemma Nineteen(a: int, b: int, c: int, d: int, a': int, b': int, c': int, d': int)
    ensures a * (19 * a') + b * (19 * b') + c * (19 * c') + d * (19 * d') == 19 * (a * a' + b * b' + c * c' + d * d')
  {
  }

  /** One 128-bit column of the product: no partial sum leaves 128 bits. */
  method Column(a: u64, a': u64, b: u64, b': u64, c: u64, c': u64, d: u64, d': u64, e: u64, e': u64)
    returns (r: u128)
    requires a < TWO54 && b < TWO54 && c < TWO54 && d < TWO54 && e < TWO54
    requires a' < 19 * TWO54 && b' < 19 * TWO54 && c' < 19 * TWO54 && d' < 19 * TWO54 && e' < 19 * TWO54
    ensures r == a * a' + b * b' + c * c' + d * d' + e * e'
    ensures r <= 95 * TWO54 * TWO54
    ensures a' < TWO54 && b' < TWO54 && c' < TWO54 && d' < TWO54 && e' < TWO54 ==> r <= 5 * TWO54 * TWO54
  {
    MulBound(a, a', TWO54, 19 * TWO54);
    MulBound(b, b', TWO54, 19 * TWO54);
    MulBound(c, c', TWO54, 19 * TWO54);
    MulBound(d, d', TWO54, 19 * TWO54);
    MulBound(e, e', TWO54, 19 * TWO54);
    if a' < TWO54 && b' < TWO54 && c' < TWO54 && d' < TWO54 && e' < TWO54 {
      MulBound(a, a', TWO54, TWO54);
      MulBound(b, b', TWO54, TWO54);
      MulBound(c, c', TWO54, TWO54);
      MulBound(d, d', TWO54, TWO54);
      MulBound(e, e', TWO54, TWO54);
    }
    r := a * a' + b * b' + c * c' + d * d' + e * e';
  }

  /** Cuts a column into its low 51 bits and a carry that still fits 64. */
  method SplitColumn(r: u128) returns (lo: u64, c: u64)
    requires r <= 95 * TWO54 * TWO54 + 0x1_0000_0000_0000_0000
    ensures r == lo + TWO51 * c && lo < TWO51
  {
    lo := r % TWO51;
    c := r / TWO51;
  }

  lemma CarriedColumns(
    h0: int, h1: int, h2: int, h3: int, h4: int, c0: int, c1: int, c2: int, c3: int, c4: int,
    k1: int, k2: int, k3: int, k4: int, k5: int)
    requires c0 == h0 + TWO51 * k1 && c1 + k1 == h1 + TWO51 * k2 && c2 + k2 == h2 + TWO51 * k3
    requires c3 + k3 == h3 + TWO51 * k4 && c4 + k4 == h4 + TWO51 * k5
    ensures Cong(Limbs(h0 + k5 * 19, h1, h2, h3, h4), Limbs(c0, c1, c2, c3, c4))
  {
    CongMultiple(Limbs(h0 + k5 * 19, h1, h2, h3, h4), Limbs(c0, c1, c2, c3, c4), -k5);
  }

  /** Carries five 128-bit columns down to five limbs. */
  method CarryColumns(h: array<u64>, c0: u128, c1: u128, c2: u128, c3: u128, c4: u128)
    requires h.Length == 5
    requires c0 <= 95 * TWO54 * TWO54 && c1 <= 95 * TWO54 * TWO54 && c2 <= 95 * TWO54 * TWO54
    requires c3 <= 95 * TWO54 * TWO54 && c4 <= 5 * TWO54 * TWO54
    modifies h
    ensures Cong(Val(h), Limbs(c0, c1, c2, c3, c4))
    ensures Reduced(h) && forall i :: 0 <= i < 5 && i != 2 ==> h[i] < TWO51
  {
    hide Cong, Limbs;
    var h0, k1 := SplitColumn(c0);
    var h1, k2 := SplitColumn(c1 + k1);
    var h2, k3 := SplitColumn(c2 + k2);
    var h3, k4 := SplitColumn(c3 + k3);
    var h4, c := SplitColumn(c4 + k4);
    assert c < 6 * TWO54 * 8;
    CarriedColumns(h0, h1, h2, h3, h4, c0, c1, c2, c3, c4, k1, k2, k3, k4, c);
    StoreCarried(h, h0 + c * 19, h1, h2, h3, h4);
  }

  /** The two last carries, from the limb that took the fold. */
  method StoreCarried(h: array<u64>, h0: u64, h1: u64, h2: u64, h3: u64, h4: u64)
    requires h.Length == 5
    requires h1 < TWO51 && h2 < TWO51 && h3 < TWO51 && h4 < TWO51
    modifies h
    ensures Val(h) == Limbs(h0, h1, h2, h3, h4)
    ensures Reduced(h) && forall i :: 0 <= i < 5 && i != 2 ==> h[i] < TWO51
  {
    h[0], h[1], h[2], h[3], h[4] := h0, h1, h2, h3, h4;
    CarryLimb(h, 0);
    CarryLimb(h, 1);
  }

  method FeMul(h: array<u64>, f: array<u64>, g: array<u64>)
    requires h.Length == f.Length == g.Length == 5
    requires Within(f, TWO54 - 1) && Within(g, TWO54 - 1)
    modifies h
    ensures Cong(Val(h), old(Val(f)) * old(Val(g)))
    ensures Reduced(h) && forall i :: 0 <= i < 5 && i != 2 ==> h[i] < TWO51
  {
    hide Cong, InRadix, Limbs;
    var g1_19: u64 := 19 * g[1];
    var g2_19: u64 := 19 * g[2];
    var g3_19: u64 := 19 * g[3];
    var g4_19: u64 := 19 * g[4];

    var r0 := Column(f[0], g[0], f[1], g4_19, f[2], g3_19, f[3], g2_19, f[4], g1_19);
    var r1 := Column(f[0], g[1], f[1], g[0], f[2], g4_19, f[3], g3_19, f[4], g2_19);
    var r2 := Column(f[0], g[2], f[1], g[1], f[2], g[0], f[3], g4_19, f[4], g3_19);
    var r3 := Column(f[0], g[3], f[1], g[2], f[2], g[1], f[3], g[0], f[4], g4_19);
    var r4 := Column(f[0], g[4], f[1], g[3], f[2], g[2], f[3], g[1], f[4], g[0]);
    Nineteen(f[1], f[2], f[3], f[4], g[4], g[3], g[2], g[1]);
    Nineteen(f[2], f[3], f[4], 0, g[4], g[3], g[2], 0);
    Nineteen(f[3], f[4], 0, 0, g[4], g[3], 0, 0);
    Nineteen(f[4], 0, 0, 0, g[4], 0, 0, 0);
    FifthPower();
    ColumnsAreProduct(TWO51, f[0], f[1], f[2], f[3], f[4], g[0], g[1], g[2], g[3], g[4]);
    LimbsInRadix(r0, r1, r2, r3, r4);
    LimbsInRadix(f[0], f[1], f[2], f[3], f[4]);
    LimbsInRadix(g[0], g[1], g[2], g[3], g[4]);
    CarryColumns(h, r0, r1, r2, r3, r4);
    CongTrans(Val(h), Limbs(r0, r1, r2, r3, r4), old(Val(f)) * old(Val(g)));
  }
}
