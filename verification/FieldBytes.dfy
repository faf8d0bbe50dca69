/** Field elements to and from 32 little-endian bytes. */
module FieldBytes {
  import opened Words
  import opened Bits
  import opened ModP
  import opened Field

  const TWO128 := 0x1_0000_0000_0000_0000_0000_0000_0000_0000
  const TWO192 := 6277101735386680763835789423207666416102355444464034512896

  lemma PowersOfTwo()
    ensures Pow2(8) == 0x100 && Pow2(12) == 0x1000 && Pow2(13) == 0x2000 && Pow2(25) == 0x200_0000
    ensures Pow2(26) == 0x400_0000 && Pow2(38) == 0x40_0000_0000 && Pow2(39) == 0x80_0000_0000
    ensures Pow2(51) == TWO51 && Pow2(56) == 0x100_0000_0000_0000 && Pow2(64) == TWO64
    ensures Pow2(128) == TWO128 && Pow2(192) == TWO192
  {
    hide Pow2;
    Pow2Small();
    Pow2Product(12, 13, 0x1000, 0x2000);
    Pow2Product(13, 13, 0x2000, 0x2000);
    Pow2Product(13, 25, 0x2000, 0x200_0000);
    Pow2Product(13, 26, 0x2000, 0x400_0000);
    Pow2Product(12, 39, 0x1000, 0x80_0000_0000);
    Pow2Product(8, 8, 0x100, 0x100);
    Pow2Product(16, 8, 0x1_0000, 0x100);
    Pow2Product(16, 16, 0x1_0000, 0x1_0000);
    Pow2Product(32, 24, 0x1_0000_0000, 0x100_0000);
    Pow2Product(32, 32, 0x1_0000_0000, 0x1_0000_0000);
    Pow2Product(64, 64, 0x1_0000_0000_0000_0000, 0x1_0000_0000_0000_0000);
    Pow2Product(64, 128, 0x1_0000_0000_0000_0000, 0x1_0000_0000_0000_0000_0000_0000_0000_0000);
  }

  lemma WordThenRest(s: bytes, t: bytes)
    requires |s| == 8
    ensures LittleEndian(s + t) == LittleEndian(s) + TWO64 * LittleEndian(t)
  {
    hide *;
    LittleEndianConcat(s, t);
    PowersOfTwo();
  }

  /** Thirty-two bytes read as four 64-bit words. */
  lemma FourWords(s: bytes)
    requires |s| == 32
    ensures LittleEndian(s) == LittleEndian(s[0..8]) + TWO64 * LittleEndian(s[8..16])
                               + TWO128 * LittleEndian(s[16..24]) + TWO192 * LittleEndian(s[24..32])
  {
    hide LittleEndian;
    assert s == s[0..8] + s[8..];
    assert s[8..] == s[8..16] + s[16..];
    assert s[16..] == s[16..24] + s[24..32];
    WordThenRest(s[0..8], s[8..]);
    WordThenRest(s[8..16], s[16..]);
    WordThenRest(s[16..24], s[24..32]);
  }

  lemma ShortTail(tail: bytes)
    requires |tail| < 8
    ensures LittleEndian(tail) < 0x100_0000_0000_0000
  {
    hide LittleEndian, Pow2;
    LittleEndianBound(tail);
    Pow2Monotone(8 * |tail|, 56);
    PowersOfTwo();
  }

  lemma OrByte(b: u8, v: nat)
    ensures Or(v * 0x100, b) == b + 0x100 * v
  {
    hide Or, Pow2;
    PowersOfTwo();
    OrDisjoint(b, v, 8);
  }

  lemma LoadStep(tail: bytes, b: u8, v: nat)
    requires |tail| < 8 && v == LittleEndian(tail)
    ensures v * 0x100 < TWO64
    ensures Or(v * 0x100 % TWO64, b) == LittleEndian([b] + tail)
  {
    hide Or;
    assert ([b] + tail)[1..] == tail;
    ShortTail(tail);
    OrByte(b, v);
  }

  /** The inner loop that assembles one word. */
  method LoadWord(s: array<u8>, off: nat) returns (v: u64)
    requires off + 8 <= s.Length
    ensures v == LittleEndian(s[off..off + 8])
  {
    v := 0;
    var j := 8;
    while j > 0
      invariant 0 <= j <= 8
      invariant v == LittleEndian(s[off + j..off + 8])
    {
      j := j - 1;
      ghost var tail := s[off + j + 1..off + 8];
      assert s[off + j..off + 8] == [s[off + j]] + tail;
      LoadStep(tail, s[off + j], v);
      v := Or((v * 0x100) % TWO64, s[off + j]);
    }
  }

  /** `(uint8_t)(w >> (8 * j))` */
  function ByteOf(w: u64, j: nat): u8 {
    w / Pow2(8 * j) % 0x100
  }

  lemma StoreStart(w: u64)
    ensures StoreInvariant([], w, 0, w)
  {
    assert LittleEndian([]) == 0 && Pow2(0) == 1;
    hide LittleEndian, Pow2;
    PowersOfTwo();
  }

  /** The inner loop that writes one word. */
  method StoreWord(s: array<u8>, off: nat, w: u64)
    requires off + 8 <= s.Length
    modifies s
    ensures LittleEndian(s[off..off + 8]) == w
    ensures forall k :: 0 <= k < s.Length && !(off <= k < off + 8) ==> s[k] == old(s[k])
  {
    hide LittleEndian, Pow2, ByteOf;
    ghost var rest: nat := w;
    ghost var done: bytes := [];
    StoreStart(w);
    for j := 0 to 8
      invariant |done| == j && s[off..off + j] == done
      invariant StoreInvariant(done, rest, j, w)
      invariant forall k :: 0 <= k < s.Length && !(off <= k < off + 8) ==> s[k] == old(s[k])
    {
      StoreStep(done, rest, j, w);
      s[off + j] := ByteOf(w, j);
      done := done + [rest % 0x100];
      rest := rest / 0x100;
    }
    StoreEnd(done, rest, w);
  }

  ghost predicate StoreInvariant(done: bytes, rest: nat, j: nat, w: nat) {
    j <= 8 && rest < Pow2(8 * (8 - j)) && w == LittleEndian(done) + Pow2(8 * j) * rest
  }

  lemma StoreEnd(done: bytes, rest: nat, w: nat)
    requires StoreInvariant(done, rest, 8, w)
    ensures LittleEndian(done) == w
  {
  }

  lemma NextPower(j: nat)
    ensures Pow2(8 * (j + 1)) == 0x100 * Pow2(8 * j)
  {
    hide Pow2;
    PowersOfTwo();
    Pow2Add(8, 8 * j);
  }

  lemma StoreStep(done: bytes, rest: nat, j: nat, w: u64)
    requires j < 8 && |done| == j && StoreInvariant(done, rest, j, w)
    ensures ByteOf(w, j) == rest % 0x100
    ensures StoreInvariant(done + [rest % 0x100], rest / 0x100, j + 1, w)
  {
    var lo, hi := rest % 0x100, rest / 0x100;
    assert LittleEndian([lo]) == lo;
    hide LittleEndian, Pow2;
    NextPower(7 - j);
    NextPower(j);
    LittleEndianBound(done);
    DivModUnique(w, Pow2(8 * j), rest, LittleEndian(done));
    LittleEndianConcat(done, [lo]);
    SplitLow(Pow2(8 * j), rest, lo, hi);
  }

  lemma SplitLow(e: nat, rest: nat, lo: nat, hi: nat)
    requires rest == lo + 0x100 * hi
    ensures e * rest == e * lo + (0x100 * e) * hi
  {
  }

  /** `(lo >> r | hi << (64 - r)) & mask51` for the three cuts between words. */
  function Funnel(lo: u64, hi: u64, down: nat, up: nat): (r: u64)
    requires down > 0
    ensures r < TWO51
  {
    Or(lo / down, hi * up % TWO64) % TWO51
  }

  lemma OrShifted(lo: nat, hi: nat, n: nat, m: nat)
    requires lo < Pow2(n) && Pow2(n) * m == TWO64
    ensures Or(lo, hi * Pow2(n) % TWO64) == lo + Pow2(n) * (hi % m)
  {
    hide Or, Pow2;
    var e := Pow2(n);
    assert m != 0;
    OrDisjoint(lo, hi % m, n);
    assert hi * e == (hi / m) * TWO64 + e * (hi % m) by {
      assert hi == m * (hi / m) + hi % m;
      ShiftSplit(hi, m, hi / m, hi % m, e);
    }
    MulBelow(hi % m, m, e);
    DivModUnique(hi * e, TWO64, hi / m, e * (hi % m));
  }

  lemma ShiftSplit(x: nat, m: nat, q: nat, r: nat, e: nat)
    requires x == m * q + r && e * m == TWO64
    ensures x * e == q * TWO64 + e * r
  {
    assert (m * q) * e == q * (e * m);
  }

  lemma MulBelow(r: nat, m: nat, e: nat)
    requires r < m && e >= 1
    ensures e * r < e * m
  {
    MulAtLeast(e, m - r);
  }

  lemma MaskCut(a: nat, e: nat, y: nat, m: nat)
    requires a < e && e * m == TWO51
    ensures (a + e * y) % TWO51 == a + e * (y % m)
  {
    assert m != 0;
    var q, r := y / m, y % m;
    assert e * y == TWO51 * q + e * r by {
      calc { e * y; e * (m * q + r); e * (m * q) + e * r; (e * m) * q + e * r; }
    }
    MulBelow(r, m, e);
    assert e * r + e <= e * m by { MulAtLeast(e, m - r); }
    DivModUnique(a + e * y, TWO51, q, a + e * r);
  }

  lemma ModMod(x: nat, m: nat, k: nat)
    requires m > 0 && k > 0
    ensures m * k > 0 && x % (m * k) % m == x % m
  {
    MulAtLeast(m, k);
    var q, r := x / (m * k), x % (m * k);
    assert x == (m * k) * q + r == m * (k * q) + r;
    assert m * (k * q) + m * (r / m) == m * (k * q + r / m);
    DivModUnique(x, m, k * q + r / m, r % m);
  }

  lemma FunnelCut(lo: nat, hi: nat, n: nat, m: nat)
    requires lo < Pow2(n) && Pow2(n) * m == TWO51
    ensures Or(lo, hi * Pow2(n) % TWO64) % TWO51 == lo + Pow2(n) * (hi % m)
  {
    hide Or, Pow2;
    assert m > 0;
    ScaleProduct(Pow2(n), m, 0x2000);
    OrShifted(lo, hi, n, m * 0x2000);
    MaskCut(lo, Pow2(n), hi % (m * 0x2000), m);
    ModMod(hi, m, 0x2000);
  }

  lemma Funnel51(lo: u64, hi: u64)
    ensures Funnel(lo, hi, TWO51, 0x2000) == lo / TWO51 + 0x2000 * (hi % 0x40_0000_0000)
  {
    hide Or, Pow2;
    PowersOfTwo();
    FunnelCut(lo / TWO51, hi, 13, 0x40_0000_0000);
  }

  lemma Funnel38(lo: u64, hi: u64)
    ensures Funnel(lo, hi, 0x40_0000_0000, 0x400_0000) == lo / 0x40_0000_0000 + 0x400_0000 * (hi % 0x200_0000)
  {
    hide Or, Pow2;
    PowersOfTwo();
    FunnelCut(lo / 0x40_0000_0000, hi, 26, 0x200_0000);
  }

  lemma Funnel25(lo: u64, hi: u64)
    ensures Funnel(lo, hi, 0x200_0000, 0x80_0000_0000) == lo / 0x200_0000 + 0x80_0000_0000 * (hi % 0x1000)
  {
    hide Or, Pow2;
    PowersOfTwo();
    FunnelCut(lo / 0x200_0000, hi, 39, 0x1000);
  }

  lemma WordsToLimbs(w0: u64, w1: u64, w2: u64, w3: u64)
    ensures Limbs(w0 % TWO51, w0 / TWO51 + 0x2000 * (w1 % 0x40_0000_0000),
                  w1 / 0x40_0000_0000 + 0x400_0000 * (w2 % 0x200_0000),
                  w2 / 0x200_0000 + 0x80_0000_0000 * (w3 % 0x1000), w3 / 0x1000 % TWO51)
            == (w0 + TWO64 * w1 + TWO128 * w2 + TWO192 * w3) % TWO255
  {
    var x := w3 / 0x1000;
    var v := Limbs(w0 % TWO51, w0 / TWO51 + 0x2000 * (w1 % 0x40_0000_0000),
                   w1 / 0x40_0000_0000 + 0x400_0000 * (w2 % 0x200_0000),
                   w2 / 0x200_0000 + 0x80_0000_0000 * (w3 % 0x1000), x % TWO51);
    assert v + TWO255 * (x / TWO51) == w0 + TWO64 * w1 + TWO128 * w2 + TWO192 * w3;
    DivModUnique(w0 + TWO64 * w1 + TWO128 * w2 + TWO192 * w3, TWO255, x / TWO51, v);
  }

  lemma LimbsOfWords(w0: u64, w1: u64, w2: u64, w3: u64)
    ensures Limbs(w0 % TWO51, Funnel(w0, w1, TWO51, 0x2000), Funnel(w1, w2, 0x40_0000_0000, 0x400_0000),
                  Funnel(w2, w3, 0x200_0000, 0x80_0000_0000), w3 / 0x1000 % TWO51)
            == (w0 + TWO64 * w1 + TWO128 * w2 + TWO192 * w3) % TWO255
  {
    hide Funnel, Limbs;
    Funnel51(w0, w1);
    Funnel38(w1, w2);
    Funnel25(w2, w3);
    WordsToLimbs(w0, w1, w2, w3);
  }

  method LoadWords(s: array<u8>) returns (w0: u64, w1: u64, w2: u64, w3: u64)
    requires s.Length == 32
    ensures LittleEndian(s[..]) == w0 + TWO64 * w1 + TWO128 * w2 + TWO192 * w3
  {
    w0 := LoadWord(s, 0);
    w1 := LoadWord(s, 8);
    w2 := LoadWord(s, 16);
    w3 := LoadWord(s, 24);
    hide LittleEndian;
    assert s[..][0..8] == s[0..8] && s[..][8..16] == s[8..16];
    assert s[..][16..24] == s[16..24];
    assert s[..][24..32] == s[24..32];
    FourWords(s[..]);
  }

  /** Decodes 255 bits; the top bit of the last byte is left to the caller. */
  method FeFromBytes(h: array<u64>, s: array<u8>)
    requires h.Length == 5 && s.Length == 32
    modifies h
    ensures Val(h) == LittleEndian(s[..]) % TWO255
    ensures Reduced(h)
  {
    hide Funnel, LittleEndian, Limbs;
    var w0, w1, w2, w3 := LoadWords(s);
    h[0] := w0 % TWO51;
    h[1] := Funnel(w0, w1, TWO51, 0x2000);
    h[2] := Funnel(w1, w2, 0x40_0000_0000, 0x400_0000);
    h[3] := Funnel(w2, w3, 0x200_0000, 0x80_0000_0000);
    h[4] := w3 / 0x1000 % TWO51;
    LimbsOfWords(w0, w1, w2, w3);
  }

  /** Adding 19 carries out of 255 bits exactly when the value has reached p. */
  lemma QuotientChain(t0: nat, t1: nat, t2: nat, t3: nat, t4: nat, r0: nat, r1: nat, r2: nat, r3: nat, r4: nat,
                      q0: nat, q1: nat, q2: nat, q3: nat, q: nat)
    requires t0 <= TWO51 && t1 <= TWO51 && t2 <= TWO51 && t3 <= TWO51 && t4 < TWO51
    requires r0 < TWO51 && r1 < TWO51 && r2 < TWO51 && r3 < TWO51 && r4 < TWO51
    requires t0 + 19 == TWO51 * q0 + r0 && t1 + q0 == TWO51 * q1 + r1 && t2 + q1 == TWO51 * q2 + r2
    requires t3 + q2 == TWO51 * q3 + r3 && t4 + q3 == TWO51 * q + r4
    ensures q <= 1 && 0 <= Limbs(t0, t1, t2, t3, t4) - q * P < P
  {
    assert Limbs(t0, t1, t2, t3, t4) + 19 == Limbs(r0, r1, r2, r3, r4) + TWO255 * q;
  }

  lemma Residue(v: int, q: int)
    requires 0 <= v - q * P < P
    ensures v % P == v - q * P
  {
  }

  /** Whether the carried value has reached p, as 0 or 1. */
  method ReachesP(t: array<u64>) returns (q: u64)
    requires t.Length == 5
    requires Reduced(t) && t[4] < TWO51
    ensures q <= 1 && Val(t) % P == Val(t) - q * P
  {
    var q0: u64 := (t[0] + 19) / TWO51;
    var q1: u64 := (t[1] + q0) / TWO51;
    var q2: u64 := (t[2] + q1) / TWO51;
    var q3: u64 := (t[3] + q2) / TWO51;
    q := (t[4] + q3) / TWO51;
    QuotientChain(t[0], t[1], t[2], t[3], t[4], (t[0] + 19) % TWO51, (t[1] + q0) % TWO51, (t[2] + q1) % TWO51,
                  (t[3] + q2) % TWO51, (t[4] + q3) % TWO51, q0, q1, q2, q3, q);
    Residue(Val(t), q);
  }

  /** One conditional subtraction of p after a carry is enough. */
  method Canonicalise(t: array<u64>)
    requires t.Length == 5
    requires Reduced(t) && forall i :: 0 <= i < 5 && i != 1 ==> t[i] < TWO51
    modifies t
    ensures Val(t) == old(Val(t)) % P
    ensures forall i :: 0 <= i < 5 ==> t[i] < TWO51
  {
    var q := ReachesP(t);
    t[0] := t[0] + 19 * q;
    assert Val(t) == old(Val(t)) + 19 * q;
    CarryAll(t);
    LimbsTop(t[0], t[1], t[2], t[3], t[4], q);
    t[4] := t[4] % TWO51;
  }

  method CarryAll(t: array<u64>)
    requires t.Length == 5 && Within(t, 2 * TWO51)
    modifies t
    ensures Val(t) == old(Val(t))
    ensures t[0] < TWO51 && t[1] < TWO51 && t[2] < TWO51 && t[3] < TWO51
    ensures t[4] <= 3 * TWO51
  {
    hide Val;
    CarryLimb(t, 0);
    CarryLimb(t, 1);
    CarryLimb(t, 2);
    CarryLimb(t, 3);
  }

  /** Dropping limb 4's overflow removes exactly q * 2^255. */
  lemma LimbsTop(t0: nat, t1: nat, t2: nat, t3: nat, t4: nat, q: nat)
    requires t0 < TWO51 && t1 < TWO51 && t2 < TWO51 && t3 < TWO51
    requires 0 <= Limbs(t0, t1, t2, t3, t4) - q * TWO255 < TWO255
    ensures t4 / TWO51 == q
  {
    var k, r := t4 / TWO51, t4 % TWO51;
    assert Limbs(t0, t1, t2, t3, t4) == Limbs(t0, t1, t2, t3, r) + TWO255 * k;
    assert 0 <= Limbs(t0, t1, t2, t3, r) < TWO255;
  }

  /** `lo >> r | hi << n`, one 64-bit word cut from two limbs. */
  function Pack(lo: u64, down: nat, hi: u64, up: nat): nat
    requires down > 0
  {
    Or(lo / down, hi * up % TWO64)
  }

  lemma PackLow(t: u64, t': u64)
    requires t < TWO51
    ensures Pack(t, 1, t', TWO51) == t + TWO51 * (t' % 0x2000)
  {
    hide Or, Pow2;
    PowersOfTwo();
    OrShifted(t, t', 51, 0x2000);
  }

  lemma PackMid(t: u64, t': u64)
    requires t < TWO51
    ensures Pack(t, 0x2000, t', 0x40_0000_0000) == t / 0x2000 + 0x40_0000_0000 * (t' % 0x400_0000)
  {
    hide Or, Pow2;
    PowersOfTwo();
    OrShifted(t / 0x2000, t', 38, 0x400_0000);
  }

  lemma PackMid'(t: u64, t': u64)
    requires t < TWO51
    ensures Pack(t, 0x400_0000, t', 0x200_0000) == t / 0x400_0000 + 0x200_0000 * (t' % 0x80_0000_0000)
  {
    hide Or, Pow2;
    PowersOfTwo();
    OrShifted(t / 0x400_0000, t', 25, 0x80_0000_0000);
  }

  lemma PackTop(t: u64, t': u64)
    requires t < TWO51 && t' < TWO51
    ensures Pack(t, 0x80_0000_0000, t', 0x1000) == t / 0x80_0000_0000 + 0x1000 * t'
  {
    hide Or, Pow2;
    PowersOfTwo();
    OrShifted(t / 0x80_0000_0000, t', 12, 0x10_0000_0000_0000);
  }

  lemma LimbsToWords(t0: u64, t1: u64, t2: u64, t3: u64, t4: u64)
    requires t0 < TWO51 && t1 < TWO51 && t2 < TWO51 && t3 < TWO51 && t4 < TWO51
    ensures Pack(t0, 1, t1, TWO51) < TWO64 && Pack(t1, 0x2000, t2, 0x40_0000_0000) < TWO64
    ensures Pack(t2, 0x400_0000, t3, 0x200_0000) < TWO64 && Pack(t3, 0x80_0000_0000, t4, 0x1000) < TWO64
    ensures Limbs(t0, t1, t2, t3, t4)
            == Pack(t0, 1, t1, TWO51) + TWO64 * Pack(t1, 0x2000, t2, 0x40_0000_0000)
               + TWO128 * Pack(t2, 0x400_0000, t3, 0x200_0000) + TWO192 * Pack(t3, 0x80_0000_0000, t4, 0x1000)
  {
    hide Pack;
    PackLow(t0, t1);
    PackMid(t1, t2);
    PackMid'(t2, t3);
    PackTop(t3, t4);
  }

  method StoreWords(s: array<u8>, w0: u64, w1: u64, w2: u64, w3: u64)
    requires s.Length == 32
    modifies s
    ensures LittleEndian(s[..]) == w0 + TWO64 * w1 + TWO128 * w2 + TWO192 * w3
  {
    hide LittleEndian;
    StoreWord(s, 0, w0);
    ghost var b0 := s[0..8];
    StoreWord(s, 8, w1);
    assert s[0..8] == b0;
    ghost var b1 := s[8..16];
    StoreWord(s, 16, w2);
    assert s[0..8] == b0 && s[8..16] == b1;
    ghost var b2 := s[16..24];
    StoreWord(s, 24, w3);
    assert s[..][0..8] == s[0..8] == b0;
    assert s[..][8..16] == s[8..16] == b1;
    assert s[..][16..24] == s[16..24] == b2;
    assert s[..][24..32] == s[24..32];
    FourWords(s[..]);
  }

  method FeCopy(h: array<u64>, f: array<u64>)
    requires h.Length == f.Length == 5
    modifies h
    ensures Val(h) == old(Val(f))
    ensures forall i :: 0 <= i < 5 ==> h[i] == old(f[i])
  {
    for i := 0 to 5
      invariant forall k :: 0 <= k < i ==> h[k] == old(f[k])
      invariant forall k :: 0 <= k < 5 ==> f[k] == old(f[k])
    {
      h[i] := f[i];
    }
  }

  /** Writes the one canonical encoding of the value modulo p. */
  method FeToBytes(s: array<u8>, f: array<u64>)
    requires s.Length == 32 && f.Length == 5
    requires Within(f, 0xffff_ffff_ffff_e000)
    modifies s
    ensures LittleEndian(s[..]) == Val(f) % P
  {
    hide Val, LittleEndian, Cong, Pack;
    var t := new u64[5];
    FeCopy(t, f);
    FeCarry(t);
    CongResidue(Val(t), Val(f));
    Canonicalise(t);
    StoreLimbs(s, t);
  }

  method StoreLimbs(s: array<u8>, t: array<u64>)
    requires s.Length == 32 && t.Length == 5
    requires forall i :: 0 <= i < 5 ==> t[i] < TWO51
    modifies s
    ensures LittleEndian(s[..]) == Val(t)
  {
    hide LittleEndian, Pack;
    LimbsToWords(t[0], t[1], t[2], t[3], t[4]);
    StoreWords(s, Pack(t[0], 1, t[1], TWO51), Pack(t[1], 0x2000, t[2], 0x40_0000_0000),
               Pack(t[2], 0x400_0000, t[3], 0x200_0000), Pack(t[3], 0x80_0000_0000, t[4], 0x1000));
  }

  lemma {:induction false} AllZero(s: bytes)
    ensures (LittleEndian(s) == 0) <==> forall i :: 0 <= i < |s| ==> s[i] == 0
  {
    if s != [] {
      AllZero(s[1..]);
      assert s == [s[0]] + s[1..];
    }
  }

  method FeIsZero(f: array<u64>) returns (zero: bool)
    requires f.Length == 5 && Within(f, 0xffff_ffff_ffff_e000)
    ensures zero <==> Cong(Val(f), 0)
  {
    hide Val, LittleEndian, Or;
    var s := new u8[32];
    FeToBytes(s, f);
    ghost var b := s[..];
    AllZero(b);
    var acc: nat := 0;
    for i := 0 to 32
      invariant s[..] == b
      invariant acc == 0 <==> forall k :: 0 <= k < i ==> b[k] == 0
    {
      OrIsZero(acc, s[i]);
      acc := Or(acc, s[i]);
    }
    CongResidue(Val(f), 0);
    zero := acc == 0;
  }

  /** The sign of a field element is the parity of its canonical residue. */
  method FeIsNegative(f: array<u64>) returns (negative: bool)
    requires f.Length == 5 && Within(f, 0xffff_ffff_ffff_e000)
    ensures negative <==> Val(f) % P % 2 == 1
  {
    hide Val;
    var s := new u8[32];
    FeToBytes(s, f);
    assert s[..] == [s[0]] + s[1..];
    negative := s[0] % 2 != 0;
  }

  method FeEqual(a: array<u64>, b: array<u64>) returns (equal: bool)
    requires a.Length == b.Length == 5
    requires Within(a, 0xffff_ffff_ffff_e000) && Within(b, 0xffff_ffff_ffff_e000)
    ensures equal <==> Cong(Val(a), Val(b))
  {
    hide Val, LittleEndian, Cong;
    var x, y := new u8[32], new u8[32];
    FeToBytes(x, a);
    FeToBytes(y, b);
    CongResidue(Val(a), Val(b));
    if LittleEndian(x[..]) == LittleEndian(y[..]) {
      LittleEndianInjective(x[..], y[..]);
    }
    equal := x[..] == y[..];
  }
}
