/** Arithmetic modulo L, the order of the base point's subgroup. */
module Scalars {
  import opened Words
  import opened Bits
  import opened Limbs32

  const L := 7237005577332262213973186563042994240857116359379907606001950938285454250989
  const KL: seq<u32> := [0x5cf5d3ed, 0x5812631a, 0xa2f79cd6, 0x14def9de, 0, 0, 0, 0x1000_0000]
  const TWO512 := TWO256 * TWO256

  // ---- compare and subtract ----

  /** One limb of a subtraction: the 64-bit difference gives digit and borrow. */
  method SubLimb(a: u32, b: u32, borrow: u32) returns (digit: u32, borrow': u32)
    requires borrow <= 1
    ensures borrow' <= 1 && a - b - borrow == digit - TWO32 * borrow'
  {
    var d: u64 := (a - b - borrow + TWO64) % TWO64;
    digit := d % TWO32;
    borrow' := d / 0x8000_0000_0000_0000 % 2;
  }

  lemma PlaceNext(n: nat)
    ensures Place(n + 1) == TWO32 * Place(n)
  {
  }

  /** t is v - sub on the limbs read so far, owing `k` at the next place. */
  ghost predicate Owes(v: seq<u32>, sub: seq<u32>, t: seq<u32>, k: int) {
    |v| == |sub| == |t| && Value(v) - Value(sub) == Value(t) - Place(|v|) * k
  }

  lemma BorrowStep(e: int, a: int, b: int, c: int, x: int, y: int, z: int, k: int, k': int)
    requires a - b == c - e * k && x - y - k == z - TWO32 * k'
    ensures (a + e * x) - (b + e * y) == (c + e * z) - (TWO32 * e) * k'
  {
    assert e * (x - y - k) == e * x - e * y - e * k;
    assert e * (z - TWO32 * k') == e * z - (TWO32 * e) * k';
  }

  lemma OwesStep(v: seq<u32>, sub: seq<u32>, t: seq<u32>, k: int, x: u32, y: u32, z: u32, k': int)
    requires Owes(v, sub, t, k) && x - y - k == z - TWO32 * k'
    ensures Owes(v + [x], sub + [y], t + [z], k')
  {
    hide Value, Place;
    PlaceNext(|v|);
    ValueAppend(v, x);
    ValueAppend(sub, y);
    ValueAppend(t, z);
    BorrowStep(Place(|v|), Value(v), Value(sub), Value(t), x, y, z, k, k');
  }

  lemma OwesNothing()
    ensures Owes([], [], [], 0)
  {
  }

  /** A final borrow means the subtrahend was larger. */
  lemma OwesEnd(v: seq<u32>, sub: seq<u32>, t: seq<u32>, k: int)
    requires Owes(v, sub, t, k) && 0 <= k <= 1
    ensures k == 0 <==> Value(v) >= Value(sub)
    ensures k == 0 ==> Value(t) == Value(v) - Value(sub)
  {
    hide Value, Place;
    ValueBound(t);
    if k == 1 {
      assert Place(|v|) * k == Place(|v|);
    }
  }

  method TrySub(v: array<u32>, sub: array<u32>) returns (ok: bool)
    requires v.Length == sub.Length == 16 && v != sub
    modifies v
    ensures ok <==> old(Value(v[..])) >= Value(sub[..])
    ensures Value(v[..]) == if ok then old(Value(v[..])) - Value(sub[..]) else old(Value(v[..]))
  {
    hide Value, Place, Owes;
    var tmp, borrow := Difference(v, sub);
    OwesEnd(v[..], sub[..], tmp[..], borrow);
    if borrow != 0 {
      return false;
    }
    CopyLimbs(v, tmp);
    return true;
  }

  method CopyLimbs(v: array<u32>, tmp: array<u32>)
    requires v.Length == tmp.Length && v != tmp
    modifies v
    ensures v[..] == tmp[..]
  {
    for i := 0 to v.Length
      invariant tmp[..] == old(tmp[..])
      invariant v[..i] == tmp[..i]
    {
      v[i] := tmp[i];
    }
  }

  method Difference(v: array<u32>, sub: array<u32>) returns (tmp: array<u32>, borrow: u32)
    requires v.Length == sub.Length == 16
    ensures fresh(tmp) && tmp.Length == 16 && borrow <= 1
    ensures Owes(v[..], sub[..], tmp[..], borrow)
  {
    hide Owes;
    tmp := new u32[16];
    borrow := 0;
    OwesNothing();
    for i := 0 to 16
      invariant borrow <= 1 && Owes(v[..i], sub[..i], tmp[..i], borrow)
    {
      var digit, borrow' := SubLimb(v[i], sub[i], borrow);
      ghost var before := tmp[..i];
      OwesStep(v[..i], sub[..i], before, borrow, v[i], sub[i], digit, borrow');
      tmp[i] := digit;
      assert v[..i + 1] == v[..i] + [v[i]] && sub[..i + 1] == sub[..i] + [sub[i]];
      assert tmp[..i + 1] == before + [digit];
      borrow := borrow';
    }
    assert v[..16] == v[..] && sub[..16] == sub[..] && tmp[..16] == tmp[..];
  }

  // ---- shifts ----

  /** t is twice v on the limbs read so far, with `k` still to carry. */
  ghost predicate Doubles(v: seq<u32>, t: seq<u32>, k: int) {
    |v| == |t| && 2 * Value(v) == Value(t) + Place(|v|) * k
  }

  lemma DoublesStep(v: seq<u32>, t: seq<u32>, k: int, x: u32, z: u32, k': int)
    requires Doubles(v, t, k) && 2 * x + k == z + TWO32 * k'
    ensures Doubles(v + [x], t + [z], k')
  {
    hide Value, Place;
    PlaceNext(|v|);
    ValueAppend(v, x);
    ValueAppend(t, z);
    CarryStep(Place(|v|), 2 * Value(v), Value(t), 2 * x, z, k, k');
    assert Place(|v|) * (2 * x) == 2 * (Place(|v|) * x);
  }

  lemma CarryStep(e: int, a: int, c: int, x: int, z: int, k: int, k': int)
    requires a == c + e * k && x + k == z + TWO32 * k'
    ensures a + e * x == (c + e * z) + (TWO32 * e) * k'
  {
    assert e * (x + k) == e * x + e * k;
    assert e * (z + TWO32 * k') == e * z + (TWO32 * e) * k';
  }

  lemma DoublesNothing()
    ensures Doubles([], [], 0)
  {
  }

  lemma OrLowBit(a: nat, c: nat)
    requires a % 2 == 0 && c <= 1
    ensures Or(a, c) == a + c
  {
    assert Pow2(1) == 2;
    hide Or, Pow2;
    OrDisjoint(c, a / 2, 1);
  }

  method ShiftLeft(v: array<u32>)
    requires v.Length == 16
    modifies v
    ensures Value(v[..]) == 2 * old(Value(v[..])) % Place(16)
  {
    hide Doubles, Or;
    var carry: u32 := 0;
    DoublesNothing();
    for i := 0 to 16
      invariant carry <= 1 && Doubles(old(v[..i]), v[..i], carry)
      invariant v[i..] == old(v[i..])
    {
      var next: u32 := v[i] / 0x8000_0000;
      var x: u32 := v[i];
      OrLowBit(x * 2 % TWO32, carry);
      ghost var before := v[..i];
      v[i] := Or(x * 2 % TWO32, carry);
      DoublesStep(old(v[..i]), before, carry, x, v[i], next);
      assert old(v[..i + 1]) == old(v[..i]) + [x] && v[..i + 1] == before + [v[i]];
      carry := next;
    }
    assert old(v[..16]) == old(v[..]) && v[..16] == v[..];
    DoublesEnd(old(v[..]), v[..], carry);
  }

  /** A shifted-out bit is lost, and nothing else. */
  lemma DoublesEnd(v: seq<u32>, t: seq<u32>, k: int)
    requires Doubles(v, t, k)
    ensures Value(t) == 2 * Value(v) % Place(|v|)
  {
    hide Value, Place;
    ValueBound(t);
    DivModUnique(2 * Value(v), Place(|v|), k, Value(t));
  }

  /** t is half of v on the high limbs read so far, with remainder `k`. */
  ghost predicate Halves(v: seq<u32>, t: seq<u32>, k: int) {
    |v| == |t| && Value(v) == 2 * Value(t) + k
  }

  lemma HalvesStep(v: seq<u32>, t: seq<u32>, k: int, x: u32, z: u32, k': int)
    requires Halves(v, t, k) && x + TWO32 * k == 2 * z + k'
    ensures Halves([x] + v, [z] + t, k')
  {
    assert ([x] + v)[1..] == v && ([z] + t)[1..] == t;
  }

  lemma OrHighBit(a: nat, c: nat)
    requires a < 0x8000_0000
    ensures Or(a, 0x8000_0000 * c) == a + 0x8000_0000 * c
  {
    hide Or, Pow2;
    TwoTo31();
    OrDisjoint(a, c, 31);
  }

  lemma TwoTo31()
    ensures Pow2(31) == 0x8000_0000
  {
    assert Pow2(15) == 0x8000 && Pow2(16) == 0x1_0000;
    hide Pow2;
    Pow2Add(15, 16);
  }

  method ShiftRight(m: array<u32>)
    requires m.Length == 16
    modifies m
    ensures Value(m[..]) == old(Value(m[..])) / 2
  {
    assert Halves([], [], 0);
    hide Halves, Or;
    var carry: u32 := 0;
    var j := 16;
    while j > 0
      invariant 0 <= j <= 16 && carry <= 1 && Halves(old(m[j..]), m[j..], carry)
      invariant m[..j] == old(m[..j])
    {
      j := j - 1;
      var x: u32 := m[j];
      var next: u32 := x % 2;
      OrHighBit(x / 2, carry);
      ghost var before := m[j + 1..];
      m[j] := Or(x / 2, 0x8000_0000 * carry);
      HalvesStep(old(m[j + 1..]), before, carry, x, m[j], next);
      assert old(m[j..]) == [x] + old(m[j + 1..]) && m[j..] == [m[j]] + before;
      carry := next;
    }
    assert old(m[0..]) == old(m[..]) && m[0..] == m[..];
    HalvesEnd(old(m[..]), m[..], carry);
  }

  lemma HalvesEnd(v: seq<u32>, t: seq<u32>, k: int)
    requires Halves(v, t, k) && 0 <= k <= 1
    ensures Value(t) == Value(v) / 2
  {
  }

  // ---- reduction ----

  const TWO256 := 115792089237316195423570985008687907853269984665640564039457584007913129639936
  const TWO259 := 926336713898529563388567880069503262826159877325124512315660672063305037119488

  lemma Places()
    ensures Place(8) == TWO256 && Place(16) == TWO512
  {
    assert Place(4) == 0x1_0000_0000_0000_0000_0000_0000_0000_0000;
    hide Place;
    PlaceAdd(4, 4);
    PlaceAdd(8, 8);
  }

  lemma {:induction false} PlaceAdd(m: nat, n: nat)
    ensures Place(m + n) == Place(m) * Place(n)
  {
    if m != 0 {
      PlaceAdd(m - 1, n);
      ScaleProduct(TWO32, Place(m - 1), Place(n));
    }
  }

  lemma TwoTo259()
    ensures Pow2(259) == TWO259
  {
    assert Pow2(16) == 0x1_0000 && Pow2(3) == 8;
    hide Pow2;
    Pow2Product(16, 16, 0x1_0000, 0x1_0000);
    Pow2Product(32, 32, TWO32, TWO32);
    Pow2Product(64, 64, TWO64, TWO64);
    Pow2Product(128, 128, TWO64 * TWO64, TWO64 * TWO64);
    Pow2Product(256, 3, TWO256, 8);
  }

  lemma ModulusLimbs(m: seq<u32>)
    requires |m| == 16 && m[..8] == KL && forall i :: 8 <= i < 16 ==> m[i] == 0
    ensures Value(m) == L
  {
    hide Value, Place;
    assert m == m[..8] + m[8..];
    ValueConcat(KL, m[8..]);
    ValueZeros(m[8..]);
    ModulusValue();
  }

  lemma ValueStep(s: seq<u32>, r: nat)
    requires |s| > 0 && Value(s[1..]) == r
    ensures Value(s) == s[0] + TWO32 * r
  {
  }

  lemma ModulusValue()
    ensures Value(KL) == L
  {
    assert KL[8..] == [] && Value(KL[8..]) == 0;
    hide Value;
    ModulusFrom(7, 0);
    ModulusFrom(6, 0x1000_0000);
    ModulusFrom(5, 0x1000_0000_0000_0000);
    ModulusFrom(4, 0x1000_0000_0000_0000_0000_0000);
    ModulusFrom(3, 0x1000_0000_0000_0000_0000_0000_0000_0000);
    ModulusFrom(2, 0x1000_0000_0000_0000_0000_0000_0000_0000_14de_f9de);
    ModulusFrom(1, 0x1000_0000_0000_0000_0000_0000_0000_0000_14de_f9de_a2f7_9cd6);
    ModulusFrom(0, 0x1000_0000_0000_0000_0000_0000_0000_0000_14de_f9de_a2f7_9cd6_5812_631a);
    assert KL[0..] == KL;
  }

  lemma ModulusFrom(i: nat, r: nat)
    requires i < 8 && Value(KL[i + 1..]) == r
    ensures Value(KL[i..]) == KL[i] + TWO32 * r
  {
    assert KL[i..][1..] == KL[i + 1..];
    ValueStep(KL[i..], r);
  }

  /** m = L shifted to the top of 512 bits, with nothing shifted out. */
  method TopModulus() returns (m: array<u32>)
    ensures fresh(m) && m.Length == 16 && Value(m[..]) == L * Pow2(259)
  {
    m := PaddedModulus();
    assert Pow2(0) == 1;
    hide Value, Place, Pow2;
    for i := 0 to 259
      invariant Value(m[..]) == L * Pow2(i)
    {
      ModulusFits(i);
      ShiftLeft(m);
    }
  }

  method PaddedModulus() returns (m: array<u32>)
    ensures fresh(m) && m.Length == 16 && Value(m[..]) == L
  {
    m := new u32[16](i => 0);
    for i := 0 to 8
      invariant forall k :: 0 <= k < i ==> m[k] == KL[k]
      invariant forall k :: i <= k < 16 ==> m[k] == 0
    {
      m[i] := KL[i];
    }
    assert m[..][..8] == KL;
    ModulusLimbs(m[..]);
  }

  lemma ModulusFits(i: nat)
    requires i < 259
    ensures 2 * (L * Pow2(i)) % Place(16) == L * Pow2(i + 1)
  {
    assert Pow2(i + 1) == 2 * Pow2(i);
    hide Pow2, Place;
    Pow2Monotone(i + 1, 259);
    TwoTo259();
    Places();
  }

  /** After i rounds: n = v + L q, v is below twice the next shifted modulus, and m is that modulus. */
  ghost predicate Dividing(n: int, v: int, m: int, q: int, i: nat) {
    && i <= 260 && n == v + L * q && 0 <= v
    && (i < 260 ==> m == L * Pow2(259 - i) && v < 2 * m)
    && (i == 260 ==> v < L)
  }

  lemma DividingStart(n: int)
    requires 0 <= n < TWO512
    ensures Dividing(n, n, L * Pow2(259), 0, 0)
  {
    hide Pow2;
    TwoTo259();
  }

  lemma DividingStep(n: int, v: int, m: int, q: int, i: nat, v': int) returns (q': int)
    requires Dividing(n, v, m, q, i) && i < 260
    requires v' == if v >= m then v - m else v
    ensures Dividing(n, v', m / 2, q', i + 1)
  {
    q' := if v >= m then q + Pow2(259 - i) else q;
    if i < 259 {
      assert Pow2(259 - i) == 2 * Pow2(258 - i);
    } else {
      assert Pow2(0) == 1;
    }
  }

  lemma DividingEnd(n: int, v: int, m: int, q: int)
    requires Dividing(n, v, m, q, 260)
    ensures v == n % L
  {
  }

  method DivideDown(v: array<u32>)
    requires v.Length == 16
    modifies v
    ensures Value(v[..]) == old(Value(v[..])) % L
  {
    var m := TopModulus();
    hide Value, Place, Pow2, Dividing;
    ghost var n, q := Value(v[..]), 0;
    ValueBound(v[..]);
    Places();
    DividingStart(n);
    for i := 0 to 260
      invariant Dividing(n, Value(v[..]), Value(m[..]), q, i)
    {
      ghost var before := Value(v[..]);
      ghost var modulus := Value(m[..]);
      var subtracted := TrySub(v, m);
      q := DividingStep(n, before, modulus, q, i, Value(v[..]));
      ShiftRight(m);
    }
    DividingEnd(n, Value(v[..]), Value(m[..]), q);
  }

  method LoadLimbs(s: array<u8>, n: nat) returns (v: array<u32>)
    requires s.Length == 4 * n
    ensures fresh(v) && v.Length == n && Value(v[..]) == LittleEndian(s[..])
  {
    hide LittleEndian, Value;
    v := new u32[n];
    for i := 0 to n
      invariant forall k :: 0 <= k < i ==> v[k] == LimbAt(s[..], k)
    {
      v[i] := Load32(s, i);
    }
    SpelledValue(s[..], v[..]);
  }

  lemma HighLimbsZero(v: seq<u32>)
    requires |v| == 16 && Value(v) < L
    ensures Value(v[..8]) == Value(v)
  {
    hide Value, Place;
    assert v == v[..8] + v[8..];
    ValueConcat(v[..8], v[8..]);
    Places();
  }

  method ZeroBytes(s: array<u8>)
    modifies s
    ensures forall k :: 0 <= k < s.Length ==> s[k] == 0
  {
    for i := 0 to s.Length
      invariant forall k :: 0 <= k < i ==> s[k] == 0
    {
      s[i] := 0;
    }
  }

  lemma ZerosSpelled(s: bytes)
    requires |s| == 64 && forall k :: 0 <= k < 64 ==> s[k] == 0
    ensures Spells(s, seq(16, i => 0))
  {
  }

  /** Writes eight limbs over the low half of a zeroed buffer. */
  method StoreLow(s: array<u8>, v: array<u32>)
    requires s.Length == 64 && v.Length == 16
    modifies s
    ensures LittleEndian(s[..]) == Value(v[..8])
    ensures forall k :: 32 <= k < 64 ==> s[k] == 0
  {
    hide LittleEndian, Value, Spells, LimbAt;
    ZeroBytes(s);
    ghost var w: seq<u32> := seq(16, i => 0);
    ZerosSpelled(s[..]);
    for i := 0 to 8
      invariant |w| == 16 && Spells(s[..], w)
      invariant w[..i] == v[..i]
      invariant forall k :: i <= k < 16 ==> w[k] == 0
      invariant forall k :: 32 <= k < 64 ==> s[k] == 0
    {
      ghost var before := s[..];
      Store32(s, i, v[i]);
      SpellsStored(before, s[..], w, i, v[i]);
      w := w[i := v[i]];
    }
    SpelledValue(s[..], w);
    PaddedValue(w, v[..8]);
  }

  lemma PaddedValue(w: seq<u32>, lo: seq<u32>)
    requires |w| == 16 && |lo| == 8 && w[..8] == lo && forall k :: 8 <= k < 16 ==> w[k] == 0
    ensures Value(w) == Value(lo)
  {
    hide Value, Place;
    assert w == lo + w[8..];
    ValueConcat(lo, w[8..]);
    ValueZeros(w[8..]);
  }

  /** The 64-byte number modulo L, left in the low half. */
  method ScReduce(s: array<u8>)
    requires s.Length == 64
    modifies s
    ensures LittleEndian(s[..]) == old(LittleEndian(s[..])) % L
    ensures forall k :: 32 <= k < 64 ==> s[k] == 0
  {
    hide LittleEndian, Value;
    var v := LoadLimbs(s, 16);
    DivideDown(v);
    HighLimbsZero(v[..]);
    StoreLow(s, v);
  }

  // ---- multiply and add ----

  /** One row of the product: `t` is `v` plus a * b on the columns done, with `k` to carry. */
  ghost predicate RowSoFar(v: seq<nat>, b: seq<nat>, a: int, t: seq<nat>, k: int) {
    |v| == |b| == |t| && Value(t) + Place(|v|) * k == Value(v) + a * Value(b)
  }

  lemma RowStep(v: seq<nat>, b: seq<nat>, a: int, t: seq<nat>, k: int, x: nat, y: nat, z: nat, k': int)
    requires RowSoFar(v, b, a, t, k) && x + a * y + k == z + TWO32 * k'
    ensures RowSoFar(v + [x], b + [y], a, t + [z], k')
  {
    hide Value, Place;
    PlaceNext(|v|);
    ValueAppend(v, x);
    ValueAppend(b, y);
    ValueAppend(t, z);
    CarryStep(Place(|v|), Value(v) + a * Value(b), Value(t), x + a * y, z, k, k');
    RowAlgebra(Place(|v|), a, x, y, Value(b));
  }

  lemma RowAlgebra(e: int, a: int, x: int, y: int, b: int)
    ensures e * (x + a * y) == e * x + a * (e * y)
    ensures a * (b + e * y) == a * b + a * (e * y)
  {
  }

  lemma RowNothing(a: int)
    ensures RowSoFar([], [], a, [], 0)
  {
  }

  lemma MulAddFits(x: nat, a: nat, y: nat, k: nat)
    requires x < TWO32 && a < TWO32 && y < TWO32 && k < TWO32
    ensures 0 <= a * y && x + a * y + k < TWO64
  {
    MulBound(a, y, TWO32 - 1, TWO32 - 1);
  }

  /** prod[i + j] += a * b[j] for every j; no 64-bit step overflows. */
  method AddRow(prod: array<u64>, i: nat, a: u32, bv: array<u32>)
    requires prod.Length == 16 && bv.Length == 8 && i < 8
    requires forall k :: 0 <= k < 16 ==> prod[k] < TWO32
    requires prod[i + 8] == 0
    modifies prod
    ensures forall k :: 0 <= k < 16 ==> prod[k] < TWO32
    ensures forall k :: 0 <= k < 16 && !(i <= k <= i + 8) ==> prod[k] == old(prod[k])
    ensures RowSoFar(old(prod[i..i + 8]), bv[..], a, prod[i..i + 8], prod[i + 8])
  {
    hide RowSoFar;
    var carry: u64 := 0;
    RowNothing(a);
    assert old(prod[i..i + 0]) == [] && bv[..0] == [] && prod[i..i + 0] == [];
    for j := 0 to 8
      invariant carry < TWO32
      invariant forall k :: 0 <= k < 16 ==> prod[k] < TWO32
      invariant forall k :: 0 <= k < 16 && !(i <= k < i + j) ==> prod[k] == old(prod[k])
      invariant RowSoFar(old(prod[i..i + j]), bv[..j], a, prod[i..i + j], carry)
    {
      ghost var before, x := prod[i..i + j], prod[i + j];
      MulAddFits(prod[i + j], a, bv[j], carry);
      var t: u64 := MulAccumulate(prod[i + j], a, bv[j], carry);
      prod[i + j] := t % TWO32;
      RowStep(old(prod[i..i + j]), bv[..j], a, before, carry, x, bv[j], t % TWO32, t / TWO32);
      assert old(prod[i..i + j + 1]) == old(prod[i..i + j]) + [x];
      assert bv[..j + 1] == bv[..j] + [bv[j]];
      assert prod[i..i + j + 1] == before + [t % TWO32];
      carry := t / TWO32;
    }
    assert bv[..8] == bv[..];
    ghost var row := prod[i..i + 8];
    prod[i + 8] := prod[i + 8] + carry;
    assert prod[i..i + 8] == row;
  }

  function MulAccumulate(x: int, a: int, y: int, k: int): int {
    x + a * y + k
  }

  lemma RowDone(v: seq<nat>, t: seq<nat>, i: nat, a: int, b: seq<nat>)
    requires |v| == |t| == 16 && i < 8 && |b| == 8
    requires RowSoFar(v[i..i + 8], b, a, t[i..i + 8], t[i + 8])
    requires t[..i] == v[..i] && v[i + 8] == 0
    requires forall k :: i + 8 < k < 16 ==> v[k] == 0 && t[k] == 0
    ensures Value(t) == Value(v) + Place(i) * (a * Value(b))
  {
    hide Value, Place;
    ThreeParts(v, i);
    ThreeParts(t, i);
    assert Place(8) * v[i + 8] == 0;
    var x, y := Value(v[i..i + 8]), Value(t[i..i + 8]);
    RowPlace(Place(i), x, y + Place(8) * t[i + 8], a * Value(b));
  }

  lemma RowPlace(e: int, x: int, y: int, r: int)
    requires y == x + r
    ensures e * y == e * x + e * r
  {
  }

  lemma OnlyFirst(s: seq<nat>)
    requires |s| > 0 && forall k :: 1 <= k < |s| ==> s[k] == 0
    ensures Value(s) == s[0]
  {
    ValueZeros(s[1..]);
  }

  lemma ThreeParts(v: seq<nat>, i: nat)
    requires |v| == 16 && i < 8 && forall k :: i + 8 < k < 16 ==> v[k] == 0
    ensures Value(v) == Value(v[..i]) + Place(i) * (Value(v[i..i + 8]) + Place(8) * v[i + 8])
  {
    hide Value, Place;
    var top := v[i + 8..];
    assert v == v[..i] + v[i..];
    ValueConcat(v[..i], v[i..]);
    assert v[i..] == v[i..i + 8] + top;
    ValueConcat(v[i..i + 8], top);
    OnlyFirst(top);
  }

  method Multiply(av: array<u32>, bv: array<u32>) returns (prod: array<u64>)
    requires av.Length == bv.Length == 8
    ensures fresh(prod) && prod.Length == 16 && forall k :: 0 <= k < 16 ==> prod[k] < TWO32
    ensures Value(prod[..]) == Value(av[..]) * Value(bv[..])
  {
    prod := new u64[16](i => 0);
    assert Value([]) == 0;
    ValueZeros(prod[..]);
    hide Value, Place, RowSoFar;
    for i := 0 to 8
      invariant forall k :: 0 <= k < 16 ==> prod[k] < TWO32
      invariant forall k :: i + 8 <= k < 16 ==> prod[k] == 0
      invariant Value(prod[..]) == Value(av[..i]) * Value(bv[..])
    {
      ghost var before := prod[..];
      assert before[i..i + 8] == prod[i..i + 8];
      AddRow(prod, i, av[i], bv);
      assert prod[..][i..i + 8] == prod[i..i + 8] && prod[..][..i] == before[..i];
      MultiplyStep(before, prod[..], i, av[..], bv[..]);
    }
    assert av[..8] == av[..];
  }

  lemma MultiplyStep(v: seq<nat>, t: seq<nat>, i: nat, a: seq<nat>, b: seq<nat>)
    requires |v| == |t| == 16 && |a| == |b| == 8 && i < 8
    requires RowSoFar(v[i..i + 8], b, a[i], t[i..i + 8], t[i + 8])
    requires t[..i] == v[..i] && v[i + 8] == 0
    requires forall k :: i + 8 < k < 16 ==> v[k] == 0 && t[k] == 0
    requires Value(v) == Value(a[..i]) * Value(b)
    ensures Value(t) == Value(a[..i + 1]) * Value(b)
  {
    hide Value, Place, RowSoFar;
    RowDone(v, t, i, a[i], b);
    assert a[..i + 1] == a[..i] + [a[i]];
    ValueAppend(a[..i], a[i]);
    ScaleProduct(Place(i), a[i], Value(b));
    Distribute(Value(a[..i]), Place(i) * a[i], Value(b));
  }

  lemma Distribute(x: int, y: int, z: int)
    ensures (x + y) * z == x * z + y * z
  {
  }

  /** Adding c: `t` is `v` plus `c` on the limbs done, with `k` to carry. */
  ghost predicate SumSoFar(v: seq<nat>, c: int, t: seq<nat>, k: int) {
    |v| == |t| && Value(t) + Place(|v|) * k == Value(v) + c
  }

  lemma SumStep(v: seq<nat>, c: int, t: seq<nat>, k: int, x: nat, y: nat, z: nat, k': int)
    requires SumSoFar(v, c, t, k) && x + y + k == z + TWO32 * k'
    ensures SumSoFar(v + [x], c + Place(|v|) * y, t + [z], k')
  {
    hide Value, Place;
    PlaceNext(|v|);
    ValueAppend(v, x);
    ValueAppend(t, z);
    CarryStep(Place(|v|), Value(v) + c, Value(t), x + y, z, k, k');
    assert Place(|v|) * (x + y) == Place(|v|) * x + Place(|v|) * y;
  }

  lemma SumNothing()
    ensures SumSoFar([], 0, [], 0)
  {
  }

  /** Adds x and the carry to limb i of the spelled number. */
  method AddLimb(wide: array<u8>, i: nat, x: u32, carry: u32, ghost w: seq<u32>)
    returns (z: u32, carry': u32)
    requires wide.Length == 64 && i < 16 && |w| == 16 && Spells(wide[..], w) && carry <= 1
    modifies wide
    ensures carry' <= 1 && w[i] + x + carry == z + TWO32 * carry' && Spells(wide[..], w[i := z])
  {
    var y := Load32(wide, i);
    assert y == w[i];
    var t: u64 := Sum3(y, x, carry);
    z, carry' := t % TWO32, t / TWO32;
    hide LimbAt;
    ghost var before := wide[..];
    Store32(wide, i, z);
    SpellsStored(before, wide[..], w, i, z);
  }

  /** The low eight limbs take c; returns the carry out of them. */
  method AddLow(wide: array<u8>, c: array<u8>, ghost w: seq<u32>, ghost cw: seq<u32>)
    returns (carry: u32, ghost w': seq<u32>)
    requires wide.Length == 64 && c.Length == 32
    requires |w| == 16 && |cw| == 8 && Spells(wide[..], w) && Spells(c[..], cw)
    modifies wide
    ensures carry <= 1 && |w'| == 16 && Spells(wide[..], w') && w'[8..] == w[8..]
    ensures SumSoFar(w[..8], Value(cw), w'[..8], carry)
  {
    carry := 0;
    w' := w;
    SumNothing();
    assert Value([]) == 0;
    hide SumSoFar, LimbAt, Value, Place;
    assert w[..0] == [] && cw[..0] == [];
    for i := 0 to 8
      invariant carry <= 1 && |w'| == 16 && Spells(wide[..], w') && w'[i..] == w[i..]
      invariant SumSoFar(w[..i], Value(cw[..i]), w'[..i], carry)
    {
      var x := Load32(c, i);
      assert x == cw[i];
      ghost var done, k := w'[..i], carry;
      var z;
      z, carry := AddLimb(wide, i, x, carry, w');
      SumStep(w[..i], Value(cw[..i]), done, k, w[i], x, z, carry);
      ValueAppend(cw[..i], cw[i]);
      w' := w'[i := z];
      assert w[..i + 1] == w[..i] + [w[i]] && cw[..i + 1] == cw[..i] + [cw[i]] && w'[..i + 1] == done + [z];
    }
    assert cw[..8] == cw;
  }

  function Sum3(a: int, b: int, c: int): int {
    a + b + c
  }

  /** The carry ripples into the high limbs until it dies. */
  method RippleHigh(wide: array<u8>, start: u32, ghost w: seq<u32>, ghost v: seq<u32>, ghost c: int)
    returns (ghost w': seq<u32>)
    requires wide.Length == 64 && start <= 1 && |w| == |v| == 16 && Spells(wide[..], w)
    requires w[8..] == v[8..] && SumSoFar(v[..8], c, w[..8], start)
    requires Value(v) + c < TWO512
    modifies wide
    ensures |w'| == 16 && Spells(wide[..], w') && Value(w') == Value(v) + c
  {
    hide SumSoFar, LimbAt, Value, Place;
    var carry: u32 := start;
    w' := w;
    var i := 8;
    while i < 16 && carry != 0
      invariant 8 <= i <= 16 && carry <= 1 && |w'| == 16 && Spells(wide[..], w') && w'[i..] == v[i..]
      invariant SumSoFar(v[..i], c, w'[..i], carry)
    {
      ghost var done, k := w'[..i], carry;
      var z;
      z, carry := AddLimb(wide, i, 0, carry, w');
      SumStep(v[..i], c, done, k, v[i], 0, z, carry);
      w' := w'[i := z];
      assert v[..i + 1] == v[..i] + [v[i]] && w'[..i + 1] == done + [z];
      i := i + 1;
    }
    SumEnd(v, c, w', i, carry);
  }

  lemma SumEnd(v: seq<u32>, c: int, t: seq<u32>, i: nat, k: int)
    requires |v| == |t| == 16 && i <= 16 && t[i..] == v[i..] && SumSoFar(v[..i], c, t[..i], k) && 0 <= k
    requires i == 16 || k == 0
    requires Value(v) + c < TWO512
    ensures Value(t) == Value(v) + c
  {
    hide Value, Place;
    assert v == v[..i] + v[i..] && t == t[..i] + t[i..];
    ValueConcat(v[..i], v[i..]);
    ValueConcat(t[..i], t[i..]);
    if k != 0 {
      Places();
      assert v[..16] == v && t[..16] == t;
      MulAtLeast(Place(16), k);
      assert false;
    }
  }

  method StoreProduct(prod: array<u64>) returns (wide: array<u8>, ghost w: seq<u32>)
    requires prod.Length == 16 && forall k :: 0 <= k < 16 ==> prod[k] < TWO32
    ensures fresh(wide) && wide.Length == 64 && |w| == 16 && Spells(wide[..], w)
    ensures Value(w) == Value(prod[..])
  {
    wide := new u8[64](i => 0);
    w := seq(16, i => 0);
    ZerosSpelled(wide[..]);
    hide Spells, LimbAt, Value;
    for i := 0 to 16
      invariant |w| == 16 && Spells(wide[..], w)
      invariant forall k :: 0 <= k < i ==> w[k] == prod[k]
    {
      ghost var before := wide[..];
      Store32(wide, i, prod[i]);
      SpellsStored(before, wide[..], w, i, prod[i]);
      w := w[i := prod[i]];
    }
    SameLimbs(w, prod[..]);
  }

  lemma {:induction false} SameLimbs(w: seq<nat>, v: seq<nat>)
    requires |w| == |v| && forall k :: 0 <= k < |w| ==> w[k] == v[k]
    ensures Value(w) == Value(v)
  {
    if w != [] {
      SameLimbs(w[1..], v[1..]);
    }
  }

  /** Every byte string of whole limbs spells some limbs. */
  lemma SpelledBy(s: bytes, n: nat) returns (w: seq<u32>)
    requires |s| == 4 * n
    ensures |w| == n && Spells(s, w) && Value(w) == LittleEndian(s)
  {
    w := seq(n, i requires 0 <= i < n => LimbAt(s, i));
    SpelledValue(s, w);
  }

  lemma ThirtyTwoBytes(s: bytes)
    requires |s| == 32
    ensures LittleEndian(s) < TWO256
  {
    var w := SpelledBy(s, 8);
    hide Value, Place, LittleEndian;
    ValueBound(w);
    Places();
  }

  lemma ProductFits(a: nat, b: nat, c: nat)
    requires a < TWO256 && b < TWO256 && c < TWO256
    ensures a * b + c < TWO512
  {
    MulBound(a, b, TWO256 - 1, TWO256 - 1);
  }

  /** a * b + c in 64 bytes: 512 bits hold it and no carry is lost. */
  method WideMulAdd(a: array<u8>, b: array<u8>, c: array<u8>) returns (wide: array<u8>)
    requires a.Length == b.Length == c.Length == 32
    ensures fresh(wide) && wide.Length == 64
    ensures LittleEndian(wide[..]) == LittleEndian(a[..]) * LittleEndian(b[..]) + LittleEndian(c[..])
  {
    hide LittleEndian, Value, Spells, SumSoFar;
    var av := LoadLimbs(a, 8);
    var bv := LoadLimbs(b, 8);
    var prod := Multiply(av, bv);
    ghost var w;
    wide, w := StoreProduct(prod);
    ghost var cw := SpelledBy(c[..], 8);
    ThirtyTwoBytes(a[..]);
    ThirtyTwoBytes(b[..]);
    ThirtyTwoBytes(c[..]);
    ProductFits(LittleEndian(a[..]), LittleEndian(b[..]), LittleEndian(c[..]));
    var carry;
    ghost var w', w'';
    carry, w' := AddLow(wide, c, w, cw);
    w'' := RippleHigh(wide, carry, w', w, Value(cw));
    SpelledValue(wide[..], w'');
  }

  /** s = (a * b + c) mod L for all 32-byte a, b and c. */
  method ScMulAdd(s: array<u8>, a: array<u8>, b: array<u8>, c: array<u8>)
    requires s.Length == a.Length == b.Length == c.Length == 32
    modifies s
    ensures LittleEndian(s[..])
            == (old(LittleEndian(a[..])) * old(LittleEndian(b[..])) + old(LittleEndian(c[..]))) % L
  {
    hide LittleEndian;
    var wide := WideMulAdd(a, b, c);
    ScReduce(wide);
    ghost var result := wide[..];
    for i := 0 to 32
      invariant wide[..] == result
      invariant s[..i] == wide[..i]
    {
      s[i] := wide[i];
    }
    LowHalf(wide[..], s[..]);
  }

  lemma LowHalf(wide: bytes, s: bytes)
    requires |wide| == 64 && |s| == 32 && s == wide[..32] && forall k :: 32 <= k < 64 ==> wide[k] == 0
    ensures LittleEndian(s) == LittleEndian(wide)
  {
    hide LittleEndian, Pow2;
    assert wide == s + wide[32..];
    LittleEndianConcat(s, wide[32..]);
    ZeroTail(wide[32..]);
  }

  lemma {:induction false} ZeroTail(s: bytes)
    requires forall k :: 0 <= k < |s| ==> s[k] == 0
    ensures LittleEndian(s) == 0
  {
    if s != [] {
      ZeroTail(s[1..]);
    }
  }

  // ---- canonical scalars ----

  /** `(uint8_t)(w >> (8 * k))` */
  function ByteOfLimb(w: u32, k: nat): u8
    requires k < 4
  {
    if k == 0 then w % 0x100
    else if k == 1 then w / 0x100 % 0x100
    else if k == 2 then w / 0x1_0000 % 0x100
    else w / 0x100_0000 % 0x100
  }

  /** Byte i of L. */
  function ModulusByte(i: nat): u8
    requires i < 32
  {
    ByteOfLimb(KL[i / 4], i % 4)
  }

  lemma {:induction false} SmallerByByte(s: bytes, t: bytes, i: nat)
    requires |s| == |t| && i < |s| && s[i + 1..] == t[i + 1..] && s[i] < t[i]
    ensures LittleEndian(s) < LittleEndian(t)
  {
    if i == 0 {
    } else {
      assert s[1..][i..] == s[i + 1..] && t[1..][i..] == t[i + 1..];
      SmallerByByte(s[1..], t[1..], i - 1);
    }
  }

  /** Whether a 32-byte scalar is below L. */
  method ScIsReduced(s: array<u8>) returns (reduced: bool)
    requires s.Length == 32
    ensures reduced <==> LittleEndian(s[..]) < L
  {
    ghost var t := ModulusBytes();
    hide LittleEndian, ModulusByte;
    var i := 32;
    while i > 0
      invariant 0 <= i <= 32 && s[i..] == t[i..]
    {
      i := i - 1;
      var lb := ModulusByte(i);
      if s[i] < lb {
        assert s[..][i + 1..] == s[i + 1..];
        SmallerByByte(s[..], t, i);
        return true;
      }
      if s[i] > lb {
        assert s[..][i + 1..] == s[i + 1..];
        SmallerByByte(t, s[..], i);
        return false;
      }
      assert s[i..] == [s[i]] + s[i + 1..] && t[i..] == [t[i]] + t[i + 1..];
    }
    assert s[0..] == s[..] && t[0..] == t;
    return false;
  }

  lemma ModulusBytes() returns (t: bytes)
    ensures |t| == 32 && (forall i :: 0 <= i < 32 ==> t[i] == ModulusByte(i)) && LittleEndian(t) == L
  {
    t := seq(32, i requires 0 <= i < 32 => ModulusByte(i));
    hide LittleEndian, Value, ModulusByte, Join;
    forall i | 0 <= i < 8 ensures LimbAt(t, i) == KL[i] {
      ModulusLimb(i);
    }
    SpelledValue(t, KL);
    ModulusValue();
  }

  lemma ModulusLimb(i: nat)
    requires i < 8
    ensures Join(ModulusByte(4 * i), ModulusByte(4 * i + 1), ModulusByte(4 * i + 2), ModulusByte(4 * i + 3)) == KL[i]
  {
    hide Join;
    JoinBytes(KL[i]);
    assert 4 * i / 4 == (4 * i + 1) / 4 == (4 * i + 2) / 4 == (4 * i + 3) / 4 == i;
  }
}
