/** Compressed points: y in 255 bits and the parity of x in the last one. */
module PointBytes {
  import opened Words
  import opened Bits
  import opened ModP
  import opened Field
  import opened FieldBytes
  import opened FieldPow
  import opened Curve
  import opened Points

  // ---- the top byte ----

  lemma TopByte(s: bytes)
    requires |s| == 32
    ensures LittleEndian(s) == LittleEndian(s[..31]) + Pow2(248) * s[31] && LittleEndian(s[..31]) < Pow2(248)
  {
    assert s == s[..31] + [s[31]];
    assert LittleEndian([s[31]]) == s[31];
    hide LittleEndian, Pow2;
    LittleEndianConcat(s[..31], [s[31]]);
    LittleEndianBound(s[..31]);
  }

  const TWO248 := 452312848583266388373324160190187140051835877600158453279131187530910662656

  lemma TwoTo248()
    ensures Pow2(248) == TWO248
  {
    hide Pow2;
    PowersOfTwo();
    Pow2Product(64, 128, TWO64, TWO128);
    Pow2Product(56, 192, 0x100_0000_0000_0000, TWO192);
  }

  lemma TopByteValue(s: bytes)
    requires |s| == 32
    ensures LittleEndian(s) == LittleEndian(s[..31]) + TWO248 * s[31] && LittleEndian(s[..31]) < TWO248
    ensures s[31] / 0x80 == LittleEndian(s) / TWO255
  {
    hide LittleEndian, Pow2;
    TopByte(s);
    TwoTo248();
  }

  lemma SetTopBit(s: bytes, t: bytes)
    requires |s| == |t| == 32 && LittleEndian(s) < TWO255
    requires t[..31] == s[..31] && t[31] == Xor(s[31], 0x80)
    ensures LittleEndian(t) == LittleEndian(s) + TWO255
  {
    hide LittleEndian, Xor;
    TopByteValue(s);
    TopByteValue(t);
    XorTop(s[31]);
  }

  lemma XorTop(b: u8)
    requires b < 0x80
    ensures Xor(b, 0x80) == b + 0x80
  {
    hide Xor;
    assert Pow2(7) == 0x80;
    XorDisjoint(b, 1, 7);
  }

  // ---- encoding ----

  /** The number `ge_to_bytes` writes: Y/Z, and the parity of X/Z above it. */
  ghost function Encoded(p: Point): int {
    var r := Pow(p.z, P - 2);
    p.y * r % P + TWO255 * (p.x * r % P % 2)
  }

  method FeInverse(z: array<u64>) returns (r: array<u64>)
    requires z.Length == 5 && Reduced(z)
    ensures fresh(r) && r.Length == 5 && Reduced(r) && Cong(Val(r), Pow(Val(z), P - 2))
  {
    hide Val, Cong, Pow;
    r := new u64[5];
    FeInvert(r, z);
  }

  method FeProduct(f: array<u64>, g: array<u64>, ghost w: int) returns (r: array<u64>)
    requires f.Length == g.Length == 5 && Reduced(f) && Reduced(g) && Cong(Val(g), w)
    ensures fresh(r) && r.Length == 5 && Reduced(r) && Val(r) % P == Val(f) * w % P
  {
    hide Val, Cong, Reduced;
    r := new u64[5];
    FeTimes(r, f, g);
    CongScaleBoth(Val(f), Val(g), w);
    CongTrans(Val(r), Val(f) * Val(g), Val(f) * w);
    CongResidue(Val(r), Val(f) * w);
  }

  lemma ReducedFits(h: array<u64>)
    requires h.Length == 5 && Reduced(h)
    ensures Within(h, 0xffff_ffff_ffff_e000)
  {
  }

  method GeToBytes(s: array<u8>, p: Ge)
    requires s.Length == 32 && p.Shape() && p.Bounded()
    modifies s
    ensures LittleEndian(s[..]) == Encoded(p.View())
  {
    hide Val, Cong, Pow, LittleEndian, Reduced, Within, Xor;
    var recip := FeInverse(p.Z);
    ghost var w := Pow(Val(p.Z), P - 2);
    var x := FeProduct(p.X, recip, w);
    var y := FeProduct(p.Y, recip, w);
    ReducedFits(x);
    ReducedFits(y);
    FeToBytes(s, y);
    ghost var b := s[..];
    var negative := FeIsNegative(x);
    PutSign(s, negative);
  }

  /** `s[31] ^= 0x80` when the sign is set. */
  method PutSign(s: array<u8>, negative: bool)
    requires s.Length == 32 && LittleEndian(s[..]) < TWO255
    modifies s
    ensures LittleEndian(s[..]) == old(LittleEndian(s[..])) + TWO255 * (if negative then 1 else 0)
  {
    ghost var b := s[..];
    TopByteValue(b);
    hide LittleEndian, Xor;
    if negative {
      XorTop(s[31]);
      s[31] := Xor(s[31], 0x80);
      assert s[..][..31] == b[..31];
      SetTopBit(b, s[..]);
    } else {
      XorZero(s[31]);
      s[31] := Xor(s[31], 0);
      assert s[..] == b;
    }
  }

  // ---- decoding ----

  ghost function SideU(y: int): int { y * y - 1 }
  ghost function SideV(y: int): int { D * (y * y) + 1 }

  /** u v^3 (u v^7)^((p-5)/8), in the order the code multiplies. */
  ghost function Root(u: int, v: int): int {
    var v3 := v * v * v;
    Pow(v3 * v3 * v * u, (P - 5) / 8) * v3 * u
  }

  const KD: seq<u64> := [929955233495203, 466365720129213, 1662059464998953, 2033849074728123, 1442794654840575]
  const KSQRTM1: seq<u64> := [1718705420411056, 234908883556509, 2233514472574048, 2117202627021982, 765476049583133]
  const SQRTM1 := 19681161376707505956807079304988542015446066515923890162744021073123829784752

  lemma DecodingConstants()
    ensures Limbs(KD[0], KD[1], KD[2], KD[3], KD[4]) == D
    ensures Limbs(KSQRTM1[0], KSQRTM1[1], KSQRTM1[2], KSQRTM1[3], KSQRTM1[4]) == SQRTM1
    ensures Cong(SQRTM1 * SQRTM1, -1)
  {
    hide Cong;
    ConstantD();
    CongResidue(SQRTM1 * SQRTM1, -1);
  }

  method Constant(k: seq<u64>) returns (h: array<u64>)
    requires |k| == 5 && forall i :: 0 <= i < 5 ==> k[i] <= TWO51
    ensures fresh(h) && h.Length == 5 && Reduced(h) && Val(h) == Limbs(k[0], k[1], k[2], k[3], k[4])
  {
    h := new u64[5];
    Load(h, k);
  }

  method One() returns (h: array<u64>)
    ensures fresh(h) && h.Length == 5 && Reduced(h) && Val(h) == 1
  {
    h := new u64[5];
    FeConst(h, 1);
  }

  /** u = y^2 - 1 and v = d y^2 + 1. */
  method DecodeSides(y: array<u64>) returns (u: array<u64>, v: array<u64>)
    requires y.Length == 5 && Reduced(y)
    ensures fresh(u) && fresh(v) && u.Length == v.Length == 5 && Reduced(u) && Reduced(v)
    ensures Cong(Val(u), SideU(Val(y))) && Cong(Val(v), SideV(Val(y)))
  {
    hide Cong;
    DecodingConstants();
    hide Val, Reduced, Limbs;
    var d := Constant(KD);
    var one := One();
    u := new u64[5];
    v := new u64[5];
    FeTimes(u, y, y);
    ghost var sq := Val(u);
    FeTimes(v, u, d);
    ghost var dsq := Val(v);
    FeSubCarry(u, u, one);
    FeAddCarry(v, v, one);
    SidesFromSteps(Val(y), sq, dsq, Val(u), Val(v));
  }

  lemma SidesFromSteps(y: int, sq: int, dsq: int, u: int, v: int)
    requires Cong(sq, y * y) && Cong(dsq, sq * D) && Cong(u, sq - 1) && Cong(v, dsq + 1)
    ensures Cong(u, SideU(y)) && Cong(v, SideV(y))
  {
    hide Cong;
    CongRefl(1);
    CongAdd(sq, y * y, 1, 1);
    CongTrans(u, sq - 1, y * y - 1);
    CongScaleBoth(D, sq, y * y);
    CongTrans(dsq, sq * D, D * (y * y));
    CongAdd(dsq, D * (y * y), 1, 1);
    CongTrans(v, dsq + 1, D * (y * y) + 1);
  }

  method DecodeRoot(u: array<u64>, v: array<u64>) returns (x: array<u64>)
    requires u.Length == v.Length == 5 && Reduced(u) && Reduced(v)
    ensures fresh(x) && x.Length == 5 && Reduced(x) && Cong(Val(x), Root(Val(u), Val(v)))
  {
    hide Val, Cong, Pow, Reduced, Root;
    var v3 := new u64[5];
    x := new u64[5];
    FeTimes(v3, v, v);
    ghost var a := Val(v3);
    FeTimes(v3, v3, v);
    FeTimes(x, v3, v3);
    ghost var b := Val(x);
    FeTimes(x, x, v);
    ghost var c := Val(x);
    FeTimes(x, x, u);
    RadicandFromSteps(Val(u), Val(v), a, Val(v3), b, c, Val(x));
    FinishRoot(x, v3, u, v);
  }

  lemma RadicandFromSteps(u: int, v: int, a: int, v3: int, b: int, c: int, x: int)
    requires Cong(a, v * v) && Cong(v3, a * v) && Cong(b, v3 * v3) && Cong(c, b * v) && Cong(x, c * u)
    ensures var w := v * v * v; Cong(v3, w) && Cong(x, w * w * v * u)
  {
    hide Cong;
    var w := v * v * v;
    CongRefl(v);
    CongRefl(u);
    ProductTo(v3, a, v, v * v, v);
    ProductTo(b, v3, v3, w, w);
    ProductTo(c, b, v, w * w, v);
    ProductTo(x, c, u, w * w * v, u);
  }

  method FinishRoot(x: array<u64>, v3: array<u64>, u: array<u64>, v: array<u64>)
    requires x.Length == v3.Length == u.Length == v.Length == 5 && x != v3 && x != u && x != v
    requires Reduced(x) && Reduced(v3) && Reduced(u) && Reduced(v)
    requires var w := Val(v) * Val(v) * Val(v); Cong(Val(v3), w) && Cong(Val(x), w * w * Val(v) * Val(u))
    modifies x
    ensures Reduced(x) && Cong(Val(x), Root(Val(u), Val(v)))
  {
    hide Cong;
    ghost var r := Val(x);
    hide Val, Pow;
    FePow22523(x, x);
    ghost var e := Val(x);
    hide Reduced;
    FeTimes(x, x, v3);
    ghost var f := Val(x);
    FeTimes(x, x, u);
    RootFromSteps(Val(u), Val(v), r, e, Val(v3), f, Val(x));
  }

  lemma RootFromSteps(u: int, v: int, r: int, e: int, v3: int, f: int, x: int)
    requires var w := v * v * v; Cong(v3, w) && Cong(r, w * w * v * u)
    requires Cong(e, Pow(r, (P - 5) / 8)) && Cong(f, e * v3) && Cong(x, f * u)
    ensures Cong(x, Root(u, v))
  {
    hide Cong, Pow;
    var w := v * v * v;
    var k := Pow(w * w * v * u, (P - 5) / 8);
    CongPow(r, w * w * v * u, (P - 5) / 8);
    CongTrans(e, Pow(r, (P - 5) / 8), k);
    CongRefl(u);
    ProductTo(f, e, v3, k, w);
    ProductTo(x, f, u, k * w, u);
  }

  method DifferenceIsZero(f: array<u64>, g: array<u64>) returns (zero: bool)
    requires f.Length == g.Length == 5 && Reduced(f) && Reduced(g)
    ensures zero <==> Cong(Val(f), Val(g))
  {
    hide Val, Cong, Reduced, Within;
    var check := new u64[5];
    FeSubCarry(check, f, g);
    ReducedFits(check);
    zero := FeIsZero(check);
    CongZero(Val(f), Val(g));
    SameResidue(Val(check), Val(f) - Val(g));
  }

  method SumIsZero(f: array<u64>, g: array<u64>) returns (zero: bool)
    requires f.Length == g.Length == 5 && Reduced(f) && Reduced(g)
    ensures zero <==> Cong(Val(f), -Val(g))
  {
    hide Val, Cong, Reduced, Within;
    var check := new u64[5];
    FeAddCarry(check, f, g);
    ReducedFits(check);
    zero := FeIsZero(check);
    CongZero(Val(f), -Val(g));
    SameResidue(Val(check), Val(f) - (-Val(g)));
  }

  lemma SameResidue(a: int, b: int)
    requires Cong(a, b)
    ensures Cong(a, 0) <==> Cong(b, 0)
  {
  }

  /** The candidate itself when v c^2 = u, and otherwise the candidate times sqrt(-1). */
  ghost function Turned(c: int, u: int, v: int): int {
    if Cong(c * c * v, u) then c else c * SQRTM1
  }

  /** Accepts when v x^2 = u or v x^2 = -u, and turns the second into the first. */
  method DecodeCheck(x: array<u64>, u: array<u64>, v: array<u64>) returns (ok: bool)
    requires x.Length == u.Length == v.Length == 5 && x != u && x != v
    requires Reduced(x) && Reduced(u) && Reduced(v)
    modifies x
    ensures var c := old(Val(x));
            ok <==> Cong(c * c * Val(v), Val(u)) || Cong(c * c * Val(v), -Val(u))
    ensures Reduced(x)
    ensures ok ==> Cong(Val(x) * Val(x) * Val(v), Val(u)) && (Cong(Val(x), 0) <==> Cong(old(Val(x)), 0))
    ensures ok ==> Cong(Val(x), Turned(old(Val(x)), Val(u), Val(v)))
  {
    hide Val, Cong, Reduced;
    var vxx := SquareTimesV(x, v);
    ghost var c := Val(x);
    SameTarget(Val(vxx), c * c * Val(v), Val(u));
    SameTarget(Val(vxx), c * c * Val(v), -Val(u));
    var direct := DifferenceIsZero(vxx, u);
    if direct {
      CongRefl(c);
      return true;
    }
    ok := SumIsZero(vxx, u);
    if ok {
      TimesSqrtM1(x);
      DecodingConstants();
      RotatedRoot(SQRTM1, c, Val(x), Val(u), Val(v));
    }
  }

  lemma SameTarget(a: int, b: int, c: int)
    requires Cong(a, b)
    ensures Cong(a, c) <==> Cong(b, c)
  {
  }

  method SquareTimesV(x: array<u64>, v: array<u64>) returns (vxx: array<u64>)
    requires x.Length == v.Length == 5 && Reduced(x) && Reduced(v)
    ensures fresh(vxx) && vxx.Length == 5 && Reduced(vxx) && Cong(Val(vxx), Val(x) * Val(x) * Val(v))
  {
    hide Val, Cong, Reduced;
    vxx := new u64[5];
    FeTimes(vxx, x, x);
    ghost var sq := Val(vxx);
    FeTimes(vxx, vxx, v);
    CongRefl(Val(v));
    ProductTo(Val(vxx), sq, Val(v), Val(x) * Val(x), Val(v));
  }

  method TimesSqrtM1(x: array<u64>)
    requires x.Length == 5 && Reduced(x)
    modifies x
    ensures Reduced(x) && Cong(Val(x), old(Val(x)) * SQRTM1)
  {
    hide Cong;
    DecodingConstants();
    hide Val, Reduced, Limbs;
    var i := Constant(KSQRTM1);
    FeTimes(x, x, i);
  }

  /** Multiplying by a square root of -1 negates the square. */
  lemma RotatedRoot(i: int, c: int, x: int, u: int, v: int)
    requires Cong(i * i, -1) && Cong(x, c * i) && Cong(c * c * v, -u)
    ensures Cong(x * x * v, u) && (Cong(x, 0) <==> Cong(c, 0))
  {
    hide Cong;
    CongRefl(v);
    CongMul(x, c * i, x, c * i);
    SquareOfProduct(c, i);
    CongScaleBoth(c * c, i * i, -1);
    CongTrans(x * x, (c * c) * (i * i), -(c * c));
    CongMul(x * x, -(c * c), v, v);
    assert -(c * c) * v == -(c * c * v) by { NegateProducts(c * c, v); }
    CongRefl(0);
    CongAdd(0, 0, c * c * v, -u);
    CongTrans(x * x * v, -(c * c * v), u);
    ZeroRoot(i, c, x);
  }

  lemma ZeroRoot(i: int, c: int, x: int)
    requires Cong(i * i, -1) && Cong(x, c * i)
    ensures Cong(x, 0) <==> Cong(c, 0)
  {
    hide Cong;
    if Cong(c, 0) {
      CongScale(i, c);
      CongTrans(x, c * i, 0);
    }
    if Cong(x, 0) {
      CongScaleBoth(i, x, c * i);
      CongScaleBoth(c, i * i, -1);
      CongScale(i, x);
      CongSym(i * x, i * (c * i));
      RegroupRoot(c, i);
      CongTrans(c * (i * i), i * x, 0);
      CongSym(c * (i * i), c * -1);
      CongTrans(-c, c * (i * i), 0);
      CongRefl(0);
      CongAdd(0, 0, -c, 0);
    }
  }

  lemma RegroupRoot(c: int, i: int)
    ensures i * (c * i) == c * (i * i)
  {
  }

  ghost function WithSign(r: int, negative: bool): int {
    if (r % P % 2 == 1) != negative then -r else r
  }

  /** Gives x the requested parity; only zero cannot have the odd one. */
  method DecodeSign(x: array<u64>, wantNeg: bool) returns (ok: bool)
    requires x.Length == 5 && Reduced(x)
    modifies x
    ensures ok <==> !(wantNeg && Cong(old(Val(x)), 0))
    ensures Reduced(x) && Cong(Val(x), WithSign(old(Val(x)), wantNeg))
    ensures ok ==> Val(x) % P % 2 == if wantNeg then 1 else 0
  {
    hide Val, Cong, Reduced, Within;
    ReducedFits(x);
    var negative := FeIsNegative(x);
    CongRefl(Val(x));
    if negative != wantNeg {
      FeNegCarry(x, x);
    }
    CongResidue(Val(x), WithSign(old(Val(x)), wantNeg));
    ParityOfNegation(old(Val(x)), Val(x), wantNeg);
    CongResidue(Val(x), 0);
    CongResidue(old(Val(x)), 0);
    ReducedFits(x);
    var zero := FeIsZero(x);
    ok := !(wantNeg && zero);
  }

  lemma ParityOfNegation(a: int, b: int, wantNeg: bool)
    requires b % P == (if (a % P % 2 == 1) != wantNeg then -a else a) % P
    ensures b % P == 0 <==> a % P == 0
    ensures !(wantNeg && b % P == 0) ==> b % P % 2 == if wantNeg then 1 else 0
  {
    if (a % P % 2 == 1) != wantNeg {
      NegatedResidue(a);
      if a % P != 0 {
        OddMinus(a % P);
      }
    }
  }

  lemma OddMinus(r: int)
    requires 0 < r < P
    ensures (P - r) % 2 != r % 2
  {
  }

  lemma NegatedResidue(a: int)
    ensures -a % P == if a % P == 0 then 0 else P - a % P
  {
  }

  /** What the decoder accepts, as a condition on y and the sign bit. */
  ghost predicate Decodable(y: int, negative: bool) {
    var u, v := SideU(y), SideV(y);
    var c := Root(u, v);
    (Cong(c * c * v, u) || Cong(c * c * v, -u)) && !(negative && Cong(c, 0))
  }

  /** The x that y and the sign bit select. */
  ghost function XFor(y: int, negative: bool): int {
    var u, v := SideU(y), SideV(y);
    WithSign(Turned(Root(u, v), u, v), negative)
  }

  /** The point a 256-bit number encodes. */
  ghost function PointFor(n: int): Point {
    var x, y := XFor(n % TWO255, n >= TWO255), n % TWO255;
    Point(x, y, 1, x * y)
  }

  /** Z = 1, the encoded y and the encoded sign. */
  ghost predicate Carries(p: Point, n: int) {
    p.y == n % TWO255 && p.z == 1 && p.x % P % 2 == n / TWO255
  }

  /** A decoded point: on the curve and carrying the encoded number. */
  ghost predicate Decoded(p: Point, n: int) {
    OnCurve(p) && Cong(p.t, p.x * p.y) && Carries(p, n)
  }

  lemma CurveFromRoot(x: int, y: int, u: int, v: int)
    requires Cong(u, SideU(y)) && Cong(v, SideV(y)) && Cong(x * x * v, u)
    ensures OnCurve(Point(x, y, 1, x * y))
  {
    hide Cong;
    CongRefl(x * y);
    CongScaleBoth(x * x, v, SideV(y));
    CongSym(x * x * v, x * x * SideV(y));
    CongTrans(x * x * SideV(y), x * x * v, u);
    CongTrans(x * x * SideV(y), u, SideU(y));
    SquareOfProduct(x, y);
    var xx, yy := x * x, y * y;
    Expand(xx, yy);
    CongSym(xx * SideV(y), SideU(y));
    CongRefl(1 - xx);
    CongAdd(yy - 1, D * (xx * yy) + xx, 1 - xx, 1 - xx);
  }

  lemma Expand(xx: int, yy: int)
    ensures xx * (D * yy + 1) == D * (xx * yy) + xx
  {
  }

  lemma SameOnCurve(p: Point, q: Point)
    requires OnCurve(p) && Same(p, q)
    ensures OnCurve(q)
  {
    hide Cong;
    CongMul(p.x, q.x, p.x, q.x);
    CongMul(p.y, q.y, p.y, q.y);
    CongMul(p.z, q.z, p.z, q.z);
    CongMul(p.t, q.t, p.t, q.t);
    CongScaleBoth(D, p.t * p.t, q.t * q.t);
    CongAdd(p.y * p.y, q.y * q.y, p.x * p.x, q.x * q.x);
    CongAdd(p.z * p.z, q.z * q.z, D * (p.t * p.t), D * (q.t * q.t));
    SameBoth(p.y * p.y - p.x * p.x, q.y * q.y - q.x * q.x,
              p.z * p.z + D * (p.t * p.t), q.z * q.z + D * (q.t * q.t));
    CongMul(p.x, q.x, p.y, q.y);
    CongMul(p.z, q.z, p.t, q.t);
    SameBoth(p.x * p.y, q.x * q.y, p.z * p.t, q.z * q.t);
  }

  /** The parts of the decoder that determine x, before the point is written. */
  method DecodeX(y: array<u64>, wantNeg: bool) returns (ok: bool, x: array<u64>)
    requires y.Length == 5 && Reduced(y)
    ensures fresh(x) && x.Length == 5 && Reduced(x)
    ensures ok <==> Decodable(Val(y), wantNeg)
    ensures ok ==> OnCurve(Point(Val(x), Val(y), 1, Val(x) * Val(y)))
    ensures ok ==> Val(x) % P % 2 == if wantNeg then 1 else 0
    ensures ok ==> Cong(Val(x), XFor(Val(y), wantNeg))
  {
    hide Val, Cong, OnCurve, Reduced, Root, SideU, SideV, Decodable, Turned, WithSign, XFor;
    var u, v := DecodeSides(y);
    x := DecodeRoot(u, v);
    ghost var c := Val(x);
    DecodableFrom(Val(y), wantNeg, Val(u), Val(v), c);
    ok := DecodeCheck(x, u, v);
    if !ok {
      return;
    }
    ghost var r := Val(x);
    ok := DecodeSign(x, wantNeg);
    EitherSign(Val(x), r, wantNeg, Val(v), Val(u));
    XFrom(Val(y), wantNeg, Val(u), Val(v), c, r, Val(x));
    CurveFromRoot(Val(x), Val(y), Val(u), Val(v));
  }

  lemma EitherSign(x: int, r: int, negative: bool, v: int, u: int)
    requires Cong(x, WithSign(r, negative)) && Cong(r * r * v, u)
    ensures Cong(x * x * v, u)
  {
    hide Cong;
    CongRefl(v);
    NegateProducts(r, r);
    var s := WithSign(r, negative);
    CongMul(x, s, x, s);
    assert s * s == r * r;
    CongMul(x * x, r * r, v, v);
    CongTrans(x * x * v, r * r * v, u);
  }

  lemma XFrom(y: int, negative: bool, u: int, v: int, c: int, r: int, x: int)
    requires Cong(u, SideU(y)) && Cong(v, SideV(y)) && Cong(c, Root(u, v))
    requires Cong(r, Turned(c, u, v)) && Cong(x, WithSign(r, negative))
    ensures Cong(x, XFor(y, negative))
  {
    hide Cong;
    var c' := Root(SideU(y), SideV(y));
    var r' := Turned(c', SideU(y), SideV(y));
    hide Root, SideU, SideV;
    RootSame(u, SideU(y), v, SideV(y));
    CongTrans(c, Root(u, v), c');
    CongMul(c, c', c, c');
    CongMul(c * c, c' * c', v, SideV(y));
    SameBoth(c * c * v, c' * c' * SideV(y), u, SideU(y));
    CongScaleBoth(SQRTM1, c, c');
    CongTrans(r, Turned(c, u, v), r');
    CongResidue(r, r');
    CongRefl(0);
    CongAdd(0, 0, r, r');
    CongTrans(x, WithSign(r, negative), WithSign(r', negative));
  }

  /** The limbs decide acceptance exactly as the integers they stand for. */
  lemma DecodableFrom(y: int, wantNeg: bool, u: int, v: int, c: int)
    requires Cong(u, SideU(y)) && Cong(v, SideV(y)) && Cong(c, Root(u, v))
    ensures Decodable(y, wantNeg)
            <==> (Cong(c * c * v, u) || Cong(c * c * v, -u)) && !(wantNeg && Cong(c, 0))
  {
    hide Cong;
    var c' := Root(SideU(y), SideV(y));
    hide Root;
    RootSame(u, SideU(y), v, SideV(y));
    CongTrans(c, Root(u, v), c');
    CongMul(c, c', c, c');
    CongMul(c * c, c' * c', v, SideV(y));
    CongRefl(0);
    CongAdd(0, 0, u, SideU(y));
    SameBoth(c * c * v, c' * c' * SideV(y), u, SideU(y));
    SameBoth(c * c * v, c' * c' * SideV(y), -u, -SideU(y));
    SameBoth(c, c', 0, 0);
  }

  lemma SameBoth(a: int, a': int, b: int, b': int)
    requires Cong(a, a') && Cong(b, b')
    ensures Cong(a, b) <==> Cong(a', b')
  {
  }

  lemma RootSame(u: int, u': int, v: int, v': int)
    requires Cong(u, u') && Cong(v, v')
    ensures Cong(Root(u, v), Root(u', v'))
  {
    hide Cong, Pow;
    var w, w' := v * v * v, v' * v' * v';
    CongMul(v, v', v, v');
    CongMul(v * v, v' * v', v, v');
    CongMul(w, w', w, w');
    CongMul(w * w, w' * w', v, v');
    CongMul(w * w * v, w' * w' * v', u, u');
    CongPow(w * w * v * u, w' * w' * v' * u', (P - 5) / 8);
    var k, k' := Pow(w * w * v * u, (P - 5) / 8), Pow(w' * w' * v' * u', (P - 5) / 8);
    CongMul(k, k', w, w');
    CongMul(k * w, k' * w', u, u');
  }

  /** Decodes a compressed point, leaving `p` alone when there is none. */
  method GeFromBytes(p: Ge, s: array<u8>) returns (ok: bool)
    requires p.Shape() && s.Length == 32
    modifies p.X, p.Y, p.Z, p.T
    ensures ok <==> Decodable(LittleEndian(s[..]) % TWO255, LittleEndian(s[..]) >= TWO255)
    ensures ok ==> p.Bounded() && Decoded(p.View(), LittleEndian(s[..]))
    ensures ok ==> Same(p.View(), PointFor(LittleEndian(s[..])))
    ensures !ok ==> p.View() == old(p.View())
  {
    hide Cong;
    ghost var n := LittleEndian(s[..]);
    TopByteValue(s[..]);
    hide Val, Reduced, Decodable, LittleEndian, OnCurve, XFor;
    var y := new u64[5];
    FeFromBytes(y, s);
    var wantNeg := s[31] / 0x80 != 0;
    var x;
    ok, x := DecodeX(y, wantNeg);
    if ok {
      WritePoint(p, x, y);
      CongRefl(Val(x));
      CongRefl(Val(y));
      CongRefl(1);
      CongSym(p.View().t, Val(x) * Val(y));
      SameOnCurve(Point(Val(x), Val(y), 1, Val(x) * Val(y)), p.View());
      SamePoint(p.View(), XFor(n % TWO255, wantNeg));
    }
  }

  lemma SamePoint(p: Point, x: int)
    requires Cong(p.x, x) && p.z == 1 && Cong(p.t, p.x * p.y)
    ensures Same(p, Point(x, p.y, 1, x * p.y))
  {
    hide Cong;
    CongRefl(p.y);
    CongRefl(1);
    ProductTo(p.t, p.x, p.y, x, p.y);
  }

  method WritePoint(p: Ge, x: array<u64>, y: array<u64>)
    requires p.Shape() && x.Length == y.Length == 5 && Reduced(x) && Reduced(y)
    requires {x, y} !! {p.X, p.Y, p.Z, p.T}
    modifies p.X, p.Y, p.Z, p.T
    ensures p.Bounded()
    ensures p.View().x == Val(x) && p.View().y == Val(y) && p.View().z == 1 && Cong(p.View().t, Val(x) * Val(y))
  {
    hide Val, Cong, Reduced;
    FeSet(p.X, x);
    FeSet(p.Y, y);
    FeConst(p.Z, 1);
    FeTimes(p.T, x, y);
  }

  // ---- round trip ----

  lemma {:induction false} PowOne(e: nat)
    ensures Pow(1, e) == 1
  {
    if e != 0 {
      PowOne(e - 1);
    }
  }

  /** Encoding keeps the sign bit and takes y to its residue. */
  lemma EncodedAgain(p: Point, n: nat)
    requires Carries(p, n)
    ensures Encoded(p) == n % TWO255 % P + TWO255 * (n / TWO255)
  {
    PowOne(P - 2);
    hide Pow;
  }

  lemma SameNumber(n: nat)
    ensures n % TWO255 % P + TWO255 * (n / TWO255) == n <==> n % TWO255 < P
  {
    var y := n % TWO255;
    assert n == y + TWO255 * (n / TWO255);
    assert y % P == y <==> y < P;
  }

  /** Encoding a decoded point gives its bytes back exactly when the encoded y was below p. */
  lemma RoundTrip(s: bytes, p: Point, t: bytes)
    requires |s| == |t| == 32
    requires Carries(p, LittleEndian(s)) && LittleEndian(t) == Encoded(p)
    ensures t == s <==> LittleEndian(s) % TWO255 < P
  {
    hide Carries, Encoded, LittleEndian;
    EncodedAgain(p, LittleEndian(s));
    SameNumber(LittleEndian(s));
    if LittleEndian(t) == LittleEndian(s) {
      LittleEndianInjective(s, t);
    }
  }

  /** Every y congruent to 1 is accepted with an even sign: it stands for the point (0, 1). */
  lemma OneDecodes(y: int)
    requires Cong(y, 1)
    ensures Decodable(y, false)
  {
    hide Cong, Pow;
    var u, v := SideU(y), SideV(y);
    CongMul(y, 1, y, 1);
    CongRefl(1);
    CongAdd(y * y, 1 * 1, 1, 1);
    assert Cong(u, 0);
    var v3 := v * v * v;
    var k := Pow(v3 * v3 * v * u, (P - 5) / 8) * v3;
    var c := Root(u, v);
    assert c == k * u;
    CongScale(k, u);
    CongScale(c * v, c);
    assert (c * v) * c == c * c * v by { RegroupSquare(c, v); }
    CongSym(u, 0);
    CongTrans(c * c * v, 0, u);
  }

  /** The decoder does accept a y of p or more: y = p + 1 stands for the point (0, 1). */
  lemma NonCanonicalAccepted()
    ensures P <= P + 1 < TWO255 && Decodable(P + 1, false)
  {
    hide Decodable, Cong;
    CongResidue(P + 1, 1);
    OneDecodes(P + 1);
  }

  lemma RegroupSquare(c: int, v: int)
    ensures (c * v) * c == c * c * v
  {
  }
}
