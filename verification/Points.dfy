/** Points of the curve as limb arrays updated in place. */
module Points {
  import opened Words
  import opened Bits
  import opened ModP
  import opened Field
  import opened FieldBytes
  import opened Curve

  // ---- field steps that carry at once ----

  method FeSubCarry(h: array<u64>, f: array<u64>, g: array<u64>)
    requires h.Length == f.Length == g.Length == 5
    requires Reduced(f) && Reduced(g)
    modifies h
    ensures Reduced(h) && Cong(Val(h), old(Val(f)) - old(Val(g)))
  {
    hide Cong, Val;
    FeSub(h, f, g);
    ghost var d := Val(h);
    CongMultiple(d, old(Val(f)) - old(Val(g)), 2);
    FeCarry(h);
    CongTrans(Val(h), d, old(Val(f)) - old(Val(g)));
  }

  method FeAddCarry(h: array<u64>, f: array<u64>, g: array<u64>)
    requires h.Length == f.Length == g.Length == 5
    requires Reduced(f) && Reduced(g)
    modifies h
    ensures Reduced(h) && Cong(Val(h), old(Val(f)) + old(Val(g)))
  {
    hide Cong, Val;
    FeAdd(h, f, g);
    FeCarry(h);
  }

  /** Multiplies two elements that earlier steps left reduced. */
  method FeTimes(h: array<u64>, f: array<u64>, g: array<u64>)
    requires h.Length == f.Length == g.Length == 5
    requires Reduced(f) && Reduced(g)
    modifies h
    ensures Reduced(h) && Cong(Val(h), old(Val(f)) * old(Val(g)))
  {
    hide Cong, Val;
    FeMul(h, f, g);
  }

  class Ge {
    const X: array<u64>
    const Y: array<u64>
    const Z: array<u64>
    const T: array<u64>

    constructor ()
      ensures Shape() && fresh(X) && fresh(Y) && fresh(Z) && fresh(T)
    {
      X := new u64[5];
      Y := new u64[5];
      Z := new u64[5];
      T := new u64[5];
    }

    predicate Shape() {
      && X.Length == Y.Length == Z.Length == T.Length == 5
      && X != Y && X != Z && X != T && Y != Z && Y != T && Z != T
    }

    ghost predicate Bounded()
      reads X, Y, Z, T
      requires Shape()
    {
      Reduced(X) && Reduced(Y) && Reduced(Z) && Reduced(T)
    }

    ghost function View(): Point
      reads X, Y, Z, T
      requires Shape()
    {
      Point(Val(X), Val(Y), Val(Z), Val(T))
    }
  }

  const KD2: seq<u64> := [1859910466990425, 932731440258426, 1072319116312658, 1815898335770999, 633789495995903]

  method Load(h: array<u64>, k: seq<u64>)
    requires h.Length == |k| == 5 && forall i :: 0 <= i < 5 ==> k[i] <= TWO51
    modifies h
    ensures Reduced(h) && Val(h) == Limbs(k[0], k[1], k[2], k[3], k[4])
  {
    h[0], h[1], h[2], h[3], h[4] := k[0], k[1], k[2], k[3], k[4];
  }

  lemma DoubledD()
    ensures Cong(Limbs(KD2[0], KD2[1], KD2[2], KD2[3], KD2[4]), 2 * D)
  {
    hide Cong;
    ConstantD();
    CongResidue(Limbs(KD2[0], KD2[1], KD2[2], KD2[3], KD2[4]), 2 * D_VALUE);
  }

  // ---- ge_add, cut where its temporaries are complete ----

  method ProductOfDifferences(y: array<u64>, x: array<u64>, y': array<u64>, x': array<u64>) returns (a: array<u64>)
    requires y.Length == x.Length == y'.Length == x'.Length == 5
    requires Reduced(y) && Reduced(x) && Reduced(y') && Reduced(x')
    ensures fresh(a) && a.Length == 5
    ensures Reduced(a) && Cong(Val(a), (Val(y) - Val(x)) * (Val(y') - Val(x')))
  {
    hide Cong, Val, Reduced;
    a := new u64[5];
    var t := new u64[5];
    FeSubCarry(a, y, x);
    FeSubCarry(t, y', x');
    ghost var v, w := Val(a), Val(t);
    FeTimes(a, a, t);
    CongMul(v, Val(y) - Val(x), w, Val(y') - Val(x'));
    CongTrans(Val(a), v * w, (Val(y) - Val(x)) * (Val(y') - Val(x')));
  }

  method ProductOfSums(y: array<u64>, x: array<u64>, y': array<u64>, x': array<u64>) returns (b: array<u64>)
    requires y.Length == x.Length == y'.Length == x'.Length == 5
    requires Reduced(y) && Reduced(x) && Reduced(y') && Reduced(x')
    ensures fresh(b) && b.Length == 5
    ensures Reduced(b) && Cong(Val(b), (Val(y) + Val(x)) * (Val(y') + Val(x')))
  {
    hide Cong, Val, Reduced;
    b := new u64[5];
    var t := new u64[5];
    FeAddCarry(b, y, x);
    FeAddCarry(t, y', x');
    ghost var v, w := Val(b), Val(t);
    FeTimes(b, b, t);
    CongMul(v, Val(y) + Val(x), w, Val(y') + Val(x'));
    CongTrans(Val(b), v * w, (Val(y) + Val(x)) * (Val(y') + Val(x')));
  }

  method ProductWithD2(f: array<u64>, g: array<u64>) returns (c: array<u64>)
    requires f.Length == g.Length == 5
    requires Reduced(f) && Reduced(g)
    ensures fresh(c) && c.Length == 5
    ensures Reduced(c) && Cong(Val(c), Val(f) * Val(g) * (2 * D))
  {
    hide Cong;
    c := new u64[5];
    var k := new u64[5];
    Load(k, KD2);
    DoubledD();
    hide Val, Reduced;
    FeTimes(c, f, g);
    ghost var v := Val(c);
    FeTimes(c, c, k);
    CongMul(v, Val(f) * Val(g), Val(k), 2 * D);
    CongTrans(Val(c), v * Val(k), Val(f) * Val(g) * (2 * D));
  }

  method DoubledProduct(f: array<u64>, g: array<u64>) returns (d: array<u64>)
    requires f.Length == g.Length == 5
    requires Reduced(f) && Reduced(g)
    ensures fresh(d) && d.Length == 5
    ensures Reduced(d) && Cong(Val(d), 2 * (Val(f) * Val(g)))
  {
    hide Cong, Val, Reduced;
    d := new u64[5];
    FeTimes(d, f, g);
    ghost var v := Val(d);
    FeAddCarry(d, d, d);
    CongAdd(v, Val(f) * Val(g), v, Val(f) * Val(g));
    CongTrans(Val(d), v + v, 2 * (Val(f) * Val(g)));
  }

  /** The temporaries a, b, c and d of one addition. */
  ghost predicate Products(p: Point, q: Point, a: int, b: int, c: int, d: int) {
    && Cong(a, (p.y - p.x) * (q.y - q.x))
    && Cong(b, (p.y + p.x) * (q.y + q.x))
    && Cong(c, p.t * q.t * (2 * D))
    && Cong(d, 2 * (p.z * q.z))
  }

  method AddProducts(p: Ge, q: Ge) returns (a: array<u64>, b: array<u64>, c: array<u64>, d: array<u64>)
    requires p.Shape() && q.Shape() && p.Bounded() && q.Bounded()
    ensures fresh(a) && fresh(b) && fresh(c) && fresh(d)
    ensures a.Length == b.Length == c.Length == d.Length == 5
    ensures Reduced(a) && Reduced(b) && Reduced(c) && Reduced(d)
    ensures Products(p.View(), q.View(), Val(a), Val(b), Val(c), Val(d))
  {
    hide Cong, Val, Reduced;
    a := ProductOfDifferences(p.Y, p.X, q.Y, q.X);
    b := ProductOfSums(p.Y, p.X, q.Y, q.X);
    c := ProductWithD2(p.T, q.T);
    d := DoubledProduct(p.Z, q.Z);
  }

  method AddFactors(a: array<u64>, b: array<u64>, c: array<u64>, d: array<u64>)
    returns (e: array<u64>, f: array<u64>, g: array<u64>, h: array<u64>)
    requires a.Length == b.Length == c.Length == d.Length == 5
    requires Reduced(a) && Reduced(b) && Reduced(c) && Reduced(d)
    ensures fresh(e) && fresh(f) && fresh(g) && fresh(h)
    ensures e.Length == f.Length == g.Length == h.Length == 5
    ensures Reduced(e) && Reduced(f) && Reduced(g) && Reduced(h)
    ensures Cong(Val(e), Val(b) - Val(a)) && Cong(Val(f), Val(d) - Val(c))
    ensures Cong(Val(g), Val(d) + Val(c)) && Cong(Val(h), Val(b) + Val(a))
  {
    hide Cong, Val, Reduced;
    e := new u64[5];
    FeSubCarry(e, b, a);
    f := new u64[5];
    FeSubCarry(f, d, c);
    g := new u64[5];
    FeAddCarry(g, d, c);
    h := new u64[5];
    FeAddCarry(h, b, a);
  }

  lemma SumFromParts(
    p: Point, q: Point, a: int, b: int, c: int, d: int, e: int, f: int, g: int, h: int, r: Point)
    requires Products(p, q, a, b, c, d)
    requires Cong(e, b - a) && Cong(f, d - c) && Cong(g, d + c) && Cong(h, b + a)
    requires Cong(r.x, e * f) && Cong(r.y, g * h) && Cong(r.t, e * h) && Cong(r.z, f * g)
    ensures Same(r, Add(p, q))
  {
    hide Cong;
    var a', b' := (p.y - p.x) * (q.y - q.x), (p.y + p.x) * (q.y + q.x);
    var c', d' := p.t * q.t * (2 * D), 2 * (p.z * q.z);
    CongAdd(b, b', a, a');
    CongAdd(d, d', c, c');
    CongTrans(e, b - a, b' - a');
    CongTrans(f, d - c, d' - c');
    CongTrans(g, d + c, d' + c');
    CongTrans(h, b + a, b' + a');
    ProductTo(r.x, e, f, b' - a', d' - c');
    ProductTo(r.y, g, h, d' + c', b' + a');
    ProductTo(r.t, e, h, b' - a', b' + a');
    ProductTo(r.z, f, g, d' - c', d' + c');
  }

  lemma ProductTo(v: int, x: int, y: int, x': int, y': int)
    requires Cong(v, x * y) && Cong(x, x') && Cong(y, y')
    ensures Cong(v, x' * y')
  {
    hide Cong;
    CongMul(x, x', y, y');
    CongTrans(v, x * y, x' * y');
  }

  /** The unified addition; `r` may be `p`, `q` or both. */
  method GeAdd(r: Ge, p: Ge, q: Ge)
    requires r.Shape() && p.Shape() && q.Shape() && p.Bounded() && q.Bounded()
    modifies r.X, r.Y, r.Z, r.T
    ensures r.Bounded() && Same(r.View(), Add(old(p.View()), old(q.View())))
  {
    hide Cong, Val, Reduced, Products, Same, Add;
    var a, b, c, d := AddProducts(p, q);
    var e, f, g, h := AddFactors(a, b, c, d);
    MultiplyOut(r, e, f, g, h);
    SumFromParts(old(p.View()), old(q.View()), Val(a), Val(b), Val(c), Val(d), Val(e), Val(f), Val(g), Val(h),
        r.View());
  }

  method MultiplyOut(r: Ge, e: array<u64>, f: array<u64>, g: array<u64>, h: array<u64>)
    requires r.Shape() && e.Length == f.Length == g.Length == h.Length == 5
    requires {e, f, g, h} !! {r.X, r.Y, r.Z, r.T}
    requires Reduced(e) && Reduced(f) && Reduced(g) && Reduced(h)
    modifies r.X, r.Y, r.Z, r.T
    ensures r.Bounded()
    ensures Cong(r.View().x, Val(e) * Val(f)) && Cong(r.View().y, Val(g) * Val(h))
    ensures Cong(r.View().t, Val(e) * Val(h)) && Cong(r.View().z, Val(f) * Val(g))
  {
    hide Cong, Val, Reduced;
    FeTimes(r.X, e, f);
    FeTimes(r.Y, g, h);
    FeTimes(r.T, e, h);
    FeTimes(r.Z, f, g);
  }

  // ---- selection, negation, constants ----

  /** `f ^= mask & (f ^ g)` with the mask all ones or all zeros. */
  method SelectLimb(f: u64, g: u64, b: u64) returns (r: u64)
    requires b <= 1
    ensures r == if b == 1 then g else f
  {
    SelectWord(f, g);
    hide Xor, And;
    var mask: u64 := (TWO64 - b) % TWO64;
    r := Xor(f, And(mask, Xor(f, g)));
  }

  lemma SelectWord(f: u64, g: u64)
    ensures Xor(f, And(0xffff_ffff_ffff_ffff, Xor(f, g))) == g
    ensures Xor(f, And(0, Xor(f, g))) == f
  {
    hide Xor, And, Pow2;
    PowersOfTwo();
    XorBound(f, g, 64);
    AndOnes(Xor(f, g), 64);
    XorCancel(g, f);
    AndZero(Xor(f, g));
    XorZero(f);
  }

  method FeCmov(f: array<u64>, g: array<u64>, b: u64)
    requires f.Length == g.Length == 5 && b <= 1
    modifies f
    ensures forall i :: 0 <= i < 5 ==> f[i] == if b == 1 then old(g[i]) else old(f[i])
  {
    for i := 0 to 5
      invariant forall k :: 0 <= k < i ==> f[k] == if b == 1 then old(g[k]) else old(f[k])
      invariant forall k :: i <= k < 5 ==> f[k] == old(f[k]) && g[k] == old(g[k])
    {
      f[i] := SelectLimb(f[i], g[i], b);
    }
  }

  method FeChoose(f: array<u64>, g: array<u64>, b: u64)
    requires f.Length == g.Length == 5 && b <= 1
    modifies f
    ensures Val(f) == if b == 1 then old(Val(g)) else old(Val(f))
    ensures old(Reduced(f)) && old(Reduced(g)) ==> Reduced(f)
  {
    FeCmov(f, g, b);
  }

  method GeCmov(r: Ge, p: Ge, b: u64)
    requires r.Shape() && p.Shape() && b <= 1
    requires r == p || {r.X, r.Y, r.Z, r.T} !! {p.X, p.Y, p.Z, p.T}
    requires r.Bounded() && p.Bounded()
    modifies r.X, r.Y, r.Z, r.T
    ensures r.Bounded()
    ensures r.View() == if b == 1 then old(p.View()) else old(r.View())
  {
    hide Val, Reduced;
    FeChoose(r.X, p.X, b);
    FeChoose(r.Y, p.Y, b);
    FeChoose(r.Z, p.Z, b);
    FeChoose(r.T, p.T, b);
  }

  method FeNegCarry(h: array<u64>, f: array<u64>)
    requires h.Length == f.Length == 5 && Reduced(f)
    modifies h
    ensures Reduced(h) && Cong(Val(h), -old(Val(f)))
  {
    hide Cong;
    var zero := new u64[5];
    Load(zero, [0, 0, 0, 0, 0]);
    assert Val(zero) == 0;
    hide Val, Reduced;
    FeSubCarry(h, zero, f);
  }

  method FeSet(h: array<u64>, f: array<u64>)
    requires h.Length == f.Length == 5
    modifies h
    ensures Val(h) == old(Val(f))
    ensures old(Reduced(f)) ==> Reduced(h)
  {
    FeCopy(h, f);
  }

  method GeNeg(r: Ge, p: Ge)
    requires r.Shape() && p.Shape() && p.Bounded()
    requires r == p || {r.X, r.Y, r.Z, r.T} !! {p.X, p.Y, p.Z, p.T}
    modifies r.X, r.Y, r.Z, r.T
    ensures r.Bounded() && Same(r.View(), Negate(old(p.View())))
  {
    hide Val, Cong, Reduced;
    FeNegCarry(r.X, p.X);
    FeSet(r.Y, p.Y);
    FeSet(r.Z, p.Z);
    FeNegCarry(r.T, p.T);
    CongRefl(Val(r.Y));
    CongRefl(Val(r.Z));
  }

  method GeZero(p: Ge)
    requires p.Shape()
    modifies p.X, p.Y, p.Z, p.T
    ensures p.Bounded() && p.View() == IDENTITY
  {
    FeConst(p.X, 0);
    FeConst(p.Y, 1);
    FeConst(p.Z, 1);
    FeConst(p.T, 0);
  }

  method FeConst(h: array<u64>, k: u64)
    requires h.Length == 5 && k <= 1
    modifies h
    ensures Reduced(h) && Val(h) == k
  {
    h[0], h[1], h[2], h[3], h[4] := k, 0, 0, 0, 0;
  }

  const KBX: seq<u64> := [1738742601995546, 1146398526822698, 2070867633025821, 562264141797630, 587772402128613]
  const KBY: seq<u64> := [1801439850948184, 1351079888211148, 450359962737049, 900719925474099, 1801439850948198]
  const BX := 15112221349535400772501151409588531511454012693041857206046113283949847762202
  const BY := 46316835694926478169428394003475163141307993866256225615783033603165251855960

  lemma ScaledBy(a: int, b: int, x: int)
    requires a == b
    ensures a * x == b * x
  {
  }

  lemma BaseLimbs()
    ensures Limbs(KBX[0], KBX[1], KBX[2], KBX[3], KBX[4]) == BX
    ensures Limbs(KBY[0], KBY[1], KBY[2], KBY[3], KBY[4]) == BY
  {
  }

  /** The base point: y = 4/5, on the curve. */
  lemma BasePoint()
    ensures Cong(5 * BY, 4) && OnCurve(Point(BX, BY, 1, BX * BY))
  {
    hide Cong;
    CongResidue(5 * BY, 4);
    ConstantD();
    ScaledBy(D, D_VALUE, (BX * BY) * (BX * BY));
    CongResidue(BY * BY - BX * BX, 1 + D_VALUE * ((BX * BY) * (BX * BY)));
    CongRefl(BX * BY);
  }

  method GeBase(p: Ge)
    requires p.Shape()
    modifies p.X, p.Y, p.Z, p.T
    ensures p.Bounded() && Same(p.View(), Point(BX, BY, 1, BX * BY))
  {
    hide Val, Cong, Reduced, Limbs;
    BaseLimbs();
    Load(p.X, KBX);
    Load(p.Y, KBY);
    FeConst(p.Z, 1);
    FeTimes(p.T, p.X, p.Y);
    CongRefl(BX);
    CongRefl(BY);
    CongRefl(1);
  }

  // ---- multiples ----

  lemma SameRefl(p: Point)
    ensures Same(p, p)
  {
  }

  lemma SameTrans(p: Point, q: Point, r: Point)
    requires Same(p, q) && Same(q, r)
    ensures Same(p, r)
  {
    hide Cong;
    CongTrans(p.x, q.x, r.x);
    CongTrans(p.y, q.y, r.y);
    CongTrans(p.z, q.z, r.z);
    CongTrans(p.t, q.t, r.t);
  }

  /** One round adds one bit of the scalar. */
  lemma MultipleStep(n: nat, k: nat, p: Point, r: Point, twice: Point, sum: Point, r': Point)
    requires Same(r, Multiple(n, k / 2, p)) && Same(twice, Add(r, r)) && Same(sum, Add(twice, p))
    requires r' == if k % 2 == 1 then sum else twice
    ensures Same(r', Multiple(n + 1, k, p))
  {
    hide Same, Add;
    var m := Multiple(n, k / 2, p);
    AddSame(r, m, r, m);
    SameTrans(twice, Add(r, r), Add(m, m));
    SameRefl(p);
    AddSame(twice, Add(m, m), p, p);
    SameTrans(sum, Add(twice, p), Add(Add(m, m), p));
  }

  /** `acc = 2 acc`, `sum = acc + p`, and `acc = sum` when the bit is set. */
  method ScalarRound(acc: Ge, sum: Ge, p: Ge, bit: u64, ghost n: nat, ghost k: nat)
    requires acc.Shape() && sum.Shape() && p.Shape() && acc.Bounded() && p.Bounded() && bit <= 1
    requires {acc.X, acc.Y, acc.Z, acc.T} !! {sum.X, sum.Y, sum.Z, sum.T}
    requires {acc.X, acc.Y, acc.Z, acc.T} !! {p.X, p.Y, p.Z, p.T}
    requires {sum.X, sum.Y, sum.Z, sum.T} !! {p.X, p.Y, p.Z, p.T}
    requires k % 2 == bit && Same(acc.View(), Multiple(n, k / 2, p.View()))
    modifies acc.X, acc.Y, acc.Z, acc.T, sum.X, sum.Y, sum.Z, sum.T
    ensures acc.Bounded() && Same(acc.View(), Multiple(n + 1, k, p.View()))
  {
    hide Same, Add, Val, Reduced, Multiple;
    ghost var r := acc.View();
    GeAdd(acc, acc, acc);
    ghost var twice := acc.View();
    GeAdd(sum, acc, p);
    GeCmov(acc, sum, bit);
    MultipleStep(n, k, p.View(), r, twice, sum.View(), acc.View());
  }

  method GeCopy(r: Ge, p: Ge)
    requires r.Shape() && p.Shape() && p.Bounded()
    requires {r.X, r.Y, r.Z, r.T} !! {p.X, p.Y, p.Z, p.T}
    modifies r.X, r.Y, r.Z, r.T
    ensures r.Bounded() && r.View() == p.View()
  {
    hide Val, Reduced;
    FeSet(r.X, p.X);
    FeSet(r.Y, p.Y);
    FeSet(r.Z, p.Z);
    FeSet(r.T, p.T);
  }

  /** All 256 rounds, for every scalar: r = k * p, whatever r aliases. */
  method GeScalarmult(r: Ge, k: array<u8>, p: Ge)
    requires r.Shape() && p.Shape() && p.Bounded() && k.Length == 32
    modifies r.X, r.Y, r.Z, r.T
    ensures r.Bounded()
    ensures Same(r.View(), Multiple(256, LittleEndian(k[..]), old(p.View())))
  {
    var acc := MultipleOf(k, p);
    hide Same, Add, Val, Reduced, Multiple;
    GeCopy(r, acc);
  }

  method MultipleOf(k: array<u8>, p: Ge) returns (acc: Ge)
    requires p.Shape() && p.Bounded() && k.Length == 32
    ensures acc.Shape() && fresh(acc) && fresh(acc.X) && fresh(acc.Y) && fresh(acc.Z) && fresh(acc.T)
    ensures acc.Bounded()
    ensures Same(acc.View(), Multiple(256, LittleEndian(k[..]), p.View()))
  {
    hide Same, Add, Val, Reduced, Multiple, LittleEndian;
    acc := new Ge();
    var sum := new Ge();
    GeZero(acc);
    ScalarLoop(acc, sum, k, p);
  }

  method ScalarLoop(acc: Ge, sum: Ge, k: array<u8>, p: Ge)
    requires acc.Shape() && sum.Shape() && p.Shape() && p.Bounded() && k.Length == 32
    requires acc.Bounded() && acc.View() == IDENTITY
    requires {acc.X, acc.Y, acc.Z, acc.T} !! {sum.X, sum.Y, sum.Z, sum.T}
    requires {acc.X, acc.Y, acc.Z, acc.T} !! {p.X, p.Y, p.Z, p.T}
    requires {sum.X, sum.Y, sum.Z, sum.T} !! {p.X, p.Y, p.Z, p.T}
    modifies acc.X, acc.Y, acc.Z, acc.T, sum.X, sum.Y, sum.Z, sum.T
    ensures acc.Bounded()
    ensures Same(acc.View(), Multiple(256, LittleEndian(k[..]), p.View()))
  {
    ghost var K := LittleEndian(k[..]);
    MultipleStart(Shifted(K, 256), p.View());
    hide Same, Add, Val, Reduced, Multiple, LittleEndian, Shifted;
    var i := 256;
    while i > 0
      invariant 0 <= i <= 256
      invariant acc.Bounded()
      invariant Same(acc.View(), Multiple(256 - i, Shifted(K, i), p.View()))
    {
      i := i - 1;
      ShiftOnce(K, i);
      BitOfBytes(k[..], i);
      var bit: u64 := Shifted(k[i / 8], i % 8) % 2;
      ScalarRound(acc, sum, p, bit, 255 - i, Shifted(K, i));
    }
    ScalarEnd(K);
  }

  lemma MultipleStart(k: nat, p: Point)
    ensures Same(IDENTITY, Multiple(0, k, p))
  {
  }

  lemma ScalarEnd(k: nat)
    ensures Shifted(k, 0) == k
  {
  }

  lemma ShiftOnce(k: nat, i: nat)
    ensures Shifted(k, i + 1) == Shifted(k, i) / 2
  {
  }
}
