/** The twisted Edwards curve -x^2 + y^2 = 1 + d x^2 y^2 in extended coordinates, over Z modulo p. */
module Curve {
  import opened ModP

  const D_VALUE := 37095705934669439343138083508754565189542113879843219016388785533085940283555

  ghost predicate ClearsFraction(d: int) {
    0 <= d < P && Cong(d * 121666, -121665)
  }

  ghost predicate Modulus(m: int) {
    m == PRIME
  }

  /** The quantifier keeps the fact, with its large numbers, out of every proof that does not name `Modulus`. */
  ghost predicate IsQuotient(d: int) {
    forall m :: Modulus(m) ==> ClearsFraction(d)
  }

  lemma ValueIsQuotient()
    ensures ClearsFraction(D_VALUE) && IsQuotient(D_VALUE)
  {
    hide Cong;
    CongResidue(D_VALUE * 121666, -121665);
  }

  ghost function Quotient(): int {
    ValueIsQuotient();
    var d :| IsQuotient(d);
    d
  }

  /** d = -121665/121666 modulo p, by what it is: like p, its 255-bit value stays out of polynomials. */
  ghost const D: int := Quotient()

  lemma QuotientClears()
    ensures ClearsFraction(D)
  {
    hide ClearsFraction, Cong;
    ValueIsQuotient();
    assert IsQuotient(D);
    assert Modulus(PRIME);
  }

  /** x = X/Z, y = Y/Z, XY = ZT. */
  datatype Point = Point(x: int, y: int, z: int, t: int)

  const IDENTITY := Point(0, 1, 1, 0)

  ghost predicate Same(p: Point, q: Point) {
    Cong(p.x, q.x) && Cong(p.y, q.y) && Cong(p.z, q.z) && Cong(p.t, q.t)
  }

  ghost predicate OnCurve(p: Point) {
    && Cong(p.y * p.y - p.x * p.x, p.z * p.z + D * (p.t * p.t))
    && Cong(p.x * p.y, p.z * p.t)
  }

  /** The unified addition, without any reduction. */
  ghost function Add(p: Point, q: Point): Point {
    var a := (p.y - p.x) * (q.y - q.x);
    var b := (p.y + p.x) * (q.y + q.x);
    var c := p.t * q.t * (2 * D);
    var d := 2 * (p.z * q.z);
    var e, f, g, h := b - a, d - c, d + c, b + a;
    Point(e * f, g * h, f * g, e * h)
  }

  /** The quotient is one number, the one the code holds. */
  lemma ConstantD()
    ensures Cong(D * 121666, -121665) && D == D_VALUE
  {
    hide Cong;
    ValueIsQuotient();
    QuotientClears();
    var d: int := D;
    var e, v := d - D_VALUE, D_VALUE + 1;
    CongAdd(d * 121666, -121665, D_VALUE * 121666, -121665);
    assert d * 121666 - D_VALUE * 121666 == e * 121666;
    CongRefl(v);
    CongMul(e * 121666, 0, v, v);
    CongResidue(121666 * v, 1);
    CongRefl(e);
    CongMul(e, e, 121666 * v, 1);
    assert e * (121666 * v) == e * 121666 * v;
    CongResidue(e * 121666 * v, 0);
    CongResidue(e * (121666 * v), e);
  }

  /** Whatever the inputs, the sum satisfies XY = ZT. */
  lemma AddExtended(p: Point, q: Point)
    ensures Add(p, q).x * Add(p, q).y == Add(p, q).z * Add(p, q).t
  {
    var a := (p.y - p.x) * (q.y - q.x);
    var b := (p.y + p.x) * (q.y + q.x);
    var c := p.t * q.t * (2 * D);
    var d := 2 * (p.z * q.z);
    Regroup(b - a, d - c, d + c, b + a);
  }

  lemma Regroup(e: int, f: int, g: int, h: int)
    ensures (e * f) * (g * h) == (f * g) * (e * h)
  {
  }

  /** Half of each of the four factors the formula multiplies. */
  ghost function E(p: Point, q: Point): int { p.x * q.y + p.y * q.x }
  ghost function H(p: Point, q: Point): int { p.y * q.y + p.x * q.x }
  ghost function F(p: Point, q: Point): int { p.z * q.z - D * (p.t * q.t) }
  ghost function G(p: Point, q: Point): int { p.z * q.z + D * (p.t * q.t) }

  lemma AddHalves(p: Point, q: Point)
    ensures Add(p, q) == Point(4 * (E(p, q) * F(p, q)), 4 * (G(p, q) * H(p, q)),
                               4 * (F(p, q) * G(p, q)), 4 * (E(p, q) * H(p, q)))
  {
    var a := (p.y - p.x) * (q.y - q.x);
    var b := (p.y + p.x) * (q.y + q.x);
    var c := p.t * q.t * (2 * D);
    var d := 2 * (p.z * q.z);
    CrossTerms(p.x, p.y, q.x, q.y);
    assert b - a == 2 * E(p, q) && b + a == 2 * H(p, q);
    assert c == 2 * (D * (p.t * q.t));
    assert d - c == 2 * F(p, q) && d + c == 2 * G(p, q);
    Fourfold(E(p, q), F(p, q));
    Fourfold(G(p, q), H(p, q));
    Fourfold(F(p, q), G(p, q));
    Fourfold(E(p, q), H(p, q));
  }

  lemma CrossTerms(x: int, y: int, x': int, y': int)
    ensures (y + x) * (y' + x') - (y - x) * (y' - x') == 2 * (x * y' + y * x')
    ensures (y + x) * (y' + x') + (y - x) * (y' - x') == 2 * (y * y' + x * x')
  {
  }

  lemma Fourfold(a: int, b: int)
    ensures (2 * a) * (2 * b) == 4 * (a * b)
  {
  }

  // ---- closure: the sum of two points of the curve is a point of the curve ----

  ghost function M(p: Point): int { p.z * p.z + D * (p.t * p.t) }
  ghost function N(p: Point): int { p.y * p.y - p.x * p.x }
  ghost function U(p: Point, q: Point): int { p.x * q.y - p.y * q.x }
  ghost function W(p: Point, q: Point): int { p.t * q.z - q.t * p.z }

  lemma TimesU(p: Point, q: Point)
    ensures H(p, q) * U(p, q) == (p.x * p.y) * N(q) - (q.x * q.y) * N(p)
  {
  }

  lemma TimesW(p: Point, q: Point)
    ensures F(p, q) * W(p, q) == (p.z * p.t) * M(q) - (q.z * q.t) * M(p)
  {
    TimesNorms(D, p.z, p.t, q.z, q.t);
  }

  lemma TimesNorms(k: int, z: int, t: int, z': int, t': int)
    ensures (z * z' - k * (t * t')) * (t * z' - t' * z)
         == (z * t) * (z' * z' + k * (t' * t')) - (z' * t') * (z * z + k * (t * t))
  {
    SwapInner(z, z', t, z');
    SwapInner(z', z, t', z);
    SwapInner(t, t', z', t);
    SwapInner(t', t, z, t');
    CrossNorms(k, z * z', t * t', t * z', t' * z, z * t, z' * t', z' * z', z * z, t * t, t' * t');
  }

  lemma CrossNorms(k: int, a: int, b: int, c: int, e: int, r: int, s: int, m: int, n: int, u: int, v: int)
    requires a * c == r * m && a * e == s * n && b * c == s * u && b * e == r * v
    ensures (a - k * b) * (c - e) == r * (m + k * v) - s * (n + k * u)
  {
    Distribute(k, a, b, c, e);
    SplitSum(k, r, m, v);
    SplitSum(k, s, n, u);
  }

  lemma Distribute(k: int, a: int, b: int, c: int, e: int)
    ensures (a - k * b) * (c - e) == a * c - a * e - k * (b * c) + k * (b * e)
  {
  }

  lemma SplitSum(k: int, a: int, b: int, c: int)
    ensures a * (b + k * c) == a * b + k * (a * c)
  {
  }

  lemma SwapInner(a: int, b: int, c: int, e: int)
    ensures (a * b) * (c * e) == (a * c) * (b * e) && (b * a) * (c * e) == (a * c) * (b * e)
    ensures (a * b) * (e * c) == (a * c) * (b * e) && (b * a) * (e * c) == (a * c) * (b * e)
  {
  }

  lemma ProportionalDifferences(p: Point, q: Point)
    requires OnCurve(p) && OnCurve(q)
    ensures Cong(H(p, q) * U(p, q), F(p, q) * W(p, q))
  {
    hide Cong, H, U, F, W;
    TimesU(p, q);
    TimesW(p, q);
    CongMul(p.x * p.y, p.z * p.t, N(q), M(q));
    CongMul(q.x * q.y, q.z * q.t, N(p), M(p));
    CongAdd((p.x * p.y) * N(q), (p.z * p.t) * M(q), (q.x * q.y) * N(p), (q.z * q.t) * M(p));
  }

  lemma SquareDifference(p: Point, q: Point)
    ensures H(p, q) * H(p, q) - E(p, q) * E(p, q) == N(p) * N(q)
    ensures E(p, q) * E(p, q) - 4 * ((p.x * p.y) * (q.x * q.y)) == U(p, q) * U(p, q)
  {
  }

  lemma NormProduct(p: Point, q: Point)
    ensures M(p) * M(q) - G(p, q) * G(p, q) == D * (W(p, q) * W(p, q))
    ensures G(p, q) * G(p, q) - F(p, q) * F(p, q) == 4 * D * ((p.z * p.t) * (q.z * q.t))
  {
    NormIdentity(D, p.z, p.t, q.z, q.t);
  }

  lemma NormIdentity(k: int, z: int, t: int, z': int, t': int)
    ensures var f, g, w := z * z' - k * (t * t'), z * z' + k * (t * t'), t * z' - t' * z;
            && (z * z + k * (t * t)) * (z' * z' + k * (t' * t')) - g * g == k * (w * w)
            && g * g - f * f == 4 * k * ((z * t) * (z' * t'))
  {
    SwapInner(z, z', z, z');
    SwapInner(t, t', t, t');
    SwapInner(t, z', t, z');
    SwapInner(t', z, t', z);
    SwapInner(z, z', t, t');
    SwapInner(t, z', z, t');
    NormSquares(k, z * z, z' * z', t * t, t' * t', z * z', t * t', t * z', t' * z);
  }

  lemma NormSquares(k: int, a: int, a': int, b: int, b': int, c: int, e: int, r: int, s: int)
    requires a * a' == c * c && b * b' == e * e && b * a' == r * r && b' * a == s * s && r * s == c * e
    ensures (a + k * b) * (a' + k * b') - (c + k * e) * (c + k * e) == k * ((r - s) * (r - s))
    ensures (c + k * e) * (c + k * e) - (c - k * e) * (c - k * e) == 4 * k * (c * e)
  {
    calc {
      (a + k * b) * (a' + k * b') - (c + k * e) * (c + k * e);
      a * a' + k * (a * b' + b * a') + k * k * (b * b') - (c * c + 2 * k * (c * e) + k * k * (e * e));
      k * (a * b' + b * a') - 2 * k * (c * e);
      k * (s * s + r * r) - 2 * k * (r * s);
      k * ((r - s) * (r - s));
    }
  }

  lemma SquareOfProduct(a: int, b: int)
    ensures (a * b) * (a * b) == (a * a) * (b * b)
  {
  }

  /** The curve equation for the sum, in the squares of the four halves. */
  lemma ClosureIdentity(
    k: int, e: int, f: int, g: int, h: int, u: int, w: int, s: int, s': int, n: int, m: int)
    requires h - e == n && e - 4 * s == u && m - g == k * w && g - f == 4 * k * s'
    ensures g * h - e * f - (f * g + k * (e * h))
            == f * (n - m) + 4 * k * (h * (s' - s)) + k * (f * w - h * u)
  {
    calc {
      g * h - e * f - (f * g + k * (e * h));
      f * (h - e - g) + (g - f) * h - k * (e * h);
      f * (n - m + k * w) + (4 * k * s') * h - k * ((u + 4 * s) * h);
      f * (n - m) + 4 * k * (h * (s' - s)) + k * (f * w - h * u);
    }
  }

  lemma CongZero(a: int, b: int)
    ensures Cong(a, b) <==> Cong(a - b, 0)
  {
    hide Cong;
    CongResidue(a, b);
    CongResidue(a - b, 0);
  }

  lemma CongScale(k: int, a: int)
    requires Cong(a, 0)
    ensures Cong(k * a, 0)
  {
    CongMul(k, k, a, 0);
  }

  lemma HalvesOnCurve(p: Point, q: Point)
    requires OnCurve(p) && OnCurve(q)
    ensures var e, f, g, h := E(p, q), F(p, q), G(p, q), H(p, q);
            Cong((g * h) * (g * h) - (e * f) * (e * f), (f * g) * (f * g) + D * ((e * h) * (e * h)))
  {
    hide Cong;
    var e, f, g, h, u, w := E(p, q), F(p, q), G(p, q), H(p, q), U(p, q), W(p, q);
    var s, s', n, m := (p.x * p.y) * (q.x * q.y), (p.z * p.t) * (q.z * q.t), N(p) * N(q), M(p) * M(q);
    hide E, F, G, H, U, W, M, N;
    SquareDifference(p, q);
    NormProduct(p, q);
    var r := (f * f) * (n - m) + 4 * D * ((h * h) * (s' - s)) + D * ((f * f) * (w * w) - (h * h) * (u * u));
    assert (g * h) * (g * h) - (e * f) * (e * f) - ((f * g) * (f * g) + D * ((e * h) * (e * h))) == r by {
      ClosureIdentity(D, e * e, f * f, g * g, h * h, u * u, w * w, s, s', n, m);
      SquareOfProduct(g, h);
      SquareOfProduct(e, f);
      SquareOfProduct(f, g);
      SquareOfProduct(e, h);
    }
    ClosureVanishes(p, q, r);
    CongZero((g * h) * (g * h) - (e * f) * (e * f), (f * g) * (f * g) + D * ((e * h) * (e * h)));
  }

  lemma ClosureVanishes(p: Point, q: Point, r: int)
    requires OnCurve(p) && OnCurve(q)
    requires var f, h, u, w := F(p, q), H(p, q), U(p, q), W(p, q);
             var s, s' := (p.x * p.y) * (q.x * q.y), (p.z * p.t) * (q.z * q.t);
             r == (f * f) * (N(p) * N(q) - M(p) * M(q)) + 4 * D * ((h * h) * (s' - s))
                  + D * ((f * f) * (w * w) - (h * h) * (u * u))
    ensures Cong(r, 0)
  {
    hide Cong;
    var f, h, u, w := F(p, q), H(p, q), U(p, q), W(p, q);
    var s, s', n, m := (p.x * p.y) * (q.x * q.y), (p.z * p.t) * (q.z * q.t), N(p) * N(q), M(p) * M(q);
    hide F, H, U, W;
    CongRefl(0);
    ProportionalDifferences(p, q);
    assert Cong(N(p), M(p)) && Cong(N(q), M(q));
    hide M, N;
    assert Cong((f * f) * (n - m), 0) by {
      CongMul(N(p), M(p), N(q), M(q));
      CongZero(n, m);
      CongScale(f * f, n - m);
    }
    assert Cong(4 * D * ((h * h) * (s' - s)), 0) by {
      CongMul(p.x * p.y, p.z * p.t, q.x * q.y, q.z * q.t);
      CongSym(s, s');
      CongZero(s', s);
      CongScale(h * h, s' - s);
      CongScale(4 * D, (h * h) * (s' - s));
    }
    assert Cong(D * ((f * f) * (w * w) - (h * h) * (u * u)), 0) by {
      CongSym(h * u, f * w);
      CongMul(f * w, h * u, f * w, h * u);
      SquareOfProduct(f, w);
      SquareOfProduct(h, u);
      CongZero((f * w) * (f * w), (h * u) * (h * u));
      CongScale(D, (f * f) * (w * w) - (h * h) * (u * u));
    }
    CongAdd((f * f) * (n - m), 0, 4 * D * ((h * h) * (s' - s)), 0);
    CongAdd((f * f) * (n - m) + 4 * D * ((h * h) * (s' - s)), 0, D * ((f * f) * (w * w) - (h * h) * (u * u)), 0);
  }

  lemma Sixteen(a: int, b: int)
    ensures (4 * a) * (4 * b) == 16 * (a * b)
  {
  }

  /** The sum of two points of the curve is a point of the curve. */
  lemma AddOnCurve(p: Point, q: Point)
    requires OnCurve(p) && OnCurve(q)
    ensures OnCurve(Add(p, q))
  {
    hide Cong;
    var e, f, g, h := E(p, q), F(p, q), G(p, q), H(p, q);
    hide E, F, G, H, Add;
    HalvesOnCurve(p, q);
    AddHalves(p, q);
    AddExtended(p, q);
    CongRefl(Add(p, q).x * Add(p, q).y);
    CongScaleBoth(16, (g * h) * (g * h) - (e * f) * (e * f), (f * g) * (f * g) + D * ((e * h) * (e * h)));
    Sixteen(g * h, g * h);
    Sixteen(e * f, e * f);
    Sixteen(f * g, f * g);
    Sixteen(e * h, e * h);
    SplitSum(D, 16, (f * g) * (f * g), (e * h) * (e * h));
  }

  lemma CongScaleBoth(k: int, a: int, b: int)
    requires Cong(a, b)
    ensures Cong(k * a, k * b)
  {
    CongMul(k, k, a, b);
  }

  lemma IdentityOnCurve()
    ensures OnCurve(IDENTITY)
  {
  }

  /** Addition depends only on residues. */
  lemma AddSame(p: Point, p': Point, q: Point, q': Point)
    requires Same(p, p') && Same(q, q')
    ensures Same(Add(p, q), Add(p', q'))
  {
    hide Cong;
    CongAdd(p.y, p'.y, p.x, p'.x);
    CongAdd(q.y, q'.y, q.x, q'.x);
    CongMul(p.y - p.x, p'.y - p'.x, q.y - q.x, q'.y - q'.x);
    CongMul(p.y + p.x, p'.y + p'.x, q.y + q.x, q'.y + q'.x);
    CongMul(p.t, p'.t, q.t, q'.t);
    CongScaleBoth(2 * D, p.t * q.t, p'.t * q'.t);
    CongMul(p.z, p'.z, q.z, q'.z);
    CongScaleBoth(2, p.z * q.z, p'.z * q'.z);
    var a, a' := (p.y - p.x) * (q.y - q.x), (p'.y - p'.x) * (q'.y - q'.x);
    var b, b' := (p.y + p.x) * (q.y + q.x), (p'.y + p'.x) * (q'.y + q'.x);
    var c, c' := p.t * q.t * (2 * D), p'.t * q'.t * (2 * D);
    var d, d' := 2 * (p.z * q.z), 2 * (p'.z * q'.z);
    CombineSame(a, a', b, b', c, c', d, d');
  }

  lemma CombineSame(a: int, a': int, b: int, b': int, c: int, c': int, d: int, d': int)
    requires Cong(a, a') && Cong(b, b') && Cong(c, c') && Cong(d, d')
    ensures Cong((b - a) * (d - c), (b' - a') * (d' - c')) && Cong((d + c) * (b + a), (d' + c') * (b' + a'))
    ensures Cong((d - c) * (d + c), (d' - c') * (d' + c')) && Cong((b - a) * (b + a), (b' - a') * (b' + a'))
  {
    hide Cong;
    CongAdd(b, b', a, a');
    CongAdd(d, d', c, c');
    CongMul(b - a, b' - a', d - c, d' - c');
    CongMul(d + c, d' + c', b + a, b' + a');
    CongMul(d - c, d' - c', d + c, d' + c');
    CongMul(b - a, b' - a', b + a, b' + a');
  }

  function Negate(p: Point): Point {
    Point(-p.x, p.y, p.z, -p.t)
  }

  lemma NegateProducts(a: int, b: int)
    ensures (-a) * (-b) == a * b && (-a) * b == -(a * b) && a * (-b) == -(a * b)
  {
  }

  lemma NegateOnCurve(p: Point)
    requires OnCurve(p)
    ensures OnCurve(Negate(p))
  {
    hide Cong;
    NegateProducts(p.x, p.x);
    NegateProducts(p.t, p.t);
    NegateProducts(p.x, p.y);
    NegateProducts(p.z, p.t);
    CongRefl(0);
    CongAdd(0, 0, p.x * p.y, p.z * p.t);
  }

  /** The same projective point: coordinates proportional. */
  ghost predicate Proportional(p: Point, q: Point) {
    && Cong(p.x * q.z, q.x * p.z)
    && Cong(p.y * q.z, q.y * p.z)
  }

  lemma AddIdentity(p: Point)
    ensures Add(p, IDENTITY) == Point(4 * (p.x * p.z), 4 * (p.z * p.y), 4 * (p.z * p.z), 4 * (p.x * p.y))
  {
    AddHalves(p, IDENTITY);
  }

  lemma AddCommutes(p: Point, q: Point)
    ensures Add(p, q) == Add(q, p)
  {
  }

  /** (0, 1) is neutral, addition commutes, and p + (-p) is (0, 1). */
  lemma AddLaws(p: Point, q: Point)
    ensures Add(p, q) == Add(q, p)
    ensures Proportional(Add(p, IDENTITY), p)
    ensures OnCurve(p) ==> Proportional(Add(p, Negate(p)), IDENTITY)
  {
    hide Cong;
    AddCommutes(p, q);
    AddIdentity(p);
    hide Add;
    var r := Add(p, IDENTITY);
    Rearrange(p.x, p.z);
    Rearrange(p.y, p.z);
    CongRefl(r.x * p.z);
    CongRefl(r.y * p.z);
    if OnCurve(p) {
      InverseLaw(p);
    }
  }

  lemma Rearrange(x: int, z: int)
    ensures (4 * (x * z)) * z == x * (4 * (z * z))
    ensures (4 * (z * x)) * z == x * (4 * (z * z))
  {
  }

  lemma InverseHalves(p: Point)
    ensures E(p, Negate(p)) == 0 && H(p, Negate(p)) == N(p) && F(p, Negate(p)) == M(p)
  {
    NegateProducts(p.x, p.x);
    NegateProducts(p.t, p.t);
    NegateProducts(p.y, p.x);
  }

  lemma InverseLaw(p: Point)
    requires OnCurve(p)
    ensures Proportional(Add(p, Negate(p)), IDENTITY)
  {
    hide Cong, E, F, G, H, Add;
    var q := Negate(p);
    AddHalves(p, q);
    InverseHalves(p);
    var f, g, h := F(p, q), G(p, q), H(p, q);
    assert Cong(h, f);
    CongScaleBoth(4 * g, h, f);
    Reassociate(g, h, f);
    CongRefl(0);
  }

  lemma Reassociate(g: int, h: int, f: int)
    ensures 4 * (g * h) == (4 * g) * h && 4 * (f * g) == (4 * g) * f
  {
  }

  /** The coordinates stand for the affine point (x, y). */
  ghost predicate Affine(p: Point, x: int, y: int) {
    Cong(p.x, x * p.z) && Cong(p.y, y * p.z) && Cong(p.t, (x * y) * p.z)
  }

  /** What is added is the Edwards sum, with its denominators cleared. */
  lemma AddIsEdwardsSum(p: Point, q: Point, x: int, y: int, x': int, y': int)
    requires Affine(p, x, y) && Affine(q, x', y')
    ensures var r, k := Add(p, q), D * ((x * y) * (x' * y'));
            && Cong(r.x * (1 + k), (x * y' + y * x') * r.z)
            && Cong(r.y * (1 - k), (y * y' + x * x') * r.z)
  {
    hide Cong;
    var k := D * ((x * y) * (x' * y'));
    var e, f, g, h, zz := E(p, q), F(p, q), G(p, q), H(p, q), p.z * q.z;
    hide E, F, G, H, Add;
    AddHalves(p, q);
    HalvesAffine(p, q, x, y, x', y');
    CrossMultiply(e, f, g, x * y' + y * x', 1 + k, zz);
    CrossMultiply(h, g, f, y * y' + x * x', 1 - k, zz);
    ClearFactor(e, f, g, x * y' + y * x', 1 + k);
    ClearFactor(h, g, f, y * y' + x * x', 1 - k);
    assert g * f == f * g && h * g == g * h;
  }

  lemma ClearFactor(e: int, f: int, g: int, a: int, b: int)
    ensures (4 * (e * f)) * b == 4 * (f * (e * b))
    ensures a * (4 * (f * g)) == 4 * (f * (g * a))
  {
  }

  lemma CrossMultiply(e: int, f: int, g: int, a: int, b: int, zz: int)
    requires Cong(e, a * zz) && Cong(g, b * zz)
    ensures Cong(4 * (f * (e * b)), 4 * (f * (g * a)))
  {
    hide Cong;
    CongScaleBoth(b, e, a * zz);
    CongScaleBoth(a, g, b * zz);
    assert b * (a * zz) == a * (b * zz);
    CongSym(a * g, a * (b * zz));
    CongTrans(e * b, b * (a * zz), g * a);
    CongScaleBoth(f, e * b, g * a);
    CongScaleBoth(4, f * (e * b), f * (g * a));
  }

  lemma HalvesAffine(p: Point, q: Point, x: int, y: int, x': int, y': int)
    requires Affine(p, x, y) && Affine(q, x', y')
    ensures var k, zz := D * ((x * y) * (x' * y')), p.z * q.z;
            && Cong(E(p, q), (x * y' + y * x') * zz) && Cong(H(p, q), (y * y' + x * x') * zz)
            && Cong(F(p, q), (1 - k) * zz) && Cong(G(p, q), (1 + k) * zz)
  {
    hide Cong;
    var k, zz := D * ((x * y) * (x' * y')), p.z * q.z;
    ProductAffine(p.x, q.y, x, p.z, y', q.z);
    ProductAffine(p.y, q.x, y, p.z, x', q.z);
    ProductAffine(p.y, q.y, y, p.z, y', q.z);
    ProductAffine(p.x, q.x, x, p.z, x', q.z);
    ProductAffine(p.t, q.t, x * y, p.z, x' * y', q.z);
    CongScaleBoth(D, p.t * q.t, ((x * y) * (x' * y')) * zz);
    assert D * (((x * y) * (x' * y')) * zz) == k * zz;
    CongAdd(p.x * q.y, (x * y') * zz, p.y * q.x, (y * x') * zz);
    CongAdd(p.y * q.y, (y * y') * zz, p.x * q.x, (x * x') * zz);
    CongRefl(zz);
    CongAdd(zz, zz, D * (p.t * q.t), k * zz);
    assert (x * y') * zz + (y * x') * zz == (x * y' + y * x') * zz;
    assert (y * y') * zz + (x * x') * zz == (y * y' + x * x') * zz;
    assert zz - k * zz == (1 - k) * zz && zz + k * zz == (1 + k) * zz;
  }

  lemma ProductAffine(a: int, b: int, x: int, z: int, y: int, z': int)
    requires Cong(a, x * z) && Cong(b, y * z')
    ensures Cong(a * b, (x * y) * (z * z'))
  {
    CongMul(a, x * z, b, y * z');
    assert (x * z) * (y * z') == (x * y) * (z * z');
  }

  // ---- multiples ----

  /** Double-and-add over the n low bits of k, most significant first. */
  ghost function Multiple(n: nat, k: nat, p: Point): Point {
    if n == 0 then IDENTITY
    else
      var r := Multiple(n - 1, k / 2, p);
      var twice := Add(r, r);
      if k % 2 == 1 then Add(twice, p) else twice
  }

  lemma {:induction false} MultipleOnCurve(n: nat, k: nat, p: Point)
    requires OnCurve(p)
    ensures OnCurve(Multiple(n, k, p))
  {
    hide OnCurve, Add;
    if n == 0 {
      IdentityOnCurve();
    } else {
      MultipleOnCurve(n - 1, k / 2, p);
      var r := Multiple(n - 1, k / 2, p);
      AddOnCurve(r, r);
      AddOnCurve(Add(r, r), p);
    }
  }

  /** From any point, on the curve or not, XY = ZT after every round, in whatever residues the result is held. */
  lemma MultipleExtended(n: nat, k: nat, p: Point, q: Point)
    requires Same(q, Multiple(n, k, p))
    ensures Cong(q.x * q.y, q.z * q.t)
  {
    hide Cong;
    var m := Multiple(n, k, p);
    MultipleIsSum(n, k, p);
    hide Add, Multiple;
    CongRefl(m.x * m.y);
    CongMul(q.x, m.x, q.y, m.y);
    CongMul(q.z, m.z, q.t, m.t);
    CongSym(q.z * q.t, m.z * m.t);
    CongTrans(q.x * q.y, m.z * m.t, q.z * q.t);
  }

  lemma MultipleIsSum(n: nat, k: nat, p: Point)
    ensures var m := Multiple(n, k, p); m.x * m.y == m.z * m.t
  {
    hide Add;
    if n > 0 {
      var r := Multiple(n - 1, k / 2, p);
      AddExtended(r, r);
      AddExtended(Add(r, r), p);
    }
  }
}
