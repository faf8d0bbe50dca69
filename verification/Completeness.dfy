/** The addition formula has no exceptions: no sum of points of the curve has Z = 0, so equal means equal. */
module Completeness {
  import opened Words
  import opened ModP
  import opened Field
  import opened Curve
  import opened Points
  import opened PointBytes
  import opened Scalars
  import opened Decoding
  import opened Ed25519

  ghost predicate RootOfD(s: int) {
    Cong(s * s, D)
  }

  /** d is not a square modulo p, which is taken as given. */
  ghost predicate DIsNoSquare() {
    forall s :: !RootOfD(s)
  }

  /** A point of the curve that has affine coordinates. */
  ghost predicate Finite(p: Point) {
    OnCurve(p) && !Cong(p.z, 0)
  }

  // ---- what follows from F = 0 or G = 0 ----

  /** With i^2 = -1 and s = 1 or -1, the square of ix + sy. */
  lemma MixedSquare(i: int, x: int, y: int, s: int)
    requires Cong(i * i, -1) && s * s == 1
    ensures Cong((i * x + s * y) * (i * x + s * y), (y * y - x * x) + (2 * (i * s)) * (x * y))
  {
    hide Cong;
    var m := (2 * (i * s)) * (x * y) + y * y;
    CongScaleBoth(x * x, i * i, -1);
    CongRefl(m);
    CongAdd((x * x) * (i * i), (x * x) * -1, m, m);
    MixedTerms(i, x, y, s);
  }

  lemma MixedTerms(i: int, x: int, y: int, s: int)
    requires s * s == 1
    ensures (i * x + s * y) * (i * x + s * y) == (x * x) * (i * i) + ((2 * (i * s)) * (x * y) + y * y)
  {
    var a, b := i * x, s * y;
    assert (a + b) * (a + b) == a * a + 2 * (a * b) + b * b;
    SquareOfProduct(i, x);
    SquareOfProduct(s, y);
    CrossProduct(i, x, s, y);
  }

  lemma CrossProduct(i: int, x: int, s: int, y: int)
    ensures (i * x) * (s * y) == (i * s) * (x * y)
  {
  }

  /** Both sides of the curve equations, once d t t' is z z' up to the sign e. */
  lemma SidesAgree(d: int, n: int, z: int, t: int, n': int, z': int, t': int, e: int)
    requires Cong(n, z * z + d * (t * t)) && Cong(n', z' * z' + d * (t' * t'))
    requires e * e == 1 && Cong(d * (t * t'), e * (z * z'))
    ensures Cong((z' * z') * n, (d * (t * t)) * n')
  {
    hide Cong;
    var c, w, k := d * (t * t), z' * z', d * (t * t');
    CongScaleBoth(w, n, z * z + c);
    CongScaleBoth(c, n', w + d * (t' * t'));
    CongMul(k, e * (z * z'), k, e * (z * z'));
    SquareOfProduct(e, z * z');
    SquareOfProduct(z, z');
    CongRefl(c * w);
    CongAdd(c * w, c * w, k * k, (z * z) * w);
    ProductsOfSides(d, t, t');
    assert c * (w + d * (t' * t')) == c * w + k * k;
    assert w * (z * z + c) == c * w + (z * z) * w;
    CongTrans(c * n', c * w + k * k, w * (z * z + c));
    CongSym(w * n, w * (z * z + c));
    SameEnds(w * n, w * (z * z + c), c * n');
  }

  lemma SameEnds(a: int, b: int, c: int)
    requires Cong(b, a) && Cong(c, b)
    ensures Cong(a, c)
  {
  }

  lemma ProductsOfSides(d: int, t: int, t': int)
    ensures (d * (t * t)) * (d * (t' * t')) == (d * (t * t')) * (d * (t * t'))
  {
    SquareOfProduct(t, t');
    SquareOfProduct(d, t * t');
    CrossProduct(d, t * t, d, t' * t');
  }

  /** The same for the cross terms. */
  lemma CrossAgree(d: int, m: int, z: int, t: int, m': int, z': int, t': int, e: int)
    requires Cong(m, z * t) && Cong(m', z' * t') && Cong(d * (t * t'), e * (z * z'))
    ensures Cong(e * ((z' * z') * m), (d * (t * t)) * m')
  {
    hide Cong;
    var k, j := z' * z', d * (t * t);
    CongScaleBoth(e * k, m, z * t);
    CongScaleBoth(j, m', z' * t');
    CongScaleBoth(z' * t, d * (t * t'), e * (z * z'));
    assert (e * k) * (z * t) == (z' * t) * (e * (z * z')) by {
      Shuffled(e, z, z', t);
    }
    assert j * (z' * t') == (z' * t) * (d * (t * t')) by {
      Shuffled(d, t', t, z');
    }
    assert e * (k * m) == (e * k) * m;
    CongSym(j * m', j * (z' * t'));
    SameBoth(e * (k * m), (z' * t) * (e * (z * z')), j * m', (z' * t) * (d * (t * t')));
    CongSym((z' * t) * (d * (t * t')), (z' * t) * (e * (z * z')));
  }

  lemma Shuffled(a: int, b: int, c: int, f: int)
    ensures (a * (c * c)) * (b * f) == (c * f) * (a * (b * c))
    ensures (a * (c * c)) * (f * b) == (f * c) * (a * (c * b))
  {
  }

  /** The two equations together, as squares. */
  lemma SquaresAgree(d: int, p: Point, q: Point, i: int, s: int, e: int)
    requires Cong(p.y * p.y - p.x * p.x, p.z * p.z + d * (p.t * p.t)) && Cong(p.x * p.y, p.z * p.t)
    requires Cong(q.y * q.y - q.x * q.x, q.z * q.z + d * (q.t * q.t)) && Cong(q.x * q.y, q.z * q.t)
    requires Cong(i * i, -1) && s * s == 1 && e * e == 1 && Cong(d * (p.t * q.t), e * (p.z * q.z))
    ensures var b, a := q.z * (i * p.x + (s * e) * p.y), p.t * (i * q.x + s * q.y); Cong(b * b, d * (a * a))
  {
    hide Cong;
    var u, u' := i * p.x + (s * e) * p.y, i * q.x + s * q.y;
    var n, n', m, m' := p.y * p.y - p.x * p.x, q.y * q.y - q.x * q.x, p.x * p.y, q.x * q.y;
    var k, j := q.z * q.z, d * (p.t * p.t);
    SquareOfProduct(s, e);
    MixedSquare(i, p.x, p.y, s * e);
    MixedSquare(i, q.x, q.y, s);
    SidesAgree(d, n, p.z, p.t, n', q.z, q.t, e);
    CrossAgree(d, m, p.z, p.t, m', q.z, q.t, e);
    SumAgrees(k, j, n, n', m, m', i * s, e);
    TripleProduct(i, s, e);
    CongScaleBoth(k, u * u, n + (2 * (i * (s * e))) * m);
    CongScaleBoth(j, u' * u', n' + (2 * (i * s)) * m');
    SameBoth(k * (u * u), k * (n + (2 * (i * (s * e))) * m), j * (u' * u'), j * (n' + (2 * (i * s)) * m'));
    SquareOfProduct(q.z, u);
    SquareOfProduct(p.t, u');
    assert d * ((p.t * p.t) * (u' * u')) == j * (u' * u');
  }

  lemma TripleProduct(i: int, s: int, e: int)
    ensures i * (s * e) == (i * s) * e
  {
  }

  lemma SumAgrees(k: int, j: int, n: int, n': int, m: int, m': int, c: int, e: int)
    requires Cong(k * n, j * n') && Cong(e * (k * m), j * m')
    ensures Cong(k * (n + (2 * (c * e)) * m), j * (n' + (2 * c) * m'))
  {
    hide Cong;
    CongScaleBoth(2 * c, e * (k * m), j * m');
    CongAdd(k * n, j * n', (2 * c) * (e * (k * m)), (2 * c) * (j * m'));
    Distribute(k, n, c * e, m);
    Distribute(j, n', c, m');
    assert (2 * (c * e)) * (k * m) == (2 * c) * (e * (k * m)) by {
      TripleProduct(2 * c, e, k * m);
      assert (2 * c) * e == 2 * (c * e);
    }
  }

  lemma Distribute(k: int, n: int, c: int, m: int)
    ensures k * (n + (2 * c) * m) == k * n + (2 * c) * (k * m)
  {
    CrossProduct(k, 1, 2 * c, m);
  }

  // ---- then d would be a square ----

  lemma RootFromSquares(a: int, b: int)
    requires PIsPrime() && !Cong(a, 0) && Cong(b * b, D * (a * a))
    ensures RootOfD(b * Pow(a, P - 2))
  {
    hide Cong, PIsPrime, Pow;
    InverseIsInverse(a);
    RootOfQuotient(D, a, b, Pow(a, P - 2));
  }

  lemma RootOfQuotient(d: int, a: int, b: int, w: int)
    requires Cong(a * w, 1) && Cong(b * b, d * (a * a))
    ensures Cong((b * w) * (b * w), d)
  {
    hide Cong;
    CongScaleBoth(w * w, b * b, d * (a * a));
    CongMul(a * w, 1, a * w, 1);
    CongScaleBoth(d, (a * w) * (a * w), 1);
    SquareOfProduct(b, w);
    SquareOfProduct(a, w);
    assert (w * w) * (d * (a * a)) == d * ((a * a) * (w * w));
    CongTrans((b * w) * (b * w), d * ((a * w) * (a * w)), d);
  }

  lemma RootOfMinusOne() returns (i: int)
    ensures Cong(i * i, -1)
  {
    hide Cong;
    DecodingConstants();
    i := SQRTM1;
  }

  lemma ProductNonzero(a: int, b: int)
    requires PIsPrime() && !Cong(a, 0) && !Cong(b, 0)
    ensures !Cong(a * b, 0)
  {
    hide Cong, PIsPrime;
    if Cong(a * b, 0) {
      NoZeroDivisors(a, b);
    }
  }

  /** d t t' = z z' or d t t' = -z z' leaves neither t nor t' zero. */
  lemma BothNonzero(d: int, t: int, t': int, z: int, z': int, e: int)
    requires PIsPrime() && !Cong(z, 0) && !Cong(z', 0) && e * e == 1 && Cong(d * (t * t'), e * (z * z'))
    ensures !Cong(t, 0) && !Cong(t', 0)
  {
    hide Cong, PIsPrime;
    ProductNonzero(z, z');
    if Cong(t, 0) || Cong(t', 0) {
      if Cong(t, 0) {
        CongScale(t', t);
        assert t' * t == t * t';
      } else {
        CongScale(t, t');
      }
      CongScale(d, t * t');
      CongSym(d * (t * t'), e * (z * z'));
      CongTrans(e * (z * z'), d * (t * t'), 0);
      CongScale(e, e * (z * z'));
      assert e * (e * (z * z')) == z * z' by {
        TripleProduct(e, e, z * z');
      }
    }
  }

  /** i x + y and i x - y are not both zero at a point where t is not. */
  lemma OneNonzero(i: int, q: Point)
    requires PIsPrime() && Cong(i * i, -1) && Cong(q.x * q.y, q.z * q.t) && !Cong(q.z, 0) && !Cong(q.t, 0)
    ensures !Cong(i * q.x + q.y, 0) || !Cong(i * q.x - q.y, 0)
  {
    hide Cong, PIsPrime;
    if Cong(i * q.x + q.y, 0) && Cong(i * q.x - q.y, 0) {
      CongAdd(i * q.x + q.y, 0, i * q.x - q.y, 0);
      CongResidue(2, 0);
      NoZeroDivisors(2, q.y);
      CongScale(q.x, q.y);
      CongSym(q.x * q.y, q.z * q.t);
      CongTrans(q.z * q.t, q.x * q.y, 0);
      ProductNonzero(q.z, q.t);
    }
  }

  /** Neither factor of the sum's Z can vanish. */
  lemma NoException(p: Point, q: Point, e: int)
    requires PIsPrime() && DIsNoSquare() && Finite(p) && Finite(q) && e * e == 1
    ensures !Cong(D * (p.t * q.t), e * (p.z * q.z))
  {
    hide Cong, PIsPrime;
    if Cong(D * (p.t * q.t), e * (p.z * q.z)) {
      var i := RootOfMinusOne();
      BothNonzero(D, p.t, q.t, p.z, q.z, e);
      OneNonzero(i, q);
      var s := if !Cong(i * q.x + q.y, 0) then 1 else -1;
      SquaresAgree(D, p, q, i, s, e);
      var a, b := p.t * (i * q.x + s * q.y), q.z * (i * p.x + (s * e) * p.y);
      ProductNonzero(p.t, i * q.x + s * q.y);
      RootFromSquares(a, b);
      assert false;
    }
  }

  // ---- the formula is complete ----

  /** The sum of two points of the curve that have affine coordinates is another. */
  lemma AddFinite(p: Point, q: Point)
    requires PIsPrime() && DIsNoSquare() && Finite(p) && Finite(q)
    ensures Finite(Add(p, q))
  {
    hide Cong, PIsPrime, DIsNoSquare, Add;
    AddHalves(p, q);
    AddOnCurve(p, q);
    FactorsNonzero(p, q);
    CongResidue(4, 0);
    hide F, G, E, H, OnCurve;
    ProductNonzero(F(p, q), G(p, q));
    ProductNonzero(4, F(p, q) * G(p, q));
  }

  lemma FactorsNonzero(p: Point, q: Point)
    requires PIsPrime() && DIsNoSquare() && Finite(p) && Finite(q)
    ensures !Cong(F(p, q), 0) && !Cong(G(p, q), 0)
  {
    hide Cong, PIsPrime, DIsNoSquare, OnCurve;
    var z, k := p.z * q.z, D * (p.t * q.t);
    NoException(p, q, 1);
    NoException(p, q, -1);
    CongRefl(k);
    CongRefl(z);
    if Cong(F(p, q), 0) {
      CongAdd(z - k, 0, k, k);
      CongSym(z, k);
    }
    if Cong(G(p, q), 0) {
      CongAdd(z + k, 0, z, z);
    }
  }

  lemma {:induction false} MultipleFinite(n: nat, k: nat, p: Point)
    requires PIsPrime() && DIsNoSquare() && Finite(p)
    ensures Finite(Multiple(n, k, p))
  {
    hide Finite, Add, PIsPrime, DIsNoSquare;
    if n == 0 {
      IdentityFinite();
    } else {
      MultipleFinite(n - 1, k / 2, p);
      var r := Multiple(n - 1, k / 2, p);
      AddFinite(r, r);
      AddFinite(Add(r, r), p);
    }
  }

  lemma IdentityFinite()
    ensures Finite(IDENTITY)
  {
    hide Cong;
    IdentityOnCurve();
    CongResidue(1, 0);
  }

  // ---- what a valid signature satisfies ----

  lemma NegateFinite(p: Point)
    requires Finite(p)
    ensures Finite(Negate(p))
  {
    NegateOnCurve(p);
  }

  lemma BaseFinite()
    ensures Finite(BASE)
  {
    hide Cong, OnCurve;
    BasePoint();
    CongResidue(1, 0);
  }

  lemma DecodedFinite(n: int)
    requires Decodable(n % TWO255, n >= TWO255)
    ensures Finite(PointFor(n))
  {
    hide Cong, OnCurve, Decodable, XFor;
    ThereWhenFound(n % TWO255, n >= TWO255);
    CongResidue(1, 0);
  }

  /** The point that must equal R has affine coordinates. */
  lemma ExpectedFinite(s: nat, k: nat, a: Point)
    requires PIsPrime() && DIsNoSquare() && Finite(a)
    ensures Finite(Expected(s, k, a))
  {
    hide Finite, Add, Multiple, Negate, PIsPrime, DIsNoSquare;
    BaseFinite();
    NegateFinite(a);
    MultipleFinite(256, s, BASE);
    MultipleFinite(256, k, Negate(a));
    AddFinite(Multiple(256, s, BASE), Multiple(256, k, Negate(a)));
  }

  /** T follows from the other coordinates. */
  lemma AffineT(p: Point, x: int, y: int)
    requires PIsPrime() && Finite(p) && Cong(p.x, x * p.z) && Cong(p.y, y * p.z)
    ensures Affine(p, x, y)
  {
    hide Cong, PIsPrime;
    var w := (x * y) * p.z;
    CongMul(p.x, x * p.z, p.y, y * p.z);
    CrossProduct(x, p.z, y, p.z);
    TripleProduct(x * y, p.z, p.z);
    assert (x * p.z) * (y * p.z) == p.z * w;
    CongSym(p.x * p.y, p.z * p.t);
    CongTrans(p.z * p.t, p.x * p.y, p.z * w);
    CongRefl(p.z * w);
    CongAdd(p.z * p.t, p.z * w, p.z * w, p.z * w);
    assert p.z * p.t - p.z * w == p.z * (p.t - w);
    NoZeroDivisors(p.z, p.t - w);
    CongRefl(w);
    CongAdd(p.t - w, 0, w, w);
  }

  /** R has Z = 1: the comparison holds exactly when the point compared with it has R's affine coordinates. */
  lemma ProportionalIsAffine(p: Point, x: int, y: int)
    requires PIsPrime() && Finite(p)
    ensures Proportional(p, Point(x, y, 1, x * y)) <==> Affine(p, x, y)
  {
    hide Cong, PIsPrime, Finite;
    if Proportional(p, Point(x, y, 1, x * y)) {
      AffineT(p, x, y);
    }
  }

  /** A signature is valid exactly when [S]B - [k]A is a point with affine coordinates and they are R's. */
  lemma ValidIsEquation(r: bytes, s: bytes, a: bytes, h: bytes)
    requires PIsPrime() && DIsNoSquare()
    ensures var e, q := Expected(LittleEndian(s), LittleEndian(h) % L, PointFor(LittleEndian(a))),
                        PointFor(LittleEndian(r));
            ValidSignature(r, s, a, h)
            <==> && LittleEndian(s) < L
                 && Decodable(LittleEndian(a) % TWO255, LittleEndian(a) >= TWO255)
                 && Decodable(LittleEndian(r) % TWO255, LittleEndian(r) >= TWO255)
                 && Finite(e) && Affine(e, q.x, q.y)
  {
    hide PIsPrime, DIsNoSquare, Decodable, Finite, Proportional, Affine, Expected, LittleEndian;
    var n, k := LittleEndian(a), LittleEndian(h) % L;
    if Decodable(n % TWO255, n >= TWO255) {
      DecodedFinite(n);
      var e, q := Expected(LittleEndian(s), k, PointFor(n)), PointFor(LittleEndian(r));
      ExpectedFinite(LittleEndian(s), k, PointFor(n));
      ProportionalIsAffine(e, q.x, q.y);
    }
  }
}
