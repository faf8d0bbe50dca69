/** The point decoder is complete: its one candidate finds a root of x^2 = u/v whenever there is one. */
module Decoding {
  import opened Words
  import opened ModP
  import opened Primes
  import opened Curve
  import opened PointBytes

  /** p is prime, which is taken as given. */
  ghost predicate PIsPrime() {
    Prime(PRIME)
  }

  lemma CongDivides(a: int, b: int)
    ensures Cong(a, b) <==> Divides(PRIME, a - b)
  {
    PrimeIsP();
    Congruent(PRIME, a, b);
  }

  lemma Congruent(q: nat, a: int, b: int)
    requires q > 0
    ensures a % q == b % q <==> Divides(q, a - b)
  {
    if a % q == b % q {
      Primes.SameResidue(q, a, b);
    }
    if Divides(q, a - b) {
      var k :| a - b == q * k;
      assert a == q * (k + b / q) + b % q;
      DivModUnique(a, q, k + b / q, b % q);
    }
  }

  lemma NoZeroDivisors(a: int, b: int)
    requires PIsPrime() && Cong(a * b, 0)
    ensures Cong(a, 0) || Cong(b, 0)
  {
    hide Cong, Divides, Prime;
    PrimeIsP();
    CongDivides(a * b, 0);
    CongDivides(a, 0);
    CongDivides(b, 0);
    if !Divides(PRIME, a) {
      Euclid(PRIME, a, b);
    }
  }

  lemma FermatP(a: int)
    requires PIsPrime() && !Cong(a, 0)
    ensures Cong(Pow(a, P - 1), 1)
  {
    hide Cong, Divides, Prime, Pow;
    PrimeIsP();
    CongDivides(a, 0);
    Fermat(PRIME, a);
    CongDivides(Pow(a, P - 1), 1);
  }

  /** What `fe_invert` computes is the inverse. */
  lemma InverseIsInverse(z: int)
    requires PIsPrime() && !Cong(z, 0)
    ensures Cong(z * Pow(z, P - 2), 1)
  {
    hide Cong, PIsPrime;
    FermatP(z);
    assert Pow(z, P - 1) == z * Pow(z, P - 2);
  }

  /** Only 1 and -1 square to 1. */
  lemma RootsOfOne(e: int)
    requires PIsPrime() && Cong(e * e, 1)
    ensures Cong(e, 1) || Cong(e, -1)
  {
    hide Cong, PIsPrime;
    CongRefl(1);
    CongAdd(e * e, 1, 1, 1);
    assert e * e - 1 == (e - 1) * (e + 1);
    NoZeroDivisors(e - 1, e + 1);
    if Cong(e - 1, 0) {
      CongAdd(e - 1, 0, 1, 1);
    } else {
      CongAdd(e + 1, 0, 1, 1);
    }
  }

  // ---- the candidate ----

  /** u v^7, which the code raises to a power. */
  ghost function Radicand(u: int, v: int): int {
    var v3 := v * v * v;
    v3 * v3 * v * u
  }

  /** v c^2 = u (u v^7)^((p - 1) / 4) */
  lemma CandidateSquared(u: int, v: int, e: nat)
    requires e == (P - 5) / 8
    ensures var c := Root(u, v); c * c * v == Pow(Radicand(u, v), 2 * e + 1) * u
  {
    var z, v3 := Radicand(u, v), v * v * v;
    var k := Pow(z, e);
    assert Pow(z, 2 * e + 1) == k * k * z by {
      PowAdd(z, e, e);
      PowAdd(z, 2 * e, 1);
      assert Pow(z, 1) == z * Pow(z, 0);
    }
    hide Pow;
    Squared(k, v3, u, v);
  }

  lemma Squared(k: int, w: int, u: int, v: int)
    ensures (k * w * u) * (k * w * u) * v == k * k * (w * w * v * u) * u
  {
    assert (k * w * u) * (k * w * u) == (k * k) * ((w * w) * (u * u)) by {
      SquareOfProduct(k * w, u);
      SquareOfProduct(k, w);
    }
  }

  /** If u = v x^2 then u v^7 is the square of v^4 x. */
  lemma RadicandIsSquare(u: int, v: int, x: int)
    requires Cong(x * x * v, u)
    ensures var w := v * v * (v * v) * x; Cong(Radicand(u, v), w * w)
  {
    hide Cong;
    var v3, w := v * v * v, v * v * (v * v) * x;
    CongSym(x * x * v, u);
    CongScaleBoth(v3 * v3 * v, u, x * x * v);
    EighthPower(v, x);
  }

  lemma EighthPower(v: int, x: int)
    ensures var v3, w := v * v * v, v * v * (v * v) * x; (v3 * v3 * v) * (x * x * v) == w * w
  {
    var v2 := v * v;
    var v3, v4 := v2 * v, v2 * v2;
    SquareOfProduct(v4, x);
    assert v3 * v == v4;
    assert (v3 * v3 * v) * (x * x * v) == (v3 * v) * (v3 * v) * (x * x) by {
      Shuffle(v3, v, x * x);
    }
  }

  lemma Shuffle(a: int, b: int, c: int)
    ensures (a * a * b) * (c * b) == (a * b) * (a * b) * c
  {
  }

  lemma {:induction false} PowOfSquare(w: int, n: nat)
    ensures Pow(w * w, n) == Pow(w, 2 * n)
  {
    if n > 0 {
      PowOfSquare(w, n - 1);
      PowAdd(w, 2, 2 * (n - 1));
      assert Pow(w, 2) == w * Pow(w, 1) == w * (w * Pow(w, 0));
    }
  }

  /** (v^4 x)^((p - 1) / 2) is 1 or -1. */
  lemma SignOf(w: int, e: nat)
    requires PIsPrime() && !Cong(w, 0) && P == 8 * e + 5
    ensures var s := Pow(w * w, 2 * e + 1); Cong(s, 1) || Cong(s, -1)
  {
    hide Cong, Pow, PIsPrime;
    PowOfSquare(w, 2 * e + 1);
    var s := Pow(w, 4 * e + 2);
    PowAdd(w, 4 * e + 2, 4 * e + 2);
    FermatP(w);
    RootsOfOne(s);
  }

  lemma NonzeroProduct(v: int, x: int)
    requires PIsPrime() && !Cong(v, 0) && !Cong(x, 0)
    ensures !Cong(v * v * (v * v) * x, 0)
  {
    hide Cong, PIsPrime;
    if Cong(v * v * (v * v) * x, 0) {
      NoZeroDivisors(v * v * (v * v), x);
      NoZeroDivisors(v * v, v * v);
      NoZeroDivisors(v, v);
    }
  }

  /** Whenever v x^2 = u has a solution, the candidate solves v c^2 = u or v c^2 = -u. */
  lemma CandidateFound(u: int, v: int, x: int)
    requires PIsPrime() && Cong(x * x * v, u) && !Cong(v, 0)
    ensures var c := Root(u, v); Cong(c * c * v, u) || Cong(c * c * v, -u)
  {
    hide Cong;
    var e: nat := (P - 5) / 8;
    assert P == 8 * e + 5;
    hide Root, Radicand, PIsPrime, Pow;
    var c, z, w := Root(u, v), Radicand(u, v), v * v * (v * v) * x;
    CandidateSquared(u, v, e);
    if Cong(x, 0) {
      ZeroSide(u, v, x);
      CongScale(Pow(z, 2 * e + 1), u);
      CongSym(u, 0);
      CongTrans(c * c * v, 0, u);
    } else {
      NonzeroProduct(v, x);
      SignOf(w, e);
      RadicandIsSquare(u, v, x);
      CongPow(z, w * w, 2 * e + 1);
      EitherUnit(Pow(z, 2 * e + 1), Pow(w * w, 2 * e + 1), u);
    }
  }

  lemma ZeroSide(u: int, v: int, x: int)
    requires Cong(x * x * v, u) && Cong(x, 0)
    ensures Cong(u, 0)
  {
    hide Cong;
    CongScale(x * v, x);
    assert (x * v) * x == x * x * v by { RegroupSquare(x, v); }
    CongSym(x * x * v, u);
    CongTrans(u, x * x * v, 0);
  }

  lemma EitherUnit(a: int, s: int, u: int)
    requires Cong(a, s) && (Cong(s, 1) || Cong(s, -1))
    ensures Cong(a * u, u) || Cong(a * u, -u)
  {
    hide Cong;
    var one := if Cong(s, 1) then 1 else -1;
    CongTrans(a, s, one);
    CongScaleBoth(u, a, one);
    assert u * a == a * u && u * one == if one == 1 then u else -u;
  }

  // ---- the two sides ----

  lemma RootFromCurve(x: int, y: int)
    requires OnCurve(Point(x, y, 1, x * y))
    ensures Cong(x * x * SideV(y), SideU(y))
  {
    hide Cong;
    var xx, yy := x * x, y * y;
    SquareOfProduct(x, y);
    Expand(xx, yy);
    CongRefl(xx - 1);
    CongAdd(yy - xx, 1 + D * (xx * yy), xx - 1, xx - 1);
    CongSym(yy - 1, D * (xx * yy) + xx);
  }

  /** v = d y^2 + 1 is not 0 where there is a root: 121666 v would be 1. */
  lemma SideVNonzero(x: int, y: int)
    requires Cong(x * x * SideV(y), SideU(y))
    ensures !Cong(SideV(y), 0)
  {
    hide Cong;
    var v, u, yy := SideV(y), SideU(y), y * y;
    ConstantD();
    CongResidue(1, 0);
    if Cong(v, 0) {
      CongScale(x * x, v);
      CongSym(x * x * v, u);
      CongTrans(u, x * x * v, 0);
      CongScale(121666, v);
      CongScale(-121665, u);
      CongScaleBoth(yy, D * 121666, -121665);
      assert 121666 * v == yy * (D * 121666) + 121666;
      CongRefl(121666);
      CongAdd(yy * (D * 121666), yy * -121665, 121666, 121666);
      CongSym(121666 * v, yy * -121665 + 121666);
      CongTrans(yy * -121665 + 121666, 121666 * v, 0);
      assert yy * -121665 + 121666 - (-121665 * u) == 1;
      CongAdd(yy * -121665 + 121666, 0, -121665 * u, 0);
      assert false;
    }
  }

  /** A point of the curve whose encoding is y and the sign bit. */
  ghost predicate Encodes(x: int, y: int, negative: bool) {
    OnCurve(Point(x, y, 1, x * y)) && x % P % 2 == if negative then 1 else 0
  }

  lemma FoundWhenThere(x: int, y: int, negative: bool)
    requires PIsPrime() && Encodes(x, y, negative)
    ensures Decodable(y, negative)
  {
    hide Cong, OnCurve, Root, PIsPrime;
    var u, v := SideU(y), SideV(y);
    RootFromCurve(x, y);
    SideVNonzero(x, y);
    hide SideU, SideV;
    CandidateFound(u, v, x);
    var c := Root(u, v);
    if negative && Cong(c, 0) {
      CongScale(c * v, c);
      assert (c * v) * c == c * c * v by { RegroupSquare(c, v); }
      ZeroEither(c * c * v, u);
      CongTrans(x * x * v, u, 0);
      NoZeroDivisors(x * x, v);
      NoZeroDivisors(x, x);
      CongResidue(x, 0);
      assert false;
    }
  }

  lemma ZeroEither(a: int, u: int)
    requires Cong(a, 0) && (Cong(a, u) || Cong(a, -u))
    ensures Cong(u, 0)
  {
    hide Cong;
    if Cong(a, u) {
      CongSym(a, u);
      CongTrans(u, a, 0);
    } else {
      CongSym(a, -u);
      CongTrans(-u, a, 0);
      CongRefl(0);
      CongAdd(0, 0, -u, 0);
    }
  }

  lemma ThereWhenFound(y: int, negative: bool)
    requires Decodable(y, negative)
    ensures Encodes(XFor(y, negative), y, negative)
  {
    hide Cong;
    var u, v := SideU(y), SideV(y);
    var c := Root(u, v);
    var r := Turned(c, u, v);
    var x := WithSign(r, negative);
    hide Root;
    CongRefl(r);
    assert Cong(r * r * v, u) && (Cong(r, 0) <==> Cong(c, 0)) by {
      if !Cong(c * c * v, u) {
        DecodingConstants();
        RotatedRoot(SQRTM1, c, r, u, v);
      }
    }
    CongRefl(x);
    CongRefl(u);
    CongRefl(v);
    hide SideU, SideV;
    EitherSign(x, r, negative, v, u);
    CurveFromRoot(x, y, u, v);
    CongResidue(r, 0);
    ParityOfNegation(r, x, negative);
  }

  /** With p prime, the decoder accepts exactly the encodings of points of the curve. */
  lemma DecodableIff(y: int, negative: bool)
    requires PIsPrime()
    ensures Decodable(y, negative) <==> exists x :: Encodes(x, y, negative)
  {
    hide PIsPrime, Decodable, Encodes, XFor;
    if Decodable(y, negative) {
      ThereWhenFound(y, negative);
    }
    forall x | Encodes(x, y, negative) ensures Decodable(y, negative) {
      FoundWhenThere(x, y, negative);
    }
  }
}
