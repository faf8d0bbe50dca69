/** Signature verification, from bytes to the curve equation. */
module Ed25519 {
  import opened Words
  import opened ModP
  import opened Field
  import opened FieldBytes
  import opened Curve
  import opened Points
  import opened PointBytes
  import opened Scalars

  const BASE := Point(BX, BY, 1, BX * BY)

  /** [S]B - [k]A, the point that must equal R. */
  ghost function Expected(s: nat, k: nat, a: Point): Point {
    Add(Multiple(256, s, BASE), Multiple(256, k, Negate(a)))
  }

  /** What a valid signature is: S below L, both points decodable, and [S]B - [k]A = R. */
  ghost predicate ValidSignature(r: bytes, s: bytes, a: bytes, h: bytes) {
    && LittleEndian(s) < L
    && Decodable(LittleEndian(a) % TWO255, LittleEndian(a) >= TWO255)
    && Decodable(LittleEndian(r) % TWO255, LittleEndian(r) >= TWO255)
    && Proportional(Expected(LittleEndian(s), LittleEndian(h) % L, PointFor(LittleEndian(a))),
                    PointFor(LittleEndian(r)))
  }

  // ---- equal residues give equal answers ----

  lemma {:induction false} MultipleSame(n: nat, k: nat, p: Point, q: Point)
    requires Same(p, q)
    ensures Same(Multiple(n, k, p), Multiple(n, k, q))
  {
    hide Same, Add;
    if n == 0 {
      SameRefl(IDENTITY);
    } else {
      MultipleSame(n - 1, k / 2, p, q);
      var x, y := Multiple(n - 1, k / 2, p), Multiple(n - 1, k / 2, q);
      AddSame(x, y, x, y);
      AddSame(Add(x, x), Add(y, y), p, q);
    }
  }

  lemma NegateSame(p: Point, q: Point)
    requires Same(p, q)
    ensures Same(Negate(p), Negate(q))
  {
    hide Cong;
    CongRefl(0);
    CongAdd(0, 0, p.x, q.x);
    CongAdd(0, 0, p.t, q.t);
  }

  lemma ProportionalSame(p: Point, p': Point, q: Point, q': Point)
    requires Same(p, p') && Same(q, q')
    ensures Proportional(p, q) <==> Proportional(p', q')
  {
    hide Cong;
    CongMul(p.x, p'.x, q.z, q'.z);
    CongMul(q.x, q'.x, p.z, p'.z);
    CongMul(p.y, p'.y, q.z, q'.z);
    CongMul(q.y, q'.y, p.z, p'.z);
    SameBoth(p.x * q.z, p'.x * q'.z, q.x * p.z, q'.x * p'.z);
    SameBoth(p.y * q.z, p'.y * q'.z, q.y * p.z, q'.y * p'.z);
  }

  // ---- the comparison ----

  method CrossEqual(f: array<u64>, g: array<u64>, f': array<u64>, g': array<u64>) returns (equal: bool)
    requires f.Length == g.Length == f'.Length == g'.Length == 5
    requires Reduced(f) && Reduced(g) && Reduced(f') && Reduced(g')
    ensures equal <==> Cong(Val(f) * Val(g), Val(f') * Val(g'))
  {
    hide Val, Cong, Reduced, Within;
    var c1, c2 := new u64[5], new u64[5];
    FeTimes(c1, f, g);
    FeTimes(c2, f', g');
    ReducedFits(c1);
    ReducedFits(c2);
    equal := FeEqual(c1, c2);
    SameBoth(Val(c1), Val(f) * Val(g), Val(c2), Val(f') * Val(g'));
  }

  /** x1/z1 = x2/z2 and y1/z1 = y2/z2 without dividing. */
  method SameProjective(p: Ge, q: Ge) returns (same: bool)
    requires p.Shape() && q.Shape() && p.Bounded() && q.Bounded()
    ensures same <==> Proportional(p.View(), q.View())
  {
    hide Val, Cong, Reduced;
    var x := CrossEqual(p.X, q.Z, q.X, p.Z);
    var y := CrossEqual(p.Y, q.Z, q.Y, p.Z);
    same := x && y;
  }

  // ---- verification ----

  /** [s]B + [k](-A) in limbs. */
  method CombinePoints(s: array<u8>, k: array<u8>, a: Ge, ghost pa: Point) returns (sum: Ge)
    requires s.Length == k.Length == 32 && a.Shape() && a.Bounded() && Same(a.View(), pa)
    ensures sum.Shape() && fresh(sum) && sum.Bounded()
    ensures Same(sum.View(), Expected(LittleEndian(s[..]), LittleEndian(k[..]), pa))
  {
    hide Same, Add, Val, Reduced, Multiple, LittleEndian, Negate;
    var minusA := new Ge();
    GeNeg(minusA, a);
    NegateSame(a.View(), pa);
    SameTrans(minusA.View(), Negate(a.View()), Negate(pa));
    var kA := MultipleOf(k, minusA);
    MultipleSame(256, LittleEndian(k[..]), minusA.View(), Negate(pa));
    SameTrans(kA.View(), Multiple(256, LittleEndian(k[..]), minusA.View()),
        Multiple(256, LittleEndian(k[..]), Negate(pa)));
    var sB := BaseMultiple(s);
    sum := AddInto(sB, kA, Multiple(256, LittleEndian(s[..]), BASE), Multiple(256, LittleEndian(k[..]), Negate(pa)));
  }

  method BaseMultiple(s: array<u8>) returns (sB: Ge)
    requires s.Length == 32
    ensures sB.Shape() && fresh(sB) && sB.Bounded()
    ensures Same(sB.View(), Multiple(256, LittleEndian(s[..]), BASE))
  {
    hide Same, Add, Val, Reduced, Multiple, LittleEndian;
    var b := new Ge();
    GeBase(b);
    sB := MultipleOf(s, b);
    MultipleSame(256, LittleEndian(s[..]), b.View(), BASE);
    SameTrans(sB.View(), Multiple(256, LittleEndian(s[..]), b.View()), Multiple(256, LittleEndian(s[..]), BASE));
  }

  method AddInto(p: Ge, q: Ge, ghost sp: Point, ghost sq: Point) returns (sum: Ge)
    requires p.Shape() && q.Shape() && p.Bounded() && q.Bounded()
    requires Same(p.View(), sp) && Same(q.View(), sq)
    ensures sum.Shape() && fresh(sum) && sum.Bounded() && Same(sum.View(), Add(sp, sq))
  {
    hide Same, Add, Val, Reduced;
    sum := new Ge();
    GeAdd(sum, p, q);
    AddSame(p.View(), sp, q.View(), sq);
    SameTrans(sum.View(), Add(p.View(), q.View()), Add(sp, sq));
  }

  /** H mod L in 32 bytes. */
  method ReducedHash(h: array<u8>) returns (k: array<u8>)
    requires h.Length == 64
    modifies h
    ensures fresh(k) && k.Length == 32 && LittleEndian(k[..]) == old(LittleEndian(h[..])) % L
  {
    hide LittleEndian;
    ScReduce(h);
    k := new u8[32](i requires 0 <= i < 32 reads h => h[i]);
    LowHalf(h[..], k[..]);
  }

  /** A fresh point for 32 bytes. */
  method DecodePoint(s: array<u8>) returns (ok: bool, p: Ge)
    requires s.Length == 32
    ensures fresh(p) && p.Shape() && fresh(p.X) && fresh(p.Y) && fresh(p.Z) && fresh(p.T)
    ensures ok <==> Decodable(LittleEndian(s[..]) % TWO255, LittleEndian(s[..]) >= TWO255)
    ensures ok ==> p.Bounded() && Same(p.View(), PointFor(LittleEndian(s[..])))
  {
    hide Decodable, LittleEndian, Same, Decoded, PointFor, Val, Reduced;
    p := new Ge();
    ok := GeFromBytes(p, s);
  }

  /** Accepts exactly the valid signatures; `h` holds H(R || A || M). */
  method Verify(r: array<u8>, s: array<u8>, pub: array<u8>, h: array<u8>) returns (ok: bool)
    requires r.Length == s.Length == pub.Length == 32 && h.Length == 64
    requires h != r && h != s && h != pub
    modifies h
    ensures ok <==> ValidSignature(r[..], s[..], pub[..], old(h[..]))
  {
    hide Decodable, LittleEndian, Same, Decoded, Multiple, Add, Proportional, PointFor, Negate, Val, Reduced;
    var reduced := ScIsReduced(s);
    if !reduced {
      return false;
    }
    var decoded, a := DecodePoint(pub);
    if !decoded {
      return false;
    }
    var expected;
    decoded, expected := DecodePoint(r);
    if !decoded {
      return false;
    }
    var k := ReducedHash(h);
    ok := EquationHolds(s, k, a, expected, PointFor(LittleEndian(pub[..])), PointFor(LittleEndian(r[..])));
  }

  /** [s]B - [k]A = R, with the points at hand. */
  method EquationHolds(s: array<u8>, k: array<u8>, a: Ge, expected: Ge, ghost pa: Point, ghost pr: Point)
    returns (ok: bool)
    requires s.Length == k.Length == 32 && a.Shape() && a.Bounded() && expected.Shape() && expected.Bounded()
    requires Same(a.View(), pa) && Same(expected.View(), pr)
    ensures ok <==> Proportional(Expected(LittleEndian(s[..]), LittleEndian(k[..]), pa), pr)
  {
    hide LittleEndian, Same, Multiple, Add, Proportional, Negate, Val, Reduced;
    var sum := CombinePoints(s, k, a, pa);
    ok := SameProjective(sum, expected);
    ProportionalSame(sum.View(), Expected(LittleEndian(s[..]), LittleEndian(k[..]), pa), expected.View(), pr);
  }
}
