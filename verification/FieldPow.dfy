/** The two addition chains: z^((p-5)/8) and z^(p-2). */
module FieldPow {
  import opened Words
  import opened ModP
  import opened Field

  /** `h` holds z^e modulo p, in limbs a multiplication accepts. */
  ghost predicate Holds(h: array<u64>, z: int, e: nat)
    reads h
    requires h.Length == 5
  {
    Within(h, TWO54 - 1) && Cong(Val(h), Pow(z, e))
  }

  ghost function Ones(n: nat): nat {
    Pow2(n) - 1
  }

  lemma OnesJoin(m: nat, n: nat)
    ensures Ones(m) * Pow2(n) + Ones(n) == Ones(m + n)
  {
    hide Pow2;
    Pow2Add(m, n);
    assert (Pow2(m) - 1) * Pow2(n) == Pow2(m) * Pow2(n) - Pow2(n);
  }

  lemma HoldsProduct(v: int, x: int, y: int, z: int, a: nat, b: nat)
    requires Cong(v, x * y) && Cong(x, Pow(z, a)) && Cong(y, Pow(z, b))
    ensures Cong(v, Pow(z, a + b))
  {
    hide Cong, Pow;
    CongMul(x, Pow(z, a), y, Pow(z, b));
    CongTrans(v, x * y, Pow(z, a) * Pow(z, b));
    PowAdd(z, a, b);
  }

  method MulPowers(h: array<u64>, f: array<u64>, g: array<u64>, ghost z: int, ghost a: nat, ghost b: nat)
    requires h.Length == f.Length == g.Length == 5
    requires Holds(f, z, a) && Holds(g, z, b)
    modifies h
    ensures Reduced(h) && Holds(h, z, a + b)
  {
    hide Cong, Pow, Val;
    FeMul(h, f, g);
    HoldsProduct(Val(h), old(Val(f)), old(Val(g)), z, a, b);
  }

  /** A run of n squarings: `fe_sq(h, f)` and then `fe_sq(h, h)` until n are done. */
  method SquareTimes(h: array<u64>, f: array<u64>, n: nat, ghost z: int, ghost a: nat)
    requires h.Length == f.Length == 5 && n >= 1
    requires Holds(f, z, a)
    modifies h
    ensures Reduced(h) && Holds(h, z, a * Pow2(n))
  {
    hide Cong, Pow, Val, Holds, Within, Reduced;
    MulPowers(h, f, f, z, a, a);
    assert Pow2(1) == 2;
    for i := 1 to n
      invariant Reduced(h) && Holds(h, z, a * Pow2(i))
    {
      MulPowers(h, h, h, z, a * Pow2(i), a * Pow2(i));
      assert a * Pow2(i) + a * Pow2(i) == a * Pow2(i + 1);
    }
  }

  /** The recurring step of both chains: s = f^(2^n), then h = s * g. */
  method GrowOnes(
    h: array<u64>, s: array<u64>, f: array<u64>, g: array<u64>, n: nat, ghost z: int, ghost m: nat)
    requires h.Length == s.Length == f.Length == g.Length == 5 && n >= 1 && s != g
    requires Holds(f, z, Ones(m)) && Holds(g, z, Ones(n))
    modifies h, s
    ensures Holds(h, z, Ones(m + n))
  {
    hide Cong, Pow, Pow2, Val, Holds, Ones, Within, Reduced;
    SquareTimes(s, f, n, z, Ones(m));
    MulPowers(h, s, g, z, Ones(m) * Pow2(n), Ones(n));
    OnesJoin(m, n);
  }

  /** Both chains begin here: t0 = z^11 and t1 = z^9. */
  method ChainStart(t0: array<u64>, t1: array<u64>, z: array<u64>)
    requires t0.Length == t1.Length == z.Length == 5 && t0 != t1 && t0 != z && t1 != z
    requires Within(z, TWO54 - 1)
    modifies t0, t1
    ensures Holds(t0, Val(z), 11) && Holds(t1, Val(z), 9)
  {
    hide Cong, Pow, Val, Holds, Within, Reduced;
    ghost var v := Val(z);
    HoldsSelf(z);
    MulPowers(t0, z, z, v, 1, 1);
    MulPowers(t1, t0, t0, v, 2, 2);
    MulPowers(t1, t1, t1, v, 4, 4);
    MulPowers(t1, z, t1, v, 1, 8);
    MulPowers(t0, t0, t1, v, 2, 9);
  }

  /** The shared middle of both chains: from z^(2^5 - 1) to z^(2^250 - 1) in `a`. */
  method ChainMiddle(a: array<u64>, b: array<u64>, c: array<u64>, ghost z: int)
    requires a.Length == b.Length == c.Length == 5 && a != b && a != c && b != c
    requires Holds(a, z, Ones(5))
    modifies a, b, c
    ensures Holds(a, z, Ones(250))
  {
    hide Cong, Pow, Pow2, Val, Holds, Ones, Within, Reduced;
    GrowOnes(a, b, a, a, 5, z, 5);
    GrowOnes(b, b, a, a, 10, z, 10);
    GrowOnes(b, c, b, b, 20, z, 20);
    GrowOnes(a, b, b, a, 10, z, 40);
    GrowOnes(b, b, a, a, 50, z, 50);
    GrowOnes(b, c, b, b, 100, z, 100);
    GrowOnes(a, b, b, a, 50, z, 200);
  }

  method FePow22523(out: array<u64>, z: array<u64>)
    requires out.Length == z.Length == 5 && Within(z, TWO54 - 1)
    modifies out
    ensures Reduced(out) && Cong(Val(out), Pow(old(Val(z)), (P - 5) / 8))
  {
    hide Cong, Pow, Val, Within, Reduced;
    var t0, t1, t2 := new u64[5], new u64[5], new u64[5];
    PowWith(out, z, t0, t1, t2);
  }

  /** `FePow22523` with its three temporaries supplied. */
  method PowWith(out: array<u64>, z: array<u64>, t0: array<u64>, t1: array<u64>, t2: array<u64>)
    requires out.Length == z.Length == t0.Length == t1.Length == t2.Length == 5
    requires t0 != t1 && t0 != t2 && t1 != t2 && z != t0 && z != t1 && z != t2
    requires Within(z, TWO54 - 1)
    modifies out, t0, t1, t2
    ensures Reduced(out) && Cong(Val(out), Pow(old(Val(z)), (P - 5) / 8))
  {
    hide Cong;
    ghost var v := Val(z);
    hide Pow, Pow2, Val, Holds, Ones, Within, Reduced;
    ChainStart(t0, t1, z);
    MulPowers(t0, t0, t0, v, 11, 11);
    MulPowers(t0, t1, t0, v, 9, 22);
    FiveOnes();
    ChainMiddle(t0, t1, t2, v);
    SquareTimes(t0, t0, 2, v, Ones(250));
    HoldsSelf(z);
    MulPowers(out, t0, z, v, Ones(250) * Pow2(2), 1);
    SqrtExponent();
    HoldsCong(out, v, (P - 5) / 8);
  }

  method FeInvert(out: array<u64>, z: array<u64>)
    requires out.Length == z.Length == 5 && Within(z, TWO54 - 1)
    modifies out
    ensures Reduced(out) && Cong(Val(out), Pow(old(Val(z)), P - 2))
  {
    hide Cong, Pow, Val, Within, Reduced;
    var t0, t1, t2, t3 := new u64[5], new u64[5], new u64[5], new u64[5];
    InvertWith(out, z, t0, t1, t2, t3);
  }

  /** `FeInvert` with its four temporaries supplied. */
  method InvertWith(
    out: array<u64>, z: array<u64>, t0: array<u64>, t1: array<u64>, t2: array<u64>, t3: array<u64>)
    requires out.Length == z.Length == t0.Length == t1.Length == t2.Length == t3.Length == 5
    requires t0 != t1 && t0 != t2 && t0 != t3 && t1 != t2 && t1 != t3 && t2 != t3
    requires z != t0 && z != t1 && z != t2 && z != t3
    requires Within(z, TWO54 - 1)
    modifies out, t0, t1, t2, t3
    ensures Reduced(out) && Cong(Val(out), Pow(old(Val(z)), P - 2))
  {
    hide Cong;
    ghost var v := Val(z);
    hide Pow, Pow2, Val, Holds, Ones, Within, Reduced;
    ChainStart(t0, t1, z);
    MulPowers(t2, t0, t0, v, 11, 11);
    MulPowers(t1, t1, t2, v, 9, 22);
    FiveOnes();
    ChainMiddle(t1, t2, t3, v);
    SquareTimes(t1, t1, 5, v, Ones(250));
    MulPowers(out, t1, t0, v, Ones(250) * Pow2(5), 11);
    InverseExponent();
    HoldsCong(out, v, P - 2);
  }

  lemma HoldsSelf(h: array<u64>)
    requires h.Length == 5 && Within(h, TWO54 - 1)
    ensures Holds(h, Val(h), 1)
  {
  }

  lemma HoldsCong(h: array<u64>, z: int, e: nat)
    requires h.Length == 5 && Holds(h, z, e)
    ensures Cong(Val(h), Pow(z, e))
  {
  }

  lemma FiveOnes()
    ensures Ones(5) == 31
  {
  }

  lemma TwoTo250()
    ensures Pow2(250) == 1809251394333065553493296640760748560207343510400633813116524750123642650624
  {
    assert Pow2(10) == 0x400;
    hide Pow2;
    Pow2Product(10, 10, 0x400, 0x400);
    Pow2Product(20, 20, 0x10_0000, 0x10_0000);
    Pow2Product(10, 40, 0x400, 0x100_0000_0000);
    Pow2Product(50, 50, 0x4_0000_0000_0000, 0x4_0000_0000_0000);
    Pow2Product(50, 100, 0x4_0000_0000_0000, 0x10_0000_0000_0000_0000_0000_0000);
    Pow2Product(100, 150, 0x10_0000_0000_0000_0000_0000_0000, 0x40_0000_0000_0000_0000_0000_0000_0000_0000_0000);
  }

  lemma SqrtExponent()
    ensures Ones(250) * Pow2(2) + 1 == (P - 5) / 8
  {
    TwoTo250();
    assert Pow2(2) == 4;
  }

  lemma InverseExponent()
    ensures Ones(250) * Pow2(5) + 11 == P - 2
  {
    TwoTo250();
    assert Pow2(5) == 32;
  }
}
