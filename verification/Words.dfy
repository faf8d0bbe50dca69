/** Fixed-width unsigned integers, powers, and little-endian byte strings. */
module Words {
  type u8 = x: int | 0 <= x < 0x100
  type u16 = x: int | 0 <= x < 0x1_0000
  type u32 = x: int | 0 <= x < 0x1_0000_0000
  type u64 = x: int | 0 <= x < 0x1_0000_0000_0000_0000
  type u128 = x: int | 0 <= x < 0x1_0000_0000_0000_0000_0000_0000_0000_0000

  type bytes = seq<u8>

  const TWO64: nat := 0x1_0000_0000_0000_0000
  const INT64_MAX: nat := 0x7fff_ffff_ffff_ffff

  predicate Int64(v: int) {
    -1 - INT64_MAX <= v <= INT64_MAX
  }

  function Wrap64(v: nat): u64 {
    v % TWO64
  }

  function Zeros(n: nat): (z: bytes)
    ensures |z| == n
  {
    seq(n, _ => 0)
  }

  function Pow(b: int, e: nat): int
    decreases e
  {
    if e == 0 then 1 else b * Pow(b, e - 1)
  }

  function Pow2(n: nat): (r: nat)
    ensures r >= 1
  {
    if n == 0 then 1 else 2 * Pow2(n - 1)
  }

  lemma {:induction false} PowAdd(b: int, m: nat, n: nat)
    ensures Pow(b, m + n) == Pow(b, m) * Pow(b, n)
  {
    if m != 0 {
      PowAdd(b, m - 1, n);
      assert Pow(b, m + n) == b * Pow(b, (m - 1) + n);
      assert b * (Pow(b, m - 1) * Pow(b, n)) == (b * Pow(b, m - 1)) * Pow(b, n);
    }
  }

  lemma {:induction false} Pow2Add(m: nat, n: nat)
    ensures Pow2(m + n) == Pow2(m) * Pow2(n)
  {
    if m != 0 {
      Pow2Add(m - 1, n);
      assert Pow2(m + n) == 2 * Pow2((m - 1) + n);
    }
  }

  lemma Pow2Small()
    ensures Pow2(8) == 0x100 && Pow2(12) == 0x1000 && Pow2(13) == 0x2000
  {
  }

  lemma Pow2Product(m: nat, n: nat, x: nat, y: nat)
    requires Pow2(m) == x && Pow2(n) == y
    ensures Pow2(m + n) == x * y
  {
    Pow2Add(m, n);
  }

  lemma {:induction false} Pow2Monotone(m: nat, n: nat)
    requires m <= n
    ensures Pow2(m) <= Pow2(n)
  {
    if m < n {
      Pow2Monotone(m, n - 1);
    }
  }

  lemma MulAtLeast(d: nat, k: nat)
    requires k >= 1
    ensures d * k >= d
  {
  }

  lemma MulBound(a: int, b: int, m: int, n: int)
    requires 0 <= a <= m && 0 <= b <= n
    ensures 0 <= a * b <= m * n
  {
  }

  /** Quotient and remainder are the only ones that fit. */
  lemma DivModUnique(x: int, d: nat, q: int, r: nat)
    requires r < d && x == d * q + r
    ensures x / d == q && x % d == r
  {
    var q', r' := x / d, x % d;
    assert x == d * q' + r';
    var k := q - q';
    assert d * k == d * q - d * q';
    if k >= 1 {
      MulAtLeast(d, k);
    } else if k <= -1 {
      assert d * (-k) == -(d * k);
      MulAtLeast(d, -k);
    }
  }

  /** The number a byte string denotes, least significant byte first. */
  function LittleEndian(s: bytes): (r: nat)
  {
    if s == [] then 0 else s[0] + 0x100 * LittleEndian(s[1..])
  }

  lemma {:induction false} LittleEndianConcat(s: bytes, t: bytes)
    ensures LittleEndian(s + t) == LittleEndian(s) + Pow2(8 * |s|) * LittleEndian(t)
  {
    if s == [] {
      assert s + t == t;
    } else {
      LittleEndianConcat(s[1..], t);
      assert (s + t)[1..] == s[1..] + t;
      Pow2Add(8, 8 * |s[1..]|);
      assert Pow2(8) == 0x100;
      ScaleProduct(0x100, Pow2(8 * |s[1..]|), LittleEndian(t));
    }
  }

  lemma ScaleProduct(a: int, b: int, c: int)
    ensures (a * b) * c == a * (b * c)
  {
  }

  lemma {:induction false} LittleEndianBound(s: bytes)
    ensures LittleEndian(s) < Pow2(8 * |s|)
  {
    if s != [] {
      LittleEndianBound(s[1..]);
      Pow2Add(8, 8 * |s[1..]|);
      assert Pow2(8) == 0x100;
    }
  }

  /** Two byte strings of one length that denote one number are equal. */
  lemma {:induction false} LittleEndianInjective(s: bytes, t: bytes)
    requires |s| == |t|
    requires LittleEndian(s) == LittleEndian(t)
    ensures s == t
  {
    if s != [] {
      assert s[0] == t[0] && LittleEndian(s[1..]) == LittleEndian(t[1..]);
      LittleEndianInjective(s[1..], t[1..]);
      assert s == [s[0]] + s[1..] && t == [t[0]] + t[1..];
    }
  }

  /** `k >> i` */
  function Shifted(k: nat, i: nat): nat {
    if i == 0 then k else Shifted(k, i - 1) / 2
  }

  lemma {:induction false} ShiftedTwice(k: nat, i: nat, j: nat)
    ensures Shifted(Shifted(k, i), j) == Shifted(k, i + j)
  {
    if j != 0 {
      ShiftedTwice(k, i, j - 1);
    }
  }

  lemma {:induction false} ShiftedByte(b: u8, r: nat, i: nat)
    requires i <= 8
    ensures Shifted(b + 0x100 * r, i) == Shifted(b, i) + Pow2(8 - i) * r
    ensures Shifted(b, i) < Pow2(8 - i)
  {
    assert Pow2(8) == 0x100;
    if i != 0 {
      ShiftedByte(b, r, i - 1);
      Halve(Shifted(b, i - 1), Pow2(8 - i), r);
    }
  }

  lemma Halve(x: nat, e: nat, r: nat)
    ensures (x + (2 * e) * r) / 2 == x / 2 + e * r
    ensures (x + (2 * e) * r) % 2 == x % 2
  {
    assert (2 * e) * r == 2 * (e * r);
  }

  /** `k[i >> 3] >> (i & 7) & 1` is bit i of the number the bytes denote. */
  lemma {:induction false} BitOfBytes(s: bytes, i: nat)
    requires i < 8 * |s|
    ensures Shifted(LittleEndian(s), i) % 2 == Shifted(s[i / 8], i % 8) % 2
  {
    var r := LittleEndian(s[1..]);
    if i < 8 {
      ShiftedByte(s[0], r, i);
      Halve(Shifted(s[0], i), Pow2(7 - i), r);
    } else {
      BitOfBytes(s[1..], i - 8);
      ShiftedByte(s[0], r, 8);
      assert Shifted(LittleEndian(s), 8) == r;
      ShiftedTwice(LittleEndian(s), 8, i - 8);
      assert (i - 8) / 8 == i / 8 - 1 && (i - 8) % 8 == i % 8;
    }
  }
}
