/** Unpadded base64url. */
module Base64Url {
  import opened Words
  import opened Errors

  // ---- alphabet ----

  /** kEnc */
  function Symbol(v: nat): (c: u8)
    requires v < 64
  {
    if v < 26 then 'A' as int + v
    else if v < 52 then 'a' as int + (v - 26)
    else if v < 62 then '0' as int + (v - 52)
    else if v == 62 then '-' as int
    else '_' as int
  }

  /** kDec, whose unlisted entries are 0 */
  function Table(c: u8): nat {
    if 'A' as int <= c <= 'Z' as int then c - 'A' as int
    else if 'a' as int <= c <= 'z' as int then c - 'a' as int + 26
    else if '0' as int <= c <= '9' as int then c - '0' as int + 52
    else if c == '-' as int then 62
    else if c == '_' as int then 63
    else 0
  }

  /** `tc_dec6`: the value of a symbol, or -1 */
  function Dec6(c: u8): int {
    if c == 'A' as int then 0 else if Table(c) == 0 then -1 else Table(c)
  }

  lemma SymbolsInvert(v: nat, c: u8)
    ensures v < 64 ==> Dec6(Symbol(v)) == v
    ensures Dec6(c) >= 0 ==> Dec6(c) < 64 && Symbol(Dec6(c)) == c
  {
  }

  // ---- lengths ----

  function EncodedLen(n: nat): nat {
    n / 3 * 4 + (if n % 3 == 0 then 0 else n % 3 + 1)
  }

  function DecodedMax(n: nat): nat {
    n / 4 * 3 + (if n % 4 == 0 then 0 else if n % 4 - 1 > 2 then 2 else n % 4 - 1)
  }

  /** ceil(8 n / 6) symbols, and at most floor(6 n / 8) bytes. */
  lemma Lengths(n: nat)
    ensures EncodedLen(n) == (8 * n + 5) / 6 && DecodedMax(n) == 6 * n / 8
    ensures 6 * EncodedLen(n) / 8 == n
  {
    var q, r := n / 3, n % 3;
    assert n == 3 * q + r;
  }

  // ---- big-endian numbers in base 64 and base 256 ----

  function Number(s: seq<nat>, base: nat): (r: nat) {
    if s == [] then 0 else Number(s[..|s| - 1], base) * base + s[|s| - 1]
  }

  lemma NumberAppend(s: seq<nat>, x: nat, base: nat)
    ensures Number(s + [x], base) == Number(s, base) * base + x
  {
    assert (s + [x])[..|s|] == s;
  }

  lemma {:induction false} NumberConcat(s: seq<nat>, t: seq<nat>, base: nat)
    ensures Number(s + t, base) == Number(s, base) * Pow(base, |t|) + Number(t, base)
  {
    if t == [] {
      assert s + t == s;
    } else {
      var t', x := t[..|t| - 1], t[|t| - 1];
      assert t == t' + [x] && s + t == (s + t') + [x];
      NumberConcat(s, t', base);
      hide Number;
      NumberAppend(s + t', x, base);
      NumberAppend(t', x, base);
      RegroupPlaces(Number(s, base), Pow(base, |t'|), base, Number(t', base));
    }
  }

  lemma RegroupPlaces(a: int, e: int, b: int, c: int)
    ensures (a * e + c) * b == a * (b * e) + c * b
  {
  }

  /** 64^m = 256^n * 2^pad whenever the bit counts agree. */
  lemma {:induction false} PowerOfBits(base: nat, bits: nat, n: nat)
    requires base == Pow2(bits)
    ensures Pow(base, n) == Pow2(bits * n)
  {
    if n != 0 {
      PowerOfBits(base, bits, n - 1);
      hide Pow2;
      assert bits * n == bits + bits * (n - 1);
      Pow2Add(bits, bits * (n - 1));
    } else {
      assert bits * n == 0;
    }
  }

  lemma {:induction false} NumberInjective(s: seq<nat>, t: seq<nat>, base: nat)
    requires |s| == |t| && Number(s, base) == Number(t, base)
    requires forall i :: 0 <= i < |s| ==> s[i] < base && t[i] < base
    ensures s == t
  {
    if s != [] {
      var s', x, t', y := s[..|s| - 1], s[|s| - 1], t[..|t| - 1], t[|t| - 1];
      DivModUnique(Number(s, base), base, Number(s', base), x);
      DivModUnique(Number(t, base), base, Number(t', base), y);
      NumberInjective(s', t', base);
      assert s == s' + [x] && t == t' + [y];
    }
  }

  // ---- encoding ----

  type u6 = x: int | 0 <= x < 0x40

  /** The 6-bit values written for a byte string, three bytes at a time. */
  function Sextets(s: bytes): seq<u6> {
    if |s| >= 3 then Quad(Word(s[0], s[1], s[2])) + Sextets(s[3..])
    else if |s| == 2 then Quad(Word(s[0], s[1], 0))[..3]
    else if |s| == 1 then Quad(Word(s[0], 0, 0))[..2]
    else []
  }

  /** `a << 16 | b << 8 | c` */
  function Word(a: int, b: int, c: int): int {
    a * 0x1_0000 + b * 0x100 + c
  }

  function Quad(v: int): (r: seq<u6>)
    ensures |r| == 4
  {
    [v / 0x4_0000 % 0x40, v / 0x1000 % 0x40, v / 0x40 % 0x40, v % 0x40]
  }

  lemma {:induction false} SextetsLen(s: bytes)
    ensures |Sextets(s)| == EncodedLen(|s|)
  {
    if |s| >= 3 {
      SextetsLen(s[3..]);
      assert |s[3..]| / 3 == |s| / 3 - 1 && |s[3..]| % 3 == |s| % 3;
    }
  }

  /** Bits of zero padding the last symbol carries. */
  function Pad(n: nat): nat {
    if n % 3 == 0 then 0 else if n % 3 == 1 then 4 else 2
  }

  lemma PadBits(n: nat)
    ensures 6 * EncodedLen(n) == 8 * n + Pad(n)
  {
    var q, r := n / 3, n % 3;
    assert n == 3 * q + r;
  }

  /** The symbols, read as one number, are the bytes read as one number and padded with zeros. */
  lemma {:induction false} SextetsNumber(s: bytes)
    ensures Number(Sextets(s), 0x40) == Number(s, 0x100) * Pow2(Pad(|s|))
  {
    hide *;
    if |s| >= 3 {
      var a, b, c, rest := s[0], s[1], s[2], s[3..];
      SextetsNumber(rest);
      QuadNumber(a, b, c);
      SextetsStep(a, b, c, rest);
      assert s == [a, b, c] + rest;
      Unfold(s);
      PadStep(|s|);
    } else {
      ShortNumber(s);
    }
  }

  lemma Unfold(s: bytes)
    requires |s| >= 3
    ensures Sextets(s) == Quad(Word(s[0], s[1], s[2])) + Sextets(s[3..])
  {
    hide Quad, Word;
  }

  lemma PadStep(n: nat)
    requires n >= 3
    ensures Pad(n) == Pad(n - 3)
  {
  }

  lemma SextetsStep(a: u8, b: u8, c: u8, rest: bytes)
    requires Number(Sextets(rest), 0x40) == Number(rest, 0x100) * Pow2(Pad(|rest|))
    requires Number(Quad(Word(a, b, c)), 0x40) == Number([a, b, c], 0x100)
    ensures Number(Quad(Word(a, b, c)) + Sextets(rest), 0x40) == Number([a, b, c] + rest, 0x100) * Pow2(Pad(|rest|))
  {
    SymbolWidth(rest);
    hide Number, Pow2, Pow, Sextets, Quad, Word, Pad;
    NumberConcat(Quad(Word(a, b, c)), Sextets(rest), 0x40);
    NumberConcat([a, b, c], rest, 0x100);
    var v, e, pad := Number([a, b, c], 0x100), Pow(0x100, |rest|), Pow2(Pad(|rest|));
    RegroupPlaces(v, e, pad, Number(rest, 0x100));
    assert v * (pad * e) == v * (e * pad);
  }

  lemma SymbolWidth(s: bytes)
    ensures Pow(0x40, |Sextets(s)|) == Pow(0x100, |s|) * Pow2(Pad(|s|))
  {
    hide *;
    SextetsLen(s);
    PadBits(|s|);
    SmallPowers();
    PowerOfBits(0x40, 6, |Sextets(s)|);
    PowerOfBits(0x100, 8, |s|);
    Pow2Add(8 * |s|, Pad(|s|));
  }

  lemma SmallPowers()
    ensures Pow2(6) == 0x40 && Pow2(8) == 0x100
  {
  }

  lemma Digits64(a: nat, b: nat, c: nat, d: nat)
    ensures Number([a, b, c, d], 0x40) == ((a * 0x40 + b) * 0x40 + c) * 0x40 + d
    ensures Number([a, b, c], 0x40) == (a * 0x40 + b) * 0x40 + c && Number([a, b], 0x40) == a * 0x40 + b
  {
    assert Number([a], 0x40) == a;
    hide Number;
    NumberAppend([a], b, 0x40);
    NumberAppend([a, b], c, 0x40);
    NumberAppend([a, b, c], d, 0x40);
    assert [a] + [b] == [a, b] && [a, b] + [c] == [a, b, c] && [a, b, c] + [d] == [a, b, c, d];
  }

  lemma Digits256(a: nat, b: nat, c: nat)
    ensures Number([a, b, c], 0x100) == (a * 0x100 + b) * 0x100 + c
    ensures Number([a, b], 0x100) == a * 0x100 + b && Number([a], 0x100) == a
  {
    assert Number([a], 0x100) == a;
    hide Number;
    NumberAppend([a], b, 0x100);
    NumberAppend([a, b], c, 0x100);
    assert [a] + [b] == [a, b] && [a, b] + [c] == [a, b, c];
  }

  lemma QuadNumber(a: u8, b: u8, c: u8)
    ensures Number(Quad(Word(a, b, c)), 0x40) == Number([a, b, c], 0x100)
  {
    hide Number;
    var v := Word(a, b, c);
    Digits64(v / 0x4_0000 % 0x40, v / 0x1000 % 0x40, v / 0x40 % 0x40, v % 0x40);
    Digits256(a, b, c);
    FourSextets(v);
  }

  lemma FourSextets(v: int)
    requires 0 <= v < 0x100_0000
    ensures ((v / 0x4_0000 % 0x40 * 0x40 + v / 0x1000 % 0x40) * 0x40 + v / 0x40 % 0x40) * 0x40 + v % 0x40 == v
  {
    assert v / 0x1000 == v / 0x40 / 0x40 && v / 0x4_0000 == v / 0x40 / 0x40 / 0x40;
  }

  lemma ShortNumber(s: bytes)
    requires |s| < 3
    ensures Number(Sextets(s), 0x40) == Number(s, 0x100) * Pow2(Pad(|s|))
  {
    hide Number, Pow2, Quad, Word;
    if |s| == 2 {
      TwoByteNumber(s[0], s[1]);
      assert s == [s[0], s[1]];
    } else if |s| == 1 {
      OneByteNumber(s[0]);
      assert s == [s[0]];
    } else {
      NoNumber();
    }
  }

  lemma NoNumber()
    ensures Number([], 0x40) == 0 == Number([], 0x100)
  {
  }

  lemma TwoByteNumber(a: u8, b: u8)
    ensures Number(Quad(Word(a, b, 0))[..3], 0x40) == Number([a, b], 0x100) * Pow2(2)
  {
    assert Pow2(2) == 4;
    hide Number, Pow2;
    var v := Word(a, b, 0);
    var x, y, z := v / 0x4_0000 % 0x40, v / 0x1000 % 0x40, v / 0x40 % 0x40;
    assert Quad(v)[..3] == [x, y, z];
    Digits64(x, y, z, 0);
    Digits256(a, b, 0);
    FourSextets(v);
  }

  lemma OneByteNumber(a: u8)
    ensures Number(Quad(Word(a, 0, 0))[..2], 0x40) == Number([a], 0x100) * Pow2(4)
  {
    assert Pow2(4) == 0x10;
    hide Number, Pow2;
    var v := Word(a, 0, 0);
    var x, y := v / 0x4_0000 % 0x40, v / 0x1000 % 0x40;
    assert Quad(v)[..2] == [x, y];
    Digits64(x, y, 0, 0);
    Digits256(a, 0, 0);
    FourSextets(v);
  }

  function Text(v: seq<u6>): bytes {
    seq(|v|, i requires 0 <= i < |v| => Symbol(v[i]))
  }

  /** The base64url text of a byte string. */
  function Encode(s: bytes): bytes {
    Text(Sextets(s))
  }

  lemma EncodeUnfold(s: bytes)
    requires |s| >= 3
    ensures Encode(s) == Text(Quad(Word(s[0], s[1], s[2]))) + Encode(s[3..])
    ensures |Encode(s)| == 4 + |Encode(s[3..])|
  {
    hide Quad, Word, Sextets, Symbol;
    Unfold(s);
  }

  lemma EncodeLen(s: bytes)
    ensures |Encode(s)| == EncodedLen(|s|)
  {
    SextetsLen(s);
  }

  /** `tc_base64url_encode`: the text and its terminator, or no space for both. */
  method EncodeInto(out: array<u8>, s: bytes) returns (rc: Result<nat>)
    modifies out
    ensures rc == if out.Length < EncodedLen(|s|) + 1 then Err(NoSpace) else Ok(EncodedLen(|s|))
    ensures rc.Ok? ==> out[..rc.value] == Encode(s) && out[rc.value] == 0
    ensures rc.Err? ==> out[..] == old(out[..])
  {
    hide Encode, Quad, Word, Text;
    var need := EncodedLen(|s|);
    if out.Length < need + 1 {
      return Err(NoSpace);
    }
    EncodeLen(s);
    var o, i := PutGroups(out, s);
    ghost var done := out[..o];
    ghost var tail := s[i..];
    EncodeLen(tail);
    if |s| - i == 2 {
      PutTail(out, o, Word(s[i], s[i + 1], 0), 3, tail);
      o := o + 3;
    } else if |s| - i == 1 {
      PutTail(out, o, Word(s[i], 0, 0), 2, tail);
      o := o + 2;
    } else {
      NoTail(tail);
    }
    ghost var text := out[..o];
    out[o] := 0;
    assert out[..o] == text;
    return Ok(o);
  }

  /** The main loop: whole groups of three bytes. */
  method PutGroups(out: array<u8>, s: bytes) returns (o: nat, i: nat)
    requires |Encode(s)| < out.Length
    modifies out
    ensures i <= |s| && |s| - i < 3 && o + |Encode(s[i..])| == |Encode(s)|
    ensures out[..o] + Encode(s[i..]) == Encode(s)
  {
    hide Encode, EncodedLen, Quad, Word, Text;
    o, i := 0, 0;
    assert s[0..] == s;
    while |s| - i >= 3
      invariant 0 <= i <= |s| && 0 <= o && o + |Encode(s[i..])| == |Encode(s)|
      invariant out[..o] + Encode(s[i..]) == Encode(s)
    {
      var v := Word(s[i], s[i + 1], s[i + 2]);
      ghost var done := out[..o];
      EncodeUnfold(s[i..]);
      assert s[i..][3..] == s[i + 3..];
      PutQuad(out, o, v, 4);
      TextQuad(v);
      assert out[..o + 4] == done + Text(Quad(v));
      assert done + (Text(Quad(v)) + Encode(s[i + 3..])) == out[..o + 4] + Encode(s[i + 3..]);
      o := o + 4;
      i := i + 3;
    }
  }

  lemma TextQuad(v: int)
    ensures |Text(Quad(v))| == 4 && Text(Quad(v))[..4] == Text(Quad(v))
  {
  }

  lemma NoTail(s: bytes)
    requires |s| == 0
    ensures Encode(s) == []
  {
  }

  method PutTail(out: array<u8>, o: nat, v: int, n: nat, ghost tail: bytes)
    requires o + n < out.Length && n <= 4
    requires n == 3 ==> |tail| == 2 && v == Word(tail[0], tail[1], 0)
    requires n == 2 ==> |tail| == 1 && v == Word(tail[0], 0, 0)
    requires n == 2 || n == 3
    modifies out
    ensures |Encode(tail)| == n && out[..o + n] == old(out[..o]) + Encode(tail)
  {
    PutQuad(out, o, v, n);
    assert Encode(tail) == Text(Quad(v))[..n];
  }

  /** Writes the first n symbols of a 24-bit group. */
  method PutQuad(out: array<u8>, o: nat, v: int, n: nat)
    requires o + n <= out.Length && n <= 4
    modifies out
    ensures out[..o + n] == old(out[..o]) + Text(Quad(v))[..n]
  {
    ghost var q := Text(Quad(v));
    hide Quad, Symbol;
    var j := 0;
    while j < n
      invariant 0 <= j <= n && out[..o + j] == old(out[..o]) + q[..j]
    {
      out[o + j] := Symbol(Quad(v)[j]);
      j := j + 1;
    }
  }

  // ---- decoding ----

  /** CR and LF are dropped wherever they stand. */
  function Kept(s: bytes): bytes {
    if s == [] then []
    else
      var rest, c := Kept(s[..|s| - 1]), s[|s| - 1];
      if c == 0x0d || c == 0x0a then rest else rest + [c]
  }

  predicate AllSymbols(k: bytes) {
    forall i :: 0 <= i < |k| ==> Dec6(k[i]) >= 0
  }

  function Values(k: bytes): seq<u6>
    requires AllSymbols(k)
  {
    seq(|k|, i requires 0 <= i < |k| => Dec6(k[i]))
  }

  /** `out` is the 6-bit values read as one bit string, cut to whole bytes. */
  ghost predicate IsDecoding(out: bytes, v: seq<u6>) {
    && |out| == 6 * |v| / 8
    && Number(out, 0x100) == Number(v, 0x40) / Pow2(6 * |v| % 8)
  }

  lemma DecodingUnique(a: bytes, b: bytes, v: seq<u6>)
    requires IsDecoding(a, v) && IsDecoding(b, v)
    ensures a == b
  {
    NumberInjective(a, b, 0x100);
  }

  /** The n base-256 digits of v, most significant first. */
  function BytesOf(v: nat, n: nat): (r: bytes)
    ensures |r| == n
  {
    if n == 0 then [] else BytesOf(v / 0x100, n - 1) + [v % 0x100]
  }

  lemma {:induction false} DigitsNumber(v: nat, n: nat)
    requires v < Pow(0x100, n)
    ensures Number(BytesOf(v, n), 0x100) == v
  {
    if n > 0 {
      DigitsNumber(v / 0x100, n - 1);
      NumberAppend(BytesOf(v / 0x100, n - 1), v % 0x100, 0x100);
    }
  }

  /** Decoding as one division: drop CR and LF, read base 64, cut the spare bits, write base 256. */
  function Decode(s: bytes): Result<bytes> {
    var k := Kept(s);
    if !AllSymbols(k) || |k| % 4 == 1 then Err(Inval)
    else Ok(BytesOf(Number(Values(k), 0x40) / Pow2(6 * |k| % 8), 6 * |k| / 8))
  }

  lemma {:induction false} NumberBound(v: seq<u6>)
    ensures Number(v, 0x40) < Pow(0x40, |v|)
  {
    if v != [] {
      NumberBound(v[..|v| - 1]);
    }
  }

  lemma DecodeIsDecoding(s: bytes, out: bytes)
    requires AllSymbols(Kept(s)) && |Kept(s)| % 4 != 1
    ensures IsDecoding(out, Values(Kept(s))) <==> Decode(s) == Ok(out)
  {
    hide Number, Pow2, Kept, AllSymbols, Dec6;
    var v := Values(Kept(s));
    NumberBound(v);
    var x, r := Number(v, 0x40), 6 * |v| % 8;
    assert x / Pow2(r) * Pow2(r) <= x;
    WholeBytes(x / Pow2(r), x, |v|, 6 * |v| / 8, r);
    if IsDecoding(out, v) {
      DecodingUnique(out, Decode(s).value, v);
    }
  }

  /** Cutting the spare bits leaves a number of exactly the bytes that are written. */
  lemma WholeBytes(q: nat, x: nat, m: nat, n: nat, r: nat)
    requires 6 * m == 8 * n + r && q * Pow2(r) <= x < Pow(0x40, m)
    ensures Number(BytesOf(q, n), 0x100) == q
  {
    SmallPowers();
    hide Number, Pow2, Pow, BytesOf;
    PowerOfBits(0x40, 6, m);
    PowerOfBits(0x100, 8, n);
    Pow2Add(8 * n, r);
    SmallerFactor(q, Pow2(8 * n), Pow2(r));
    DigitsNumber(q, n);
  }

  lemma SmallerFactor(a: nat, b: nat, d: nat)
    requires a * d < b * d
    ensures a < b
  {
    if a >= b {
      assert a * d == b * d + (a - b) * d;
      MulBound(a - b, d, a - b, d);
    }
  }

  function Low32(n: nat): nat {
    n % 0x1_0000_0000
  }

  /** `n >> nbits` */
  function Whole(n: nat, nbits: int): nat {
    if nbits == 0 then n else if nbits == 2 then n / 4 else if nbits == 4 then n / 0x10 else n / 0x40
  }

  /** The decoder's loop: a wrapping 32-bit accumulator that still knows its low bits. */
  ghost predicate Decoding(v: seq<u6>, out: bytes, acc: int, nbits: int) {
    && |out| == 6 * |v| / 8 && nbits == 6 * |v| % 8
    && acc == Low32(Number(v, 0x40))
    && Number(out, 0x100) == Whole(Number(v, 0x40), nbits)
  }

  /** `acc << 6 | v` in 32 bits. */
  function Accumulate(acc: int, v: int): u32 {
    (acc * 0x40 + v) % 0x1_0000_0000
  }

  lemma AccStep(n: nat, x: nat)
    requires x < 0x40
    ensures Accumulate(Low32(n), x) == Low32(n * 0x40 + x)
  {
    var h, r := n / 0x1_0000_0000 * 0x40, n % 0x1_0000_0000 * 0x40 + x;
    DivModUnique(n * 0x40 + x, 0x1_0000_0000, h + r / 0x1_0000_0000, r % 0x1_0000_0000);
  }

  lemma ByteStep(n: nat, x: nat, nbits: nat)
    requires x < 0x40 && nbits in {2, 4, 6}
    ensures var n' := n * 0x40 + x;
            Whole(n, nbits) * 0x100 + OutByte(Low32(n'), nbits - 2) == Whole(n', nbits - 2)
  {
    var n' := n * 0x40 + x;
    LowByte(n');
    if nbits == 2 {
      DivModUnique(n', 0x100, n / 4, n % 4 * 0x40 + x);
    } else if nbits == 4 {
      DivModUnique(n', 4, n * 0x10 + x / 4, x % 4);
      DivModUnique(n' / 4, 0x100, n / 0x10, n % 0x10 * 0x10 + x / 4);
    } else {
      DivModUnique(n', 0x10, n * 4 + x / 0x10, x % 0x10);
      DivModUnique(n' / 0x10, 0x100, n / 0x40, n % 0x40 * 4 + x / 0x10);
    }
  }

  /** Wrapping at 32 bits does not reach the byte that is read. */
  lemma LowByte(n: nat)
    ensures n % 0x1_0000_0000 % 0x100 == n % 0x100
    ensures n % 0x1_0000_0000 / 4 % 0x100 == n / 4 % 0x100
    ensures n % 0x1_0000_0000 / 0x10 % 0x100 == n / 0x10 % 0x100
  {
    LowBits(n, 1, 0x100_0000);
    LowBits(n, 4, 0x40_0000);
    LowBits(n, 0x10, 0x10_0000);
  }

  lemma LowBits(n: nat, e: nat, k: nat)
    requires e > 0 && e * k == 0x100_0000
    ensures n % 0x1_0000_0000 / e % 0x100 == n / e % 0x100
  {
    var h, l := n / 0x1_0000_0000, n % 0x1_0000_0000;
    var q := l / e;
    assert n == e * (k * 0x100 * h + q) + l % e by {
      assert e * (k * 0x100 * h) == (e * k) * 0x100 * h;
      assert l == e * q + l % e;
      assert e * (k * 0x100 * h + q) == e * (k * 0x100 * h) + e * q;
    }
    DivModUnique(n, e, k * 0x100 * h + q, l % e);
    assert k * 0x100 * h == 0x100 * (k * h);
    DivModUnique(k * 0x100 * h + q, 0x100, k * h + q / 0x100, q % 0x100);
  }

  lemma BitCount(m: nat)
    ensures 6 * m % 8 in {0, 2, 4, 6}
    ensures 6 * m % 8 == 0 ==> 6 * (m + 1) % 8 == 6 && 6 * (m + 1) / 8 == 6 * m / 8
    ensures 6 * m % 8 != 0 ==> 6 * (m + 1) % 8 == 6 * m % 8 - 2 && 6 * (m + 1) / 8 == 6 * m / 8 + 1
    ensures 6 * m % 8 == 6 <==> m % 4 == 1
  {
    var q, r := m / 4, m % 4;
    assert 6 * m == 8 * (3 * q) + 6 * r && 6 * (m + 1) == 8 * (3 * q) + 6 * r + 6;
    if r == 0 {
    } else if r == 1 {
    } else if r == 2 {
    } else {
      assert r == 3;
    }
  }

  /** `(uint8_t)(acc >> nbits & 0xff)` */
  function OutByte(acc: nat, nbits: int): u8 {
    Whole(acc, nbits) % 0x100
  }

  lemma NoByteStep(v: seq<u6>, out: bytes, acc: int, x: u6)
    requires Decoding(v, out, acc, 0)
    ensures Decoding(v + [x], out, Accumulate(acc, x), 6)
  {
    var n := Number(v, 0x40);
    hide Number;
    BitCount(|v|);
    NumberAppend(v, x, 0x40);
    AccStep(n, x);
    DivModUnique(n * 0x40 + x, 0x40, n, x);
  }

  lemma OneByteStep(v: seq<u6>, out: bytes, acc: int, nbits: int, x: u6)
    requires Decoding(v, out, acc, nbits) && nbits != 0
    ensures nbits in {2, 4, 6}
    ensures Decoding(v + [x], out + [OutByte(Accumulate(acc, x), nbits - 2)], Accumulate(acc, x), nbits - 2)
  {
    hide Number, Accumulate, Whole, OutByte, Low32;
    var n, b := Number(v, 0x40), OutByte(Accumulate(acc, x), nbits - 2);
    AccStep(n, x);
    BitCount(|v|);
    NumberAppend(v, x, 0x40);
    NumberAppend(out, b, 0x100);
    ByteStep(n, x, nbits);
  }

  lemma DecodingStart()
    ensures Decoding([], [], 0, 0)
  {
  }

  lemma DecodingEnd(v: seq<u6>, out: bytes, acc: int, nbits: int)
    requires Decoding(v, out, acc, nbits)
    ensures IsDecoding(out, v) && (nbits == 6 <==> |v| % 4 == 1)
  {
    BitCount(|v|);
    assert Pow2(0) == 1 && Pow2(2) == 4 && Pow2(4) == 0x10 && Pow2(6) == 0x40;
    hide Pow2, Number;
  }

  lemma {:induction false} KeptLen(s: bytes)
    ensures |Kept(s)| <= |s|
  {
    if s != [] {
      KeptLen(s[..|s| - 1]);
    }
  }

  /** What one more character does to the kept text. */
  lemma KeptStep(s: bytes, i: nat)
    requires i < |s|
    ensures Kept(s[..i + 1]) == if s[i] == 0x0d || s[i] == 0x0a then Kept(s[..i]) else Kept(s[..i]) + [s[i]]
  {
    assert s[..i + 1][..i] == s[..i];
  }

  lemma {:induction false} KeptPrefix(s: bytes, i: nat)
    requires i <= |s|
    ensures Kept(s[..i]) <= Kept(s)
    decreases |s| - i
  {
    if i < |s| {
      KeptStep(s, i);
      KeptPrefix(s, i + 1);
    } else {
      assert s[..i] == s;
    }
  }

  /** One pass of the decoding loop over a symbol of value x. */
  method TakeSymbol(out: array<u8>, o: nat, acc: u32, nbits: nat, x: u6, ghost v: seq<u6>)
    returns (room: bool, o': nat, acc': u32, nbits': nat)
    requires o <= out.Length && Decoding(v, out[..o], acc, nbits)
    modifies out
    ensures room ==> o' <= out.Length && Decoding(v + [x], out[..o'], acc', nbits')
    ensures !room ==> out.Length < 6 * (|v| + 1) / 8
  {
    ghost var done := out[..o];
    DecodingBits(v, done, acc, nbits);
    if nbits + 6 >= 8 {
      OneByteStep(v, done, acc, nbits, x);
      hide Decoding, Accumulate, OutByte;
      acc', nbits' := Accumulate(acc, x), nbits - 2;
      if o >= out.Length {
        DecodingBits(v + [x], done + [OutByte(acc', nbits')], acc', nbits');
        return false, o, acc', nbits';
      }
      out[o] := OutByte(acc', nbits');
      o' := o + 1;
      assert out[..o'] == done + [OutByte(acc', nbits')];
    } else {
      NoByteStep(v, done, acc, x);
      hide Decoding, Accumulate;
      acc', nbits', o' := Accumulate(acc, x), nbits + 6, o;
    }
    room := true;
  }

  /** `tc_base64url_decode` */
  method DecodeInto(out: array<u8>, s: bytes) returns (rc: Result<nat>)
    modifies out
    ensures rc.Ok? <==> AllSymbols(Kept(s)) && |Kept(s)| % 4 != 1 && 6 * |Kept(s)| / 8 <= out.Length
    ensures rc.Ok? ==> rc.value == 6 * |Kept(s)| / 8 && IsDecoding(out[..rc.value], Values(Kept(s)))
    ensures rc.Ok? ==> rc.value <= DecodedMax(|s|)
    ensures rc == Err(NoSpace) ==> 6 * |Kept(s)| / 8 > out.Length
    ensures rc == Err(Inval) ==> !AllSymbols(Kept(s)) || |Kept(s)| % 4 == 1
    ensures rc.Err? ==> rc.error in {Inval, NoSpace}
  {
    var acc: u32, nbits: nat, o: nat := 0, 0, 0;
    ghost var v: seq<u6> := [];
    DecodingStart();
    hide Decoding, Kept, Dec6, Number, IsDecoding, DecodedMax, AllSymbols, Values, Accumulate, OutByte;
    assert s[..0] == [];
    KeptNothing();
    var i := 0;
    while i < |s|
      invariant 0 <= i <= |s| && o <= out.Length
      invariant AllSymbols(Kept(s[..i])) && v == Values(Kept(s[..i]))
      invariant Decoding(v, out[..o], acc, nbits)
    {
      var c := s[i];
      KeptStep(s, i);
      i := i + 1;
      KeptPrefix(s, i);
      if c == 0x0d || c == 0x0a {
        continue;
      }
      var x := Dec6(c);
      if x < 0 {
        BadSymbol(Kept(s), Kept(s[..i]));
        return Err(Inval);
      }
      SymbolsInvert(0, c);
      ValuesStep(Kept(s[..i - 1]), c);
      var room;
      room, o, acc, nbits := TakeSymbol(out, o, acc, nbits, x, v);
      if !room {
        TooLong(|Kept(s[..i])|, |Kept(s)|);
        return Err(NoSpace);
      }
      v := v + [x];
    }
    assert s[..i] == s;
    DecodingEnd(v, out[..o], acc, nbits);
    if nbits == 6 {
      return Err(Inval);
    }
    KeptLen(s);
    DecodingFits(out[..o], v, |s|);
    return Ok(o);
  }

  lemma DecodingBits(v: seq<u6>, out: bytes, acc: int, nbits: int)
    requires Decoding(v, out, acc, nbits)
    ensures nbits in {0, 2, 4, 6} && |out| == 6 * |v| / 8
  {
    BitCount(|v|);
  }

  lemma KeptNothing()
    ensures Kept([]) == [] && AllSymbols([]) && Values([]) == []
  {
  }

  lemma ValuesStep(k: bytes, c: u8)
    requires AllSymbols(k) && 0 <= Dec6(c) < 0x40
    ensures AllSymbols(k + [c]) && Values(k + [c]) == Values(k) + [Dec6(c)]
  {
  }

  lemma BadSymbol(k: bytes, p: bytes)
    requires p <= k && p != [] && Dec6(p[|p| - 1]) < 0
    ensures !AllSymbols(k)
  {
    assert k[|p| - 1] == p[|p| - 1];
  }

  lemma TooLong(n: nat, m: nat)
    requires n <= m
    ensures 6 * n / 8 <= 6 * m / 8
  {
  }

  lemma DecodingFits(out: bytes, v: seq<u6>, n: nat)
    requires IsDecoding(out, v) && |v| <= n
    ensures |out| == 6 * |v| / 8 <= DecodedMax(n)
  {
    Lengths(n);
  }

  // ---- round trip ----

  lemma {:induction false} KeptAll(s: bytes)
    requires forall i :: 0 <= i < |s| ==> s[i] != 0x0d && s[i] != 0x0a
    ensures Kept(s) == s
  {
    if s != [] {
      KeptAll(s[..|s| - 1]);
      assert s == s[..|s| - 1] + [s[|s| - 1]];
    }
  }

  /** Encoded text is all symbols, is never rejected for its length, and decodes to the bytes and nothing else. */
  lemma RoundTrip(b: bytes, out: bytes)
    ensures Kept(Encode(b)) == Encode(b) && AllSymbols(Encode(b)) && |Encode(b)| % 4 != 1
    ensures 6 * |Encode(b)| / 8 == |b|
    ensures IsDecoding(out, Values(Encode(b))) <==> out == b
    ensures Decode(Encode(b)) == Ok(b)
  {
    var e, v := Encode(b), Sextets(b);
    forall i | 0 <= i < |e| ensures e[i] != 0x0d && e[i] != 0x0a && Dec6(e[i]) == v[i] {
      SymbolsInvert(v[i], 0);
    }
    KeptAll(e);
    assert Values(e) == v;
    EncodeLen(b);
    Lengths(|b|);
    PadBits(|b|);
    BitCount(|v|);
    BytesDecode(b);
    if IsDecoding(out, v) {
      DecodingUnique(out, b, v);
    }
    DecodeIsDecoding(e, b);
  }

  lemma BytesDecode(b: bytes)
    ensures IsDecoding(b, Sextets(b))
  {
    hide Number, Pow2, Sextets;
    SextetsNumber(b);
    SextetsLen(b);
    PadBits(|b|);
    Lengths(|b|);
    DivModUnique(Number(Sextets(b), 0x40), Pow2(Pad(|b|)), Number(b, 0x100), 0);
  }

  // ---- texts that encoding reproduces ----

  /** The bits of the last symbol that belong to no byte are zero. */
  predicate ZeroPad(t: bytes) {
    && (|t| % 4 == 2 ==> Dec6(t[|t| - 1]) % 0x10 == 0)
    && (|t| % 4 == 3 ==> Dec6(t[|t| - 1]) % 4 == 0)
  }

  predicate Canonical(t: bytes) {
    0x0d !in t && 0x0a !in t && ZeroPad(t)
  }

  /** Decoded text is reproduced by encoding exactly when it has no line breaks and no spare bits. */
  lemma Reproduced(t: bytes)
    requires Decode(t).Ok?
    ensures Encode(Decode(t).value) == t <==> Canonical(t)
  {
    var out := Decode(t).value;
    if Encode(out) == t {
      RoundTrip(out, out);
      EncodedPad(out);
      NoBreaks(t);
    }
    if Canonical(t) {
      KeptAll(t);
      DecodeIsDecoding(t, out);
      CanonicalSextets(t, out);
      SameSymbols(t);
    }
  }

  lemma SameSymbols(t: bytes)
    requires AllSymbols(t)
    ensures Text(Values(t)) == t
  {
    forall i | 0 <= i < |t| ensures Symbol(Values(t)[i]) == t[i] {
      SymbolsInvert(0, t[i]);
    }
  }

  lemma NoBreaks(t: bytes)
    requires AllSymbols(t)
    ensures 0x0d !in t && 0x0a !in t
  {
  }

  lemma SpareBits(m: nat)
    requires m % 4 != 1
    ensures 6 * m % 8 == (if m % 4 == 2 then 4 else if m % 4 == 3 then 2 else 0) == Pad(6 * m / 8)
    ensures EncodedLen(6 * m / 8) == m
  {
    var q, r := m / 4, m % 4;
    assert m == 4 * q + r;
  }

  lemma PadPowers()
    ensures Pow2(0) == 1 && Pow2(2) == 4 && Pow2(4) == 0x10
  {
  }

  lemma LastSymbol(v: seq<u6>)
    requires v != []
    ensures Number(v, 0x40) % 4 == v[|v| - 1] % 4 && Number(v, 0x40) % 0x10 == v[|v| - 1] % 0x10
  {
    var front, last := Number(v[..|v| - 1], 0x40), v[|v| - 1];
    assert Number(v, 0x40) == front * 0x40 + last;
    hide Number;
    LowSextet(front, last);
  }

  lemma LowSextet(a: nat, b: nat)
    ensures (a * 0x40 + b) % 4 == b % 4 && (a * 0x40 + b) % 0x10 == b % 0x10
  {
    DivModUnique(a * 0x40 + b, 4, a * 0x10 + b / 4, b % 4);
    DivModUnique(a * 0x40 + b, 0x10, a * 4 + b / 0x10, b % 0x10);
  }

  lemma EncodedPad(b: bytes)
    ensures ZeroPad(Encode(b))
  {
    hide Number, Sextets, Pow2, Decode, IsDecoding, Kept, Dec6, EncodedLen, Symbol;
    var e, v := Encode(b), Sextets(b);
    RoundTrip(b, b);
    SextetsNumber(b);
    SpareBits(|e|);
    PadPowers();
    if v != [] {
      SymbolsInvert(v[|v| - 1], 0);
      LastSymbol(v);
    }
  }

  lemma CanonicalSextets(t: bytes, out: bytes)
    requires AllSymbols(t) && |t| % 4 != 1 && ZeroPad(t) && IsDecoding(out, Values(t))
    ensures Values(t) == Sextets(out)
  {
    hide Number, Sextets, Pow2, EncodedLen, Dec6;
    var v := Values(t);
    SpareBits(|t|);
    SextetsLen(out);
    SextetsNumber(out);
    PadPowers();
    if v != [] {
      LastSymbol(v);
      NumberInjective(v, Sextets(out), 0x40);
    }
  }
}
