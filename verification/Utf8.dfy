/** UTF-8 as section 4 of RFC 3629 defines it, and the three validators that implement it. */
module Utf8 {
  import opened Words

  // ---- the grammar ----

  predicate Tail(b: u8) {
    0x80 <= b <= 0xbf
  }

  predicate Two(s: bytes) {
    |s| >= 2 && 0xc2 <= s[0] <= 0xdf && Tail(s[1])
  }

  predicate Three(s: bytes) {
    && |s| >= 3 && Tail(s[2])
    && (|| (s[0] == 0xe0 && 0xa0 <= s[1] <= 0xbf)
        || (0xe1 <= s[0] <= 0xec && Tail(s[1]))
        || (s[0] == 0xed && 0x80 <= s[1] <= 0x9f)
        || (0xee <= s[0] <= 0xef && Tail(s[1])))
  }

  predicate Four(s: bytes) {
    && |s| >= 4 && Tail(s[2]) && Tail(s[3])
    && (|| (s[0] == 0xf0 && 0x90 <= s[1] <= 0xbf)
        || (0xf1 <= s[0] <= 0xf3 && Tail(s[1]))
        || (s[0] == 0xf4 && 0x80 <= s[1] <= 0x8f))
  }

  /** How many bytes the character at the front takes; 0 when there is none. */
  function CharLen(s: bytes): (n: nat)
    ensures n <= 4 && n <= |s|
  {
    if |s| >= 1 && s[0] <= 0x7f then 1
    else if Two(s) then 2
    else if Three(s) then 3
    else if Four(s) then 4
    else 0
  }

  /** A sequence of UTF-8 characters and nothing else. */
  predicate WellFormed(s: bytes)
    decreases |s|
  {
    s == [] || (CharLen(s) > 0 && WellFormed(s[CharLen(s)..]))
  }

  /** A Unicode scalar value. */
  predicate Scalar(cp: int) {
    0 <= cp <= 0x10ffff && !(0xd800 <= cp <= 0xdfff)
  }

  // ---- the code's arithmetic test ----

  /** `cp << 6 | (b & 0x3f)` */
  function Push(cp: int, b: int): int {
    cp * 0x40 + b % 0x40
  }

  /** Number of continuation bytes the lead byte announces; 4 marks an impossible lead. */
  function Extra(c: u8): nat {
    if c < 0x80 then 0
    else if c / 0x20 == 6 then 1
    else if c / 0x10 == 0xe then 2
    else if c / 8 == 0x1e then 3
    else 4
  }

  function LeadBits(c: u8, extra: nat): int {
    if extra == 0 then c else if extra == 1 then c % 0x20 else if extra == 2 then c % 0x10 else c % 8
  }

  /** Overlong, surrogate and out-of-range values are refused. */
  predicate Admissible(extra: nat, cp: int) {
    && !(extra == 1 && cp < 0x80) && !(extra == 2 && cp < 0x800) && !(extra == 3 && cp < 0x10000)
    && Scalar(cp)
  }

  function CodePoint(s: bytes, extra: nat): int
    requires extra < |s|
  {
    if extra == 0 then LeadBits(s[0], 0)
    else if extra == 1 then Push(LeadBits(s[0], 1), s[1])
    else if extra == 2 then Push(Push(LeadBits(s[0], 2), s[1]), s[2])
    else Push(Push(Push(LeadBits(s[0], 3), s[1]), s[2]), if extra < 4 then s[3] else 0)
  }

  /** The arithmetic test accepts exactly the grammar's characters. */
  lemma ArithmeticIsGrammar(s: bytes)
    requires s != []
    ensures var e := Extra(s[0]);
            CharLen(s) > 0 <==>
            (e <= 3 && e < |s| && (forall k :: 1 <= k <= e ==> Tail(s[k])) && Admissible(e, CodePoint(s, e)))
    ensures CharLen(s) > 0 ==> CharLen(s) == Extra(s[0]) + 1
  {
    var e := Extra(s[0]);
    if e == 1 && e < |s| {
      assert Push(LeadBits(s[0], 1), s[1]) >= 0x80 <==> s[0] >= 0xc2 || s[1] % 0x40 >= 0x80;
    } else if e == 2 && e < |s| && Tail(s[1]) && Tail(s[2]) {
      ThreeBytes(s);
    } else if e == 3 && e < |s| && Tail(s[1]) && Tail(s[2]) && Tail(s[3]) {
      FourBytes(s);
    }
  }

  lemma ThreeBytes(s: bytes)
    requires |s| >= 3 && Extra(s[0]) == 2 && Tail(s[1]) && Tail(s[2])
    ensures Three(s) <==> Admissible(2, CodePoint(s, 2))
  {
    ThreeDigits(s[0] % 0x10, s[1] % 0x40, s[2] % 0x40);
  }

  lemma ThreeDigits(x: int, y: int, z: int)
    requires 0 <= x < 0x10 && 0 <= y < 0x40 && 0 <= z < 0x40
    ensures var v := (x * 0x40 + y) * 0x40 + z;
            && (v >= 0x800 <==> x > 0 || y >= 0x20)
            && (0xd800 <= v <= 0xdfff <==> x == 0xd && y >= 0x20)
            && 0 <= v <= 0xffff
  {
  }

  lemma FourBytes(s: bytes)
    requires |s| >= 4 && Extra(s[0]) == 3 && Tail(s[1]) && Tail(s[2]) && Tail(s[3])
    ensures Four(s) <==> Admissible(3, CodePoint(s, 3))
  {
    FourDigits(s[0] % 8, s[1] % 0x40, s[2] % 0x40, s[3] % 0x40);
  }

  lemma FourDigits(x: int, y: int, z: int, w: int)
    requires 0 <= x < 8 && 0 <= y < 0x40 && 0 <= z < 0x40 && 0 <= w < 0x40
    ensures var v := ((x * 0x40 + y) * 0x40 + z) * 0x40 + w;
            && (v >= 0x10000 <==> x > 0 || y >= 0x10)
            && (v <= 0x10ffff <==> x < 4 || (x == 4 && y < 0x10))
            && 0 <= v
  {
  }

  lemma Ascii(s: bytes)
    requires s != []
    ensures s[0] < 0x80 ==> CharLen(s) == 1
  {
  }

  // ---- the three validators ----

  /** `tc_utf8_valid` */
  method Utf8Valid(p: bytes) returns (valid: bool)
    ensures valid <==> WellFormed(p)
  {
    hide CharLen, CodePoint, Admissible, LeadBits;
    var i := 0;
    while i < |p|
      invariant 0 <= i <= |p|
      invariant WellFormed(p) <==> WellFormed(p[i..])
    {
      ArithmeticIsGrammar(p[i..]);
      Ascii(p[i..]);
      var c := p[i];
      var extra := Extra(c);
      if extra == 0 {
        i := i + 1;
        continue;
      }
      if extra > 3 || |p| - i - 1 < extra {
        return false;
      }
      var cp := LeadBits(c, extra);
      var tails;
      tails, cp := Continue(p[i..], extra, cp);
      if !tails || !Admissible(extra, cp) {
        return false;
      }
      assert p[i..][extra + 1..] == p[i + extra + 1..];
      i := i + extra + 1;
    }
    return true;
  }

  /** The inner loop all three share: fold in the continuation bytes. */
  method Continue(s: bytes, extra: nat, lead: int) returns (ok: bool, cp: int)
    requires s != [] && 1 <= extra <= 3 && extra < |s| && lead == LeadBits(s[0], extra)
    ensures ok <==> forall k :: 1 <= k <= extra ==> Tail(s[k])
    ensures ok ==> cp == CodePoint(s, extra)
  {
    cp := lead;
    var k := 1;
    while k <= extra
      invariant 1 <= k <= extra + 1
      invariant forall j :: 1 <= j < k ==> Tail(s[j])
      invariant cp == if k == 1 then lead
                      else if k == 2 then Push(lead, s[1])
                      else if k == 3 then Push(Push(lead, s[1]), s[2])
                      else Push(Push(Push(lead, s[1]), s[2]), s[3])
    {
      if s[k] / 0x40 != 2 {
        return false, cp;
      }
      cp := Push(cp, s[k]);
      k := k + 1;
    }
    return true, cp;
  }

  /** `utf8_len`: the length of the character at the front, 0 for none, and its code point. */
  method Utf8Len(s: bytes) returns (n: nat, cp: int)
    ensures n == CharLen(s)
    ensures n > 0 ==> cp == CodePoint(s, n - 1)
  {
    if |s| == 0 {
      return 0, 0;
    }
    ArithmeticIsGrammar(s);
    var c := s[0];
    var extra := Extra(c);
    if extra == 0 {
      return 1, c;
    }
    if extra > 3 || |s| < extra + 1 {
      return 0, 0;
    }
    var tails;
    tails, cp := Continue(s, extra, LeadBits(c, extra));
    if !tails || !Admissible(extra, cp) {
      return 0, 0;
    }
    n := extra + 1;
  }

  // ---- encoding ----

  /** `utf8_put` */
  function Encode(cp: int): bytes
    requires Scalar(cp)
  {
    if cp < 0x80 then [cp]
    else if cp < 0x800 then [0xc0 + cp / 0x40, 0x80 + cp % 0x40]
    else if cp < 0x10000 then [0xe0 + cp / 0x1000, 0x80 + cp / 0x40 % 0x40, 0x80 + cp % 0x40]
    else [0xf0 + cp / 0x40000, 0x80 + cp / 0x1000 % 0x40, 0x80 + cp / 0x40 % 0x40, 0x80 + cp % 0x40]
  }

  /** What is written for a code point is one character, and reading it gives the code point back. */
  lemma EncodeDecodes(cp: int, rest: bytes)
    requires Scalar(cp)
    ensures CharLen(Encode(cp) + rest) == |Encode(cp)| > 0
    ensures CodePoint(Encode(cp) + rest, |Encode(cp)| - 1) == cp
  {
    hide CharLen, CodePoint;
    if cp < 0x80 {
      ReadOne(cp, rest);
    } else if cp < 0x800 {
      ReadTwo(cp / 0x40, cp % 0x40, rest);
    } else if cp < 0x10000 {
      SplitThree(cp);
      ReadThree(cp / 0x1000, cp / 0x40 % 0x40, cp % 0x40, rest);
    } else {
      SplitFour(cp);
      ReadFour(cp / 0x40000, cp / 0x1000 % 0x40, cp / 0x40 % 0x40, cp % 0x40, rest);
    }
  }

  lemma ReadOne(x: nat, rest: bytes)
    requires x < 0x80
    ensures CharLen([x] + rest) == 1 && CodePoint([x] + rest, 0) == x
  {
  }

  lemma ReadTwo(x: nat, y: nat, rest: bytes)
    requires 2 <= x < 0x20 && y < 0x40
    ensures var s := [0xc0 + x, 0x80 + y] + rest;
            CharLen(s) == 2 && CodePoint(s, 1) == x * 0x40 + y
  {
  }

  lemma ReadThree(x: nat, y: nat, z: nat, rest: bytes)
    requires x < 0x10 && y < 0x40 && z < 0x40 && (x == 0 ==> y >= 0x20) && (x == 0xd ==> y < 0x20)
    ensures var s := [0xe0 + x, 0x80 + y, 0x80 + z] + rest;
            CharLen(s) == 3 && CodePoint(s, 2) == (x * 0x40 + y) * 0x40 + z
  {
  }

  lemma ReadFour(x: nat, y: nat, z: nat, w: nat, rest: bytes)
    requires x <= 4 && y < 0x40 && z < 0x40 && w < 0x40 && (x == 0 ==> y >= 0x10) && (x == 4 ==> y < 0x10)
    ensures var s := [0xf0 + x, 0x80 + y, 0x80 + z, 0x80 + w] + rest;
            CharLen(s) == 4 && CodePoint(s, 3) == ((x * 0x40 + y) * 0x40 + z) * 0x40 + w
  {
    var s: bytes := [0xf0 + x, 0x80 + y, 0x80 + z, 0x80 + w] + rest;
    assert s[0] == 0xf0 + x && s[1] == 0x80 + y && s[2] == 0x80 + z && s[3] == 0x80 + w;
    assert s[0] % 8 == x && s[1] % 0x40 == y && s[2] % 0x40 == z && s[3] % 0x40 == w;
    hide Push;
    PushTail(x, y);
    PushTail(x * 0x40 + y, z);
    PushTail((x * 0x40 + y) * 0x40 + z, w);
  }

  lemma PushTail(cp: int, d: nat)
    requires d < 0x40
    ensures Push(cp, 0x80 + d) == cp * 0x40 + d
  {
  }

  lemma SplitThree(cp: int)
    requires 0x800 <= cp < 0x10000
    ensures cp == (cp / 0x1000 * 0x40 + cp / 0x40 % 0x40) * 0x40 + cp % 0x40
    ensures cp / 0x1000 < 0x10 && (cp / 0x1000 == 0 ==> cp / 0x40 % 0x40 >= 0x20)
    ensures cp / 0x1000 == 0xd && !(0xd800 <= cp <= 0xdfff) ==> cp / 0x40 % 0x40 < 0x20
  {
    assert cp / 0x1000 == cp / 0x40 / 0x40;
  }

  lemma SplitFour(cp: int)
    requires 0x10000 <= cp <= 0x10ffff
    ensures cp == ((cp / 0x40000 * 0x40 + cp / 0x1000 % 0x40) * 0x40 + cp / 0x40 % 0x40) * 0x40 + cp % 0x40
    ensures cp / 0x40000 <= 4 && (cp / 0x40000 == 0 ==> cp / 0x1000 % 0x40 >= 0x10)
    ensures cp / 0x40000 == 4 ==> cp / 0x1000 % 0x40 < 0x10
  {
    assert cp / 0x1000 == cp / 0x40 / 0x40 && cp / 0x40000 == cp / 0x40 / 0x40 / 0x40;
  }

  /** Reading a character and writing its code point gives the same bytes. */
  lemma DecodeEncodes(s: bytes)
    requires CharLen(s) > 0
    ensures Scalar(CodePoint(s, CharLen(s) - 1))
    ensures Encode(CodePoint(s, CharLen(s) - 1)) == s[..CharLen(s)]
  {
    var n := CharLen(s);
    if n == 1 {
      assert s[..1] == [s[0]];
    } else if n == 2 {
      DecodeTwo(s);
    } else if n == 3 {
      DecodeThree(s);
    } else {
      DecodeFour(s);
    }
  }

  lemma DecodeTwo(s: bytes)
    requires Two(s)
    ensures Scalar(CodePoint(s, 1)) && Encode(CodePoint(s, 1)) == s[..2]
  {
    hide Encode;
    assert s[0] % 0x20 == s[0] - 0xc0 && s[1] % 0x40 == s[1] - 0x80;
    WriteTwo(s[0] - 0xc0, s[1] - 0x80);
    assert s[..2] == [s[0], s[1]];
  }

  lemma DecodeThree(s: bytes)
    requires Three(s)
    ensures Scalar(CodePoint(s, 2)) && Encode(CodePoint(s, 2)) == s[..3]
  {
    hide Encode;
    var x, y, z := s[0] - 0xe0, s[1] - 0x80, s[2] - 0x80;
    assert s[0] % 0x10 == x && s[1] % 0x40 == y && s[2] % 0x40 == z;
    ThreeDigits(x, y, z);
    WriteThree(x, y, z);
    assert s[..3] == [s[0], s[1], s[2]];
  }

  lemma DecodeFour(s: bytes)
    requires Four(s)
    ensures Scalar(CodePoint(s, 3)) && Encode(CodePoint(s, 3)) == s[..4]
  {
    hide Encode;
    var x, y, z, w := s[0] - 0xf0, s[1] - 0x80, s[2] - 0x80, s[3] - 0x80;
    assert s[0] % 8 == x && s[1] % 0x40 == y && s[2] % 0x40 == z && s[3] % 0x40 == w;
    FourDigits(x, y, z, w);
    WriteFour(x, y, z, w);
    assert s[..4] == [s[0], s[1], s[2], s[3]];
  }

  lemma WriteTwo(x: nat, y: nat)
    requires 2 <= x < 0x20 && y < 0x40
    ensures Encode(x * 0x40 + y) == [0xc0 + x, 0x80 + y]
  {
  }

  lemma WriteThree(x: nat, y: nat, z: nat)
    requires x < 0x10 && y < 0x40 && z < 0x40
    ensures var cp := (x * 0x40 + y) * 0x40 + z;
            0x800 <= cp && Scalar(cp) ==> Encode(cp) == [0xe0 + x, 0x80 + y, 0x80 + z]
  {
    var cp := (x * 0x40 + y) * 0x40 + z;
    DivModUnique(cp, 0x40, x * 0x40 + y, z);
    DivModUnique(x * 0x40 + y, 0x40, x, y);
    DivModUnique(cp, 0x1000, x, y * 0x40 + z);
  }

  lemma WriteFour(x: nat, y: nat, z: nat, w: nat)
    requires x < 8 && y < 0x40 && z < 0x40 && w < 0x40
    ensures var cp := ((x * 0x40 + y) * 0x40 + z) * 0x40 + w;
            0x10000 <= cp && Scalar(cp) ==> Encode(cp) == [0xf0 + x, 0x80 + y, 0x80 + z, 0x80 + w]
  {
    var cp := ((x * 0x40 + y) * 0x40 + z) * 0x40 + w;
    DivModUnique(cp, 0x40, (x * 0x40 + y) * 0x40 + z, w);
    DivModUnique((x * 0x40 + y) * 0x40 + z, 0x40, x * 0x40 + y, z);
    DivModUnique(cp, 0x1000, x * 0x40 + y, z * 0x40 + w);
    DivModUnique(x * 0x40 + y, 0x40, x, y);
    DivModUnique(cp, 0x40000, x, (y * 0x40 + z) * 0x40 + w);
  }
}
