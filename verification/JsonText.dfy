/** The tokens of JSON: white space, strings and numbers, as grammar and as scanners. */
module JsonText {
  import opened Words
  import opened Errors
  import opened Utf8

  const QUOTE: u8 := 0x22
  const BACKSLASH: u8 := 0x5c

  // ---- white space ----

  predicate Ws(c: u8) {
    c == 0x20 || c == 0x09 || c == 0x0a || c == 0x0d
  }

  predicate AllWs(w: bytes) {
    forall i :: 0 <= i < |w| ==> Ws(w[i])
  }

  /** How much white space stands at the front. */
  function WsLen(s: bytes): (n: nat)
    ensures n <= |s| && AllWs(s[..n]) && (n < |s| ==> !Ws(s[n]))
  {
    if s != [] && Ws(s[0]) then
      var n := WsLen(s[1..]);
      assert s[..1 + n] == [s[0]] + s[1..][..n];
      1 + n
    else 0
  }

  function AfterWs(s: bytes): (r: bytes)
    ensures r == [] || !Ws(r[0])
  {
    s[WsLen(s)..]
  }

  lemma AfterWsStep(s: bytes)
    requires s != []
    ensures AfterWs(s) == if Ws(s[0]) then AfterWs(s[1..]) else s
  {
  }

  /** White space at the front, and the rest. */
  lemma WsSplit(s: bytes)
    ensures AllWs(s[..WsLen(s)]) && s == s[..WsLen(s)] + AfterWs(s)
  {
  }

  lemma {:induction false} WsSkipped(w: bytes, s: bytes)
    requires AllWs(w) && (s == [] || !Ws(s[0]))
    ensures AfterWs(w + s) == s
  {
    if w == [] {
      assert w + s == s;
    } else {
      WsSkipped(w[1..], s);
      assert (w + s)[1..] == w[1..] + s;
    }
  }

  // ---- strings: section 7 of RFC 8259 ----

  function Hex(c: u8): (v: int)
    ensures -1 <= v < 16
  {
    if '0' as int <= c <= '9' as int then c - '0' as int
    else if 'a' as int <= c <= 'f' as int then c - 'a' as int + 10
    else if 'A' as int <= c <= 'F' as int then c - 'A' as int + 10
    else -1
  }

  predicate AllHex(s: bytes) {
    forall i :: 0 <= i < |s| ==> Hex(s[i]) >= 0
  }

  /** Quote, backslash, slash, b, f, n, r, t */
  predicate Simple(e: u8) {
    e in {0x22, 0x5c, 0x2f, 0x62, 0x66, 0x6e, 0x72, 0x74}
  }

  /** Length of the string character at the front of s: an escape or one unescaped UTF-8 character; 0 for none. */
  function Unit(s: bytes): (n: nat)
    ensures n <= |s| && n <= 6
  {
    if s == [] || s[0] == QUOTE || s[0] < 0x20 then 0
    else if s[0] != BACKSLASH then CharLen(s)
    else if |s| >= 2 && Simple(s[1]) then 2
    else if |s| >= 6 && s[1] == 0x75 && AllHex(s[2..6]) then 6
    else 0
  }

  /** What may stand between the quotes. */
  predicate Chars(b: bytes)
    decreases |b|
  {
    b == [] || (Unit(b) > 0 && Chars(b[Unit(b)..]))
  }

  /** Which error a character that is none gives. */
  function UnitError(s: bytes): Error
    requires s != []
  {
    if s[0] < 0x20 then Inval
    else if s[0] == BACKSLASH then
      if |s| == 1 || (s[1] == 0x75 && |s| < 6) then Trunc else Inval
    else if Extra(s[0]) <= 3 && |s| - 1 < Extra(s[0]) then Trunc
    else Inval
  }

  /** Where the closing quote is, reading character by character. */
  function StringEnd(s: bytes): (r: Result<nat>)
    decreases |s|
    ensures r.Ok? ==> r.value < |s| && s[r.value] == QUOTE
  {
    if s == [] then Err(Trunc)
    else if s[0] == QUOTE then Ok(0)
    else if Unit(s) == 0 then Err(UnitError(s))
    else
      var n :- StringEnd(s[Unit(s)..]);
      Ok(Unit(s) + n)
  }

  lemma CharLocal(p: bytes, t: bytes)
    ensures CharLen(p) > 0 ==> CharLen(p + t) == CharLen(p)
    ensures 0 < CharLen(p + t) <= |p| ==> CharLen(p) == CharLen(p + t)
  {
    if p != [] {
      var s := p + t;
      assert s[0] == p[0];
      assert |p| >= 2 ==> s[1] == p[1];
      assert |p| >= 3 ==> s[2] == p[2];
      assert |p| >= 4 ==> s[3] == p[3];
    }
  }

  /** A character does not depend on what follows it. */
  lemma UnitLocal(p: bytes, t: bytes)
    ensures Unit(p) > 0 ==> Unit(p + t) == Unit(p)
    ensures 0 < Unit(p + t) <= |p| ==> Unit(p) == Unit(p + t)
  {
    CharLocal(p, t);
    hide CharLen;
    if p != [] {
      var s := p + t;
      assert s[0] == p[0];
      assert |p| >= 2 ==> s[1] == p[1];
      assert |p| >= 6 ==> s[2..6] == p[2..6];
    }
  }

  /** What the scanner accepts is in the grammar. */
  lemma {:induction false} StringSound(s: bytes)
    requires StringEnd(s).Ok?
    ensures Chars(s[..StringEnd(s).value])
    decreases |s|
  {
    hide Unit;
    var n := StringEnd(s).value;
    if s[0] != QUOTE {
      var u := Unit(s);
      StringSound(s[u..]);
      var b := s[..n];
      assert b + s[n..] == s;
      UnitLocal(b, s[n..]);
      assert b[u..] == s[u..][..n - u];
    }
  }

  /** What is in the grammar, the scanner accepts, up to the first quote that follows. */
  lemma {:induction false} StringComplete(b: bytes, t: bytes)
    requires Chars(b)
    ensures StringEnd(b + [QUOTE] + t) == Ok(|b|)
    decreases |b|
  {
    hide Unit, StringEnd;
    var s := b + [QUOTE] + t;
    if b == [] {
      assert s[0] == QUOTE;
      StringNext(s);
    } else {
      NotAQuote(b);
      var u := Unit(b);
      StringComplete(b[u..], t);
      assert s == b + ([QUOTE] + t);
      UnitLocal(b, [QUOTE] + t);
      assert s[u..] == b[u..] + [QUOTE] + t;
      assert s[0] == b[0];
      StringNext(s);
    }
  }

  lemma StringNext(s: bytes)
    requires s != []
    ensures StringEnd(s) == if s[0] == QUOTE then Ok(0)
                            else if Unit(s) == 0 then Err(UnitError(s))
                            else if StringEnd(s[Unit(s)..]).Err? then StringEnd(s[Unit(s)..])
                            else Ok(Unit(s) + StringEnd(s[Unit(s)..]).value)
  {
    hide Unit;
  }

  lemma NotAQuote(b: bytes)
    requires Unit(b) > 0
    ensures b[0] != QUOTE
  {
  }

  // ---- numbers: section 6 of RFC 8259 ----

  predicate Digit(c: u8) {
    0x30 <= c <= 0x39
  }

  predicate AllDigits(s: bytes) {
    forall i :: 0 <= i < |s| ==> Digit(s[i])
  }

  /** How many digits stand at the front. */
  function DigitsLen(s: bytes): (n: nat)
    ensures n <= |s| && AllDigits(s[..n]) && (n < |s| ==> !Digit(s[n]))
  {
    if s != [] && Digit(s[0]) then
      var n := DigitsLen(s[1..]);
      assert s[..1 + n] == [s[0]] + s[1..][..n];
      1 + n
    else 0
  }

  lemma {:induction false} DigitsTaken(d: bytes, s: bytes)
    requires AllDigits(d) && (s == [] || !Digit(s[0]))
    ensures DigitsLen(d + s) == |d|
  {
    if d == [] {
      assert d + s == s;
    } else {
      DigitsTaken(d[1..], s);
      assert (d + s)[1..] == d[1..] + s;
    }
  }

  /** A number in its four parts. */
  datatype Num = Num(neg: bool, whole: bytes, frac: bytes, exp: bytes)

  predicate IsInt(b: bytes) {
    b != [] && AllDigits(b) && (b[0] == 0x30 ==> |b| == 1)
  }

  predicate IsFrac(b: bytes) {
    b == [] || (|b| >= 2 && b[0] == 0x2e && AllDigits(b[1..]))
  }

  predicate Sign(c: u8) {
    c == 0x2b || c == 0x2d
  }

  predicate IsExp(b: bytes) {
    b == [] ||
    (&& |b| >= 2 && (b[0] == 0x65 || b[0] == 0x45)
     && (if Sign(b[1]) then |b| >= 3 && AllDigits(b[2..]) else AllDigits(b[1..])))
  }

  predicate IsNum(n: Num) {
    IsInt(n.whole) && IsFrac(n.frac) && IsExp(n.exp)
  }

  function Minus(neg: bool): bytes {
    if neg then [0x2d] else []
  }

  function NumText(n: Num): bytes {
    Minus(n.neg) + (n.whole + (n.frac + n.exp))
  }

  function ScanInt(s: bytes): (r: Result<bytes>)
    ensures r.Ok? ==> r.value <= s && IsInt(r.value)
  {
    if s == [] then Err(Trunc)
    else if s[0] == 0x30 then Ok([0x30])
    else if Digit(s[0]) then Ok(s[..DigitsLen(s)])
    else Err(Inval)
  }

  function ScanFrac(s: bytes): (r: Result<bytes>)
    ensures r.Ok? ==> r.value <= s && IsFrac(r.value)
  {
    if s == [] || s[0] != 0x2e then Ok([])
    else if |s| < 2 || !Digit(s[1]) then Err(Inval)
    else
      var n := DigitsLen(s[1..]);
      assert s[..1 + n][1..] == s[1..][..n];
      Ok(s[..1 + n])
  }

  function ScanExp(s: bytes): (r: Result<bytes>)
    ensures r.Ok? ==> r.value <= s && IsExp(r.value)
  {
    if s == [] || !(s[0] == 0x65 || s[0] == 0x45) then Ok([])
    else
      var a := if |s| >= 2 && Sign(s[1]) then 2 else 1;
      if |s| <= a || !Digit(s[a]) then Err(Inval)
      else
        var n := DigitsLen(s[a..]);
        assert s[..a + n][a..] == s[a..][..n];
        Ok(s[..a + n])
  }

  function ScanNum(s: bytes): Result<Num> {
    if s != [] && s[0] == 0x2d then ScanUnsigned(true, s[1..]) else ScanUnsigned(false, s)
  }

  function ScanUnsigned(neg: bool, s: bytes): Result<Num> {
    var whole :- ScanInt(s);
    var frac :- ScanFrac(s[|whole|..]);
    var exp :- ScanExp(s[|whole|..][|frac|..]);
    Ok(Num(neg, whole, frac, exp))
  }

  lemma PrefixSplit(p: bytes, s: bytes)
    requires p <= s
    ensures s == p + s[|p|..]
  {
  }

  lemma Regroup(a: bytes, b: bytes, c: bytes, d: bytes, e: bytes)
    ensures a + (b + (c + (d + e))) == (a + (b + (c + d))) + e
  {
    assert b + (c + (d + e)) == (b + (c + d)) + e;
  }

  /** The scanned number is grammatical and is what stands at the front of s. */
  lemma NumSound(s: bytes)
    requires ScanNum(s).Ok?
    ensures IsNum(ScanNum(s).value) && NumText(ScanNum(s).value) <= s
  {
    hide ScanInt, ScanFrac, ScanExp, IsInt, IsFrac, IsExp;
    var n := ScanNum(s).value;
    var s1 := if n.neg then s[1..] else s;
    var s2 := s1[|n.whole|..];
    var s3 := s2[|n.frac|..];
    var s4 := s3[|n.exp|..];
    PrefixSplit(n.whole, s1);
    PrefixSplit(n.frac, s2);
    PrefixSplit(n.exp, s3);
    Regroup(Minus(n.neg), n.whole, n.frac, n.exp, s4);
    assert s == Minus(n.neg) + s1;
  }

  /** Nothing that could continue a number. */
  predicate Stop(t: bytes) {
    t == [] || (!Digit(t[0]) && t[0] != 0x2e && t[0] != 0x65 && t[0] != 0x45)
  }

  lemma IntTaken(b: bytes, t: bytes)
    requires IsInt(b) && (t == [] || !Digit(t[0]))
    ensures ScanInt(b + t) == Ok(b)
  {
    DigitsTaken(b, t);
    assert (b + t)[0] == b[0] && (b + t)[..|b|] == b;
    assert b[0] == 0x30 ==> b == [0x30];
  }

  lemma FracTaken(b: bytes, t: bytes)
    requires IsFrac(b) && (t == [] || (!Digit(t[0]) && t[0] != 0x2e))
    ensures ScanFrac(b + t) == Ok(b)
  {
    if b == [] {
      assert b + t == t;
    } else {
      assert (b + t)[0] == b[0] && (b + t)[1] == b[1..][0];
      assert (b + t)[1..] == b[1..] + t;
      DigitsTaken(b[1..], t);
      assert (b + t)[..|b|] == b;
    }
  }

  lemma ExpTaken(b: bytes, t: bytes)
    requires IsExp(b) && Stop(t)
    ensures ScanExp(b + t) == Ok(b)
  {
    if b == [] {
      assert b + t == t;
    } else {
      var a := if Sign(b[1]) then 2 else 1;
      assert (b + t)[0] == b[0] && (b + t)[1] == b[1] && (b + t)[a] == b[a..][0];
      assert (b + t)[a..] == b[a..] + t;
      DigitsTaken(b[a..], t);
      assert (b + t)[..|b|] == b;
    }
  }

  lemma NumComplete(n: Num, t: bytes)
    requires IsNum(n) && Stop(t)
    ensures ScanNum(NumText(n) + t) == Ok(n)
  {
    var t2 := n.exp + t;
    var t1 := n.frac + t2;
    Parts(n, t);
    ExpTaken(n.exp, t);
    FracTaken(n.frac, t2);
    IntTaken(n.whole, t1);
    hide ScanInt, ScanFrac, ScanExp, IsInt, IsFrac, IsExp, Stop;
    assert (n.whole + t1)[|n.whole|..] == t1 && t1[|n.frac|..] == t2;
    assert ScanUnsigned(n.neg, n.whole + t1) == Ok(n);
    hide ScanUnsigned;
    Regroup(Minus(n.neg), n.whole, n.frac, n.exp, t);
    var s := NumText(n) + t;
    assert s == Minus(n.neg) + (n.whole + t1);
    if n.neg {
      assert s[1..] == n.whole + t1;
    } else {
      assert s == n.whole + t1;
    }
  }

  /** What each part of a number is followed by. */
  lemma Parts(n: Num, t: bytes)
    requires IsNum(n) && Stop(t)
    ensures var t2 := n.exp + t;
            && (t2 == [] || (!Digit(t2[0]) && t2[0] != 0x2e))
            && (n.frac + t2 == [] || !Digit((n.frac + t2)[0]))
            && n.whole != [] && n.whole[0] != 0x2d
  {
  }

  function DecValue(d: bytes): int {
    if d == [] then 0 else DecValue(d[..|d| - 1]) * 10 + (d[|d| - 1] as int - 0x30)
  }

  function NumValue(n: Num): int {
    if n.neg then 0 - DecValue(n.whole) else DecValue(n.whole)
  }

  /** The value the reader reports: integers that fit 64 bits, nothing else. */
  function IntegerOf(n: Num): Option<int> {
    if n.frac == [] && n.exp == [] && Int64(NumValue(n)) then Some(NumValue(n)) else None
  }
}
