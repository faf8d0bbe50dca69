/** Escaping text for JSON, expanding it again, and why one undoes the other. */
module JsonEscape {
  import opened Words
  import opened Errors
  import opened Utf8
  import opened JsonText
  import opened Json

  // ---- expanding ----

  /** Every backslash begins a complete escape. */
  predicate EscapesOk(b: bytes)
    decreases |b|
  {
    if b == [] then true
    else if b[0] != BACKSLASH then EscapesOk(b[1..])
    else if |b| >= 2 && Simple(b[1]) then EscapesOk(b[2..])
    else |b| >= 6 && b[1] == 0x75 && AllHex(b[2..6]) && EscapesOk(b[6..])
  }

  lemma {:induction false} PlainBytes(b: bytes, k: nat)
    requires k <= |b| && (forall i :: 0 <= i < k ==> b[i] != BACKSLASH) && EscapesOk(b[k..])
    ensures EscapesOk(b)
    decreases k
  {
    if k > 0 {
      assert b[1..][k - 1..] == b[k..];
      PlainBytes(b[1..], k - 1);
    } else {
      assert b[0..] == b;
    }
  }

  lemma CharNoBackslash(s: bytes)
    requires CharLen(s) > 0 && s[0] != BACKSLASH
    ensures forall i :: 0 <= i < CharLen(s) ==> s[i] != BACKSLASH
  {
  }

  /** Text the string scanner accepted is safe to expand. */
  lemma {:induction false} CharsEscapes(b: bytes)
    requires Chars(b)
    ensures EscapesOk(b)
    decreases |b|
  {
    if b != [] {
      CharsEscapes(b[Unit(b)..]);
      if b[0] != BACKSLASH {
        CharNoBackslash(b);
        hide CharLen, EscapesOk;
        PlainBytes(b, Unit(b));
      }
    }
  }

  /** What a one-letter escape stands for. */
  function SimpleValue(e: u8): (c: u8)
    requires Simple(e)
    ensures c != 0
  {
    if e == 0x62 then 0x08 else if e == 0x66 then 0x0c else if e == 0x6e then 0x0a
    else if e == 0x72 then 0x0d else if e == 0x74 then 0x09 else e
  }

  function Hex4(s: bytes): (v: nat)
    requires |s| == 4 && AllHex(s)
    ensures v <= 0xffff
  {
    ((Hex(s[0]) * 0x10 + Hex(s[1])) * 0x10 + Hex(s[2])) * 0x10 + Hex(s[3])
  }

  /** The low surrogate written as an escape at the front of s, if one is. */
  function LowHalf(s: bytes): (r: Option<nat>)
    ensures r.Some? ==> 0xdc00 <= r.value <= 0xdfff
  {
    if |s| >= 6 && s[0] == BACKSLASH && s[1] == 0x75 && AllHex(s[2..6]) && 0xdc00 <= Hex4(s[2..6]) <= 0xdfff
    then Some(Hex4(s[2..6]))
    else None
  }

  /** The code point of a \u escape and how many bytes it takes; a surrogate must be a pair. */
  function UnicodeEscape(b: bytes): (r: Result<(int, nat)>)
    requires |b| >= 6 && AllHex(b[2..6])
    ensures r.Ok? ==> Scalar(r.value.0) && r.value.0 != 0 && 6 <= r.value.1 <= |b| && r.value.1 in {6, 12}
  {
    var cp := Hex4(b[2..6]);
    if 0xd800 <= cp <= 0xdbff then
      match LowHalf(b[6..])
      case None => Err(Inval)
      case Some(lo) => Ok((0x10000 + (cp - 0xd800) * 0x400 + (lo - 0xdc00), 12))
    else if 0xdc00 <= cp <= 0xdfff || cp == 0 then Err(Inval)
    else Ok((cp, 6))
  }

  /** The first thing to expand: the bytes it gives and the bytes it takes. */
  function ExpandUnit(b: bytes): (r: Result<(bytes, nat)>)
    requires b != [] && EscapesOk(b)
    ensures r.Ok? ==> 1 <= r.value.1 <= |b|
  {
    if b[0] == 0 then Err(Inval)
    else if b[0] != BACKSLASH then Ok(([b[0]], 1))
    else if Simple(b[1]) then Ok(([SimpleValue(b[1])], 2))
    else
      var u :- UnicodeEscape(b);
      Ok((Encode(u.0), u.1))
  }

  lemma ExpandAdvances(b: bytes)
    requires b != [] && EscapesOk(b) && ExpandUnit(b).Ok?
    ensures EscapesOk(b[ExpandUnit(b).value.1..])
  {
    hide Encode, Hex4, AllHex;
    if b[0] == BACKSLASH && !Simple(b[1]) && UnicodeEscape(b).value.1 == 12 {
      var low := b[6..];
      assert EscapesOk(low) && low[0] == BACKSLASH && !Simple(low[1]);
      assert low[6..] == b[12..];
    }
  }

  /** The text a raw slice stands for. */
  function Expand(b: bytes): Result<bytes>
    requires EscapesOk(b)
    decreases |b|
  {
    if b == [] then Ok([])
    else
      var u :- ExpandUnit(b);
      ExpandAdvances(b);
      var rest :- Expand(b[u.1..]);
      Ok(u.0 + rest)
  }

  // ---- escaping ----

  function HexDigit(v: nat): u8
    requires v < 16
  {
    if v < 10 then 0x30 + v else 0x61 + (v - 10)
  }

  /** Backslash, u, and four digits. */
  function Unicode(a: u8, b: u8, c: u8, d: u8): bytes {
    [BACKSLASH, 0x75, a, b, c, d]
  }

  /** What is written for an ASCII character. */
  function EscapeAscii(c: u8): bytes
    requires c < 0x80
  {
    if c == QUOTE || c == BACKSLASH then [BACKSLASH, c]
    else if c == 0x0a then [BACKSLASH, 0x6e]
    else if c == 0x0d then [BACKSLASH, 0x72]
    else if c == 0x09 then [BACKSLASH, 0x74]
    else if c >= 0x20 && c != 0x3c && c != 0x3e && c != 0x26 then [c]
    else Unicode(0x30, 0x30, HexDigit(c / 0x10), HexDigit(c % 0x10))
  }

  /** How many bytes of input the next step of the escaper takes. */
  function StepLen(s: bytes): (n: nat)
    requires s != []
    ensures 1 <= n <= |s|
  {
    if CharLen(s) == 0 then 1 else CharLen(s)
  }

  function EscapeUnit(s: bytes): bytes
    requires s != []
  {
    if s[0] < 0x80 then EscapeAscii(s[0])
    else if CharLen(s) == 0 then Unicode(0x66, 0x66, 0x66, 0x64)
    else
      var cp := CodePoint(s, CharLen(s) - 1);
      if cp == 0x2028 then Unicode(0x32, 0x30, 0x32, 0x38)
      else if cp == 0x2029 then Unicode(0x32, 0x30, 0x32, 0x39)
      else s[..CharLen(s)]
  }

  /** `tc_json_escape` as a function. */
  function Escaped(s: bytes): bytes
    decreases |s|
  {
    if s == [] then [] else EscapeUnit(s) + Escaped(s[StepLen(s)..])
  }

  /** What one step of the escaper took, with a replacement for a byte that is no character. */
  function ReplacedUnit(s: bytes): bytes
    requires s != []
  {
    if CharLen(s) == 0 then [0xef, 0xbf, 0xbd] else s[..CharLen(s)]
  }

  /** The input with every byte that is not part of a UTF-8 character replaced by U+FFFD. */
  function Replaced(s: bytes): bytes
    decreases |s|
  {
    if s == [] then [] else ReplacedUnit(s) + Replaced(s[StepLen(s)..])
  }

  lemma {:induction false} ReplacedValid(s: bytes)
    requires WellFormed(s)
    ensures Replaced(s) == s
    decreases |s|
  {
    if s != [] {
      ReplacedValid(s[CharLen(s)..]);
      assert s == s[..CharLen(s)] + s[CharLen(s)..];
    }
  }

  lemma {:induction false} EscapedSize(s: bytes)
    ensures |Escaped(s)| <= 6 * |s|
    decreases |s|
  {
    hide CharLen, CodePoint;
    if s != [] {
      EscapedSize(s[StepLen(s)..]);
    }
  }

  // ---- escaping and expanding again ----

  function Prepend(p: bytes, r: Result<bytes>): Result<bytes> {
    if r.Ok? then Ok(p + r.value) else r
  }

  lemma ExpandNext(s: bytes)
    requires s != [] && EscapesOk(s)
    ensures var u := ExpandUnit(s);
            if u.Ok? then EscapesOk(s[u.value.1..]) && Expand(s) == Prepend(u.value.0, Expand(s[u.value.1..]))
            else Expand(s) == Err(u.error)
  {
    hide ExpandUnit, EscapesOk;
    if ExpandUnit(s).Ok? {
      ExpandAdvances(s);
    }
  }

  /** Expanding one unit and then the rest. */
  lemma ExpandFirst(u: bytes, out: bytes, rest: bytes)
    requires u != [] && EscapesOk(u + rest) && EscapesOk(rest) && Expand(rest).Ok?
    requires ExpandUnit(u + rest) == Ok((out, |u|))
    ensures Expand(u + rest) == Ok(out + Expand(rest).value)
  {
    assert (u + rest)[|u|..] == rest;
    hide ExpandUnit, EscapesOk;
  }

  lemma HexDigits(v: nat)
    requires v < 16
    ensures Hex(HexDigit(v)) == v
  {
  }

  /** A \u escape of a character that is neither a surrogate nor NUL. */
  lemma UnicodeUnit(a: u8, b: u8, c: u8, d: u8, rest: bytes)
    requires AllHex([a, b, c, d]) && EscapesOk(rest)
    ensures var u := Unicode(a, b, c, d);
            && Unit(u + rest) == 6 && EscapesOk(u + rest)
            && (var cp := Hex4([a, b, c, d]);
                Scalar(cp) && cp != 0 ==> ExpandUnit(u + rest) == Ok((Encode(cp), 6)))
  {
    var s := Unicode(a, b, c, d) + rest;
    assert s[2..6] == [a, b, c, d] && s[6..] == rest;
    hide Encode, Hex4, AllHex;
  }

  lemma AsciiUnit(c: u8, rest: bytes)
    requires 0 < c < 0x80 && EscapesOk(rest)
    ensures var u := EscapeAscii(c);
            u != [] && Unit(u + rest) == |u| && EscapesOk(u + rest) && ExpandUnit(u + rest) == Ok(([c], |u|))
  {
    var u := EscapeAscii(c);
    var s := u + rest;
    if |u| == 6 {
      HexDigits(c / 0x10);
      HexDigits(c % 0x10);
      UnicodeUnit(0x30, 0x30, HexDigit(c / 0x10), HexDigit(c % 0x10), rest);
      assert Hex4([0x30, 0x30, HexDigit(c / 0x10), HexDigit(c % 0x10)]) == c;
    } else if |u| == 2 {
      assert s[0] == BACKSLASH && s[1] == u[1] && s[2..] == rest;
    } else {
      assert s[0] == c && s[1..] == rest;
    }
  }

  lemma CopiedByte(c: u8, s: bytes)
    requires c != BACKSLASH && c != 0 && EscapesOk(s)
    ensures EscapesOk([c] + s) && ExpandUnit([c] + s) == Ok(([c], 1))
  {
    assert ([c] + s)[1..] == s;
  }

  /** Bytes that are neither NUL nor a backslash are copied. */
  lemma {:induction false} CopiedBytes(p: bytes, rest: bytes)
    requires (forall i :: 0 <= i < |p| ==> p[i] != BACKSLASH && p[i] != 0) && EscapesOk(rest)
    ensures EscapesOk(p + rest) && Expand(p + rest) == Prepend(p, Expand(rest))
  {
    hide EscapesOk, Expand, ExpandUnit;
    if p == [] {
      assert p + rest == rest;
      if Expand(rest).Ok? {
        assert [] + Expand(rest).value == Expand(rest).value;
      }
    } else {
      CopiedBytes(p[1..], rest);
      var s := p[1..] + rest;
      assert p + rest == [p[0]] + s;
      CopiedByte(p[0], s);
      ExpandNext([p[0]] + s);
      assert ([p[0]] + s)[1..] == s;
      if Expand(rest).Ok? {
        assert [p[0]] + (p[1..] + Expand(rest).value) == p + Expand(rest).value;
      }
    }
  }

  lemma MultiByte(s: bytes)
    requires s != [] && s[0] >= 0x80 && CharLen(s) > 0
    ensures forall i :: 0 <= i < CharLen(s) ==> s[i] >= 0x80
  {
  }

  lemma Replacement()
    ensures Encode(0xfffd) == [0xef, 0xbf, 0xbd]
    ensures Hex4([0x66, 0x66, 0x66, 0x64]) == 0xfffd
    ensures Hex4([0x32, 0x30, 0x32, 0x38]) == 0x2028 && Hex4([0x32, 0x30, 0x32, 0x39]) == 0x2029
  {
  }

  /** One step of the escaper writes one string character, and expanding that gives back what was taken. */
  lemma EscapeStep(s: bytes, rest: bytes)
    requires s != [] && s[0] != 0 && EscapesOk(rest) && Expand(rest).Ok?
    ensures var u := EscapeUnit(s);
            u != [] && Unit(u + rest) == |u| && EscapesOk(u + rest)
            && Expand(u + rest) == Ok(ReplacedUnit(s) + Expand(rest).value)
  {
    var u := EscapeUnit(s);
    if s[0] < 0x80 {
      AsciiUnit(s[0], rest);
      hide EscapesOk, Expand, ExpandUnit, Unit, EscapeAscii;
      ExpandFirst(u, [s[0]], rest);
      assert s[..1] == [s[0]];
    } else if CharLen(s) == 0 || CodePoint(s, CharLen(s) - 1) in {0x2028, 0x2029} {
      SpecialStep(s, rest);
    } else {
      PlainStep(s, rest);
    }
  }

  lemma SpecialStep(s: bytes, rest: bytes)
    requires s != [] && s[0] >= 0x80 && EscapesOk(rest) && Expand(rest).Ok?
    requires CharLen(s) == 0 || CodePoint(s, CharLen(s) - 1) in {0x2028, 0x2029}
    ensures var u := EscapeUnit(s);
            |u| == 6 && Unit(u + rest) == 6 && EscapesOk(u + rest)
            && Expand(u + rest) == Ok(ReplacedUnit(s) + Expand(rest).value)
  {
    if CharLen(s) > 0 {
      DecodeEncodes(s);
    }
    Replacement();
    hide CharLen, CodePoint, Encode, EscapesOk, Expand, ExpandUnit, Unit, Hex4;
    var cp := if CharLen(s) == 0 then 0xfffd else CodePoint(s, CharLen(s) - 1);
    var d: bytes := if cp == 0xfffd then [0x66, 0x66, 0x66, 0x64]
                    else [0x32, 0x30, 0x32, if cp == 0x2028 then 0x38 else 0x39];
    UnicodeUnit(d[0], d[1], d[2], d[3], rest);
    assert d == [d[0], d[1], d[2], d[3]];
    assert EscapeUnit(s) == Unicode(d[0], d[1], d[2], d[3]);
    ExpandFirst(EscapeUnit(s), Encode(cp), rest);
  }

  lemma PlainStep(s: bytes, rest: bytes)
    requires s[0..] != [] && s[0] >= 0x80 && CharLen(s) > 0 && EscapesOk(rest) && Expand(rest).Ok?
    requires CodePoint(s, CharLen(s) - 1) !in {0x2028, 0x2029}
    ensures var u := EscapeUnit(s);
            u == s[..CharLen(s)] && Unit(u + rest) == |u| && EscapesOk(u + rest)
            && Expand(u + rest) == Ok(u + Expand(rest).value)
  {
    var n := CharLen(s);
    var u := s[..n];
    MultiByte(s);
    assert s == u + s[n..];
    CharLocal(u, s[n..]);
    CharLocal(u, rest);
    hide EscapesOk, Expand, CharLen, CodePoint;
    CopiedBytes(u, rest);
    assert (u + rest)[0] == s[0];
  }

  /**
   * Escaped text is what may stand between quotes, and expanding it gives the input back, with every byte
   * that is not part of a UTF-8 character replaced.
   */
  lemma {:induction false} EscapeRoundTrip(s: bytes)
    requires 0 !in s
    ensures Chars(Escaped(s)) && EscapesOk(Escaped(s)) && Expand(Escaped(s)) == Ok(Replaced(s))
    decreases |s|
  {
    if s != [] {
      var rest := s[StepLen(s)..];
      EscapeRoundTrip(rest);
      hide EscapesOk, Expand, Unit, EscapeUnit, CharLen;
      var u, e := EscapeUnit(s), Escaped(rest);
      EscapeStep(s, e);
      assert (u + e)[|u|..] == e;
    }
  }

  /** For text that is UTF-8 already, the quoted escape scans as one string and reads back as the text. */
  lemma EscapeIdentity(s: bytes, t: bytes)
    requires 0 !in s && WellFormed(s)
    ensures StringEnd(Escaped(s) + [QUOTE] + t) == Ok(|Escaped(s)|)
    ensures EscapesOk(Escaped(s)) && Expand(Escaped(s)) == Ok(s)
  {
    hide Chars, EscapesOk, Expand, Escaped, StringEnd, WellFormed;
    EscapeRoundTrip(s);
    ReplacedValid(s);
    StringComplete(Escaped(s), t);
  }

  // ---- the copier ----

  /** `cp << 4 | hexnib(...)`, four times. */
  method ReadHex(s: bytes) returns (v: nat)
    requires |s| == 4 && AllHex(s)
    ensures v == Hex4(s)
  {
    v := 0;
    var k := 0;
    while k < 4
      invariant 0 <= k <= 4
      invariant v == if k == 0 then 0 else if k == 1 then Hex(s[0]) else if k == 2 then Hex(s[0]) * 0x10 + Hex(s[1])
                     else if k == 3 then (Hex(s[0]) * 0x10 + Hex(s[1])) * 0x10 + Hex(s[2]) else Hex4(s)
    {
      v := v * 0x10 + Hex(s[k]);
      k := k + 1;
    }
  }

  /** The low half of a surrogate pair, in `tc_json_string_copy`. */
  method ReadLow(s: bytes) returns (lo: Option<nat>)
    ensures lo == LowHalf(s)
  {
    hide Hex4, Hex;
    if 6 > |s| || s[0] != BACKSLASH || s[1] != 0x75 {
      return None;
    }
    var k := 0;
    while k < 4
      invariant 0 <= k <= 4 && AllHex(s[2..2 + k])
    {
      if Hex(s[2 + k]) < 0 {
        assert s[2..6][k] == s[2 + k];
        return None;
      }
      assert s[2..3 + k] == s[2..2 + k] + [s[2 + k]];
      k := k + 1;
    }
    var v := ReadHex(s[2..6]);
    return if v < 0xdc00 || v > 0xdfff then None else Some(v);
  }

  /** One turn of the loop in `tc_json_string_copy`. */
  method CopyUnit(b: bytes) returns (rc: Result<(bytes, nat)>)
    requires b != [] && EscapesOk(b)
    ensures rc == ExpandUnit(b)
  {
    hide Hex4, Encode, LowHalf;
    var c := b[0];
    if c != BACKSLASH {
      if c == 0 {
        return Err(Inval);
      }
      return Ok(([c], 1));
    }
    var e := b[1];
    if Simple(e) {
      return Ok(([SimpleValue(e)], 2));
    }
    var cp: int := ReadHex(b[2..6]);
    var used := 6;
    if 0xd800 <= cp <= 0xdbff {
      var lo := ReadLow(b[6..]);
      if lo.None? {
        return Err(Inval);
      }
      used := 12;
      cp := 0x10000 + (cp - 0xd800) * 0x400 + (lo.value - 0xdc00);
    } else if 0xdc00 <= cp <= 0xdfff {
      return Err(Inval);
    }
    if cp == 0 {
      return Err(Inval);
    }
    return Ok((Encode(cp), used));
  }

  /** The first i bytes of b have been expanded to p. */
  ghost predicate Copied(b: bytes, i: nat, p: bytes) {
    i <= |b| && EscapesOk(b) && EscapesOk(b[i..]) && Expand(b) == Prepend(p, Expand(b[i..]))
  }

  lemma CopiedStart(b: bytes)
    requires EscapesOk(b)
    ensures Copied(b, 0, [])
  {
    assert b[0..] == b;
    hide Expand, EscapesOk;
    if Expand(b).Ok? {
      assert [] + Expand(b).value == Expand(b).value;
    }
  }

  lemma CopiedStep(b: bytes, i: nat, p: bytes)
    requires Copied(b, i, p) && i < |b|
    ensures EscapesOk(b[i..])
    ensures var u := ExpandUnit(b[i..]);
            if u.Ok? then Copied(b, i + u.value.1, p + u.value.0) else EscapesOk(b) && Expand(b) == Err(u.error)
  {
    hide ExpandUnit, EscapesOk, Expand;
    var s := b[i..];
    var u := ExpandUnit(s);
    ExpandNext(s);
    if u.Ok? {
      assert s[u.value.1..] == b[i + u.value.1..];
      var rest := Expand(s[u.value.1..]);
      if rest.Ok? {
        assert p + (u.value.0 + rest.value) == (p + u.value.0) + rest.value;
      }
    }
  }

  lemma CopiedEnd(b: bytes, p: bytes)
    requires Copied(b, |b|, p)
    ensures Expand(b) == Ok(p)
  {
    assert b[|b|..] == [];
    assert Expand([]) == Ok([]) && p + [] == p;
  }

  lemma CopiedLong(b: bytes, i: nat, p: bytes)
    requires Copied(b, i, p)
    ensures EscapesOk(b) && (Expand(b).Ok? ==> |Expand(b).value| >= |p|)
  {
    hide Expand, EscapesOk;
  }

  predicate IsText(ev: Event) {
    ev.Key? || ev.Str?
  }

  /** `tc_json_string_copy` into a buffer of out.Length bytes, NUL included; the result is the length. */
  method StringCopy(ev: Event, out: array<u8>) returns (rc: Result<nat>)
    requires IsText(ev) ==> EscapesOk(ev.str)
    modifies out
    ensures rc.Ok? <==> IsText(ev) && Expand(ev.str).Ok? && |Expand(ev.str).value| < out.Length
    ensures rc.Ok? ==> rc.value == |Expand(ev.str).value| && out[rc.value] == 0
    ensures rc.Ok? ==> out[..rc.value] == Expand(ev.str).value
    ensures rc == Err(Inval) ==> out.Length == 0 || !IsText(ev) || Expand(ev.str).Err?
    ensures rc.Err? ==> rc.error in {Inval, NoSpace}
  {
    hide EscapesOk, Expand;
    if out.Length == 0 || !IsText(ev) {
      return Err(Inval);
    }
    rc := CopyText(ev.str, out);
  }

  /** The loop of `tc_json_string_copy`. */
  method CopyText(b: bytes, out: array<u8>) returns (rc: Result<nat>)
    requires EscapesOk(b) && out.Length > 0
    modifies out
    ensures rc.Ok? <==> Expand(b).Ok? && |Expand(b).value| < out.Length
    ensures rc.Ok? ==> rc.value == |Expand(b).value| && out[..rc.value] == Expand(b).value && out[rc.value] == 0
    ensures rc == Err(Inval) ==> Expand(b).Err?
    ensures rc.Err? ==> rc.error in {Inval, NoSpace}
  {
    CopiedStart(b);
    hide EscapesOk, Expand, Copied;
    var n: nat, i: nat := 0, 0;
    assert out[..0] == [];
    while i < |b|
      invariant 0 <= i <= |b| && n < out.Length && Copied(b, i, out[..n])
    {
      var next :- CopyOne(b, i, out, n);
      i, n := next.0, next.1;
    }
    CopiedEnd(b, out[..n]);
    out[n] := 0;
    return Ok(n);
  }

  /** One turn of that loop: the next positions in the slice and in the buffer. */
  method CopyOne(b: bytes, i: nat, out: array<u8>, n: nat) returns (rc: Result<(nat, nat)>)
    requires EscapesOk(b) && i < |b| && n < out.Length && Copied(b, i, out[..n])
    modifies out
    ensures rc.Ok? ==> i < rc.value.0 <= |b| && rc.value.1 < out.Length && Copied(b, rc.value.0, out[..rc.value.1])
    ensures rc.Err? ==> rc.error in {Inval, NoSpace} && (Expand(b).Ok? ==> |Expand(b).value| >= out.Length)
    ensures rc == Err(Inval) ==> Expand(b).Err?
  {
    hide EscapesOk, Expand, ExpandUnit, Copied;
    OnlyInval(b);
    ghost var done := out[..n];
    CopiedStep(b, i, done);
    var u :- CopyUnit(b[i..]);
    if n + |u.0| >= out.Length {
      CopiedLong(b, i + u.1, done + u.0);
      return Err(NoSpace);
    }
    CopyBytes(out, n, u.0);
    return Ok((i + u.1, n + |u.0|));
  }

  lemma {:induction false} OnlyInval(b: bytes)
    requires EscapesOk(b)
    ensures Expand(b).Err? ==> Expand(b).error == Inval
    decreases |b|
  {
    if b != [] {
      UnitOnlyInval(b);
      hide ExpandUnit, EscapesOk;
      if ExpandUnit(b).Ok? {
        ExpandAdvances(b);
        OnlyInval(b[ExpandUnit(b).value.1..]);
      }
    }
  }

  lemma UnitOnlyInval(b: bytes)
    requires b != [] && EscapesOk(b)
    ensures ExpandUnit(b).Err? ==> ExpandUnit(b).error == Inval
  {
    hide Encode, LowHalf, Hex4;
  }

  method CopyBytes(out: array<u8>, n: nat, p: bytes)
    requires n + |p| <= out.Length
    modifies out
    ensures out[..n + |p|] == old(out[..n]) + p
  {
    forall k | 0 <= k < |p| {
      out[n + k] := p[k];
    }
  }

  lemma {:induction false} NoEscapes(b: bytes)
    requires BACKSLASH !in b && 0 !in b
    ensures EscapesOk(b) && Expand(b) == Ok(b)
    decreases |b|
  {
    if b != [] {
      NoEscapes(b[1..]);
      hide Encode;
      assert b == [b[0]] + b[1..];
    }
  }

  /** A name is compared after its escapes are expanded, but an escaped name only up to 255 bytes. */
  method KeyIs(ev: Event, name: bytes) returns (same: bool)
    requires ev.Key? ==> EscapesOk(ev.str) && 0 !in ev.str
    requires 0 !in name
    ensures same <==> ev.Key? && Expand(ev.str) == Ok(name) && (BACKSLASH in ev.str ==> |name| < 256)
  {
    if !ev.Key? {
      return false;
    }
    if BACKSLASH !in ev.str {
      NoEscapes(ev.str);
      hide Expand;
      return |name| == |ev.str| && ev.str == name;
    }
    hide Expand;
    var buf := new u8[256];
    var n := StringCopy(ev, buf);
    if n.Err? {
      return false;
    }
    return buf[..n.value] == name;
  }

  // ---- the escaper ----

  /** The switch of `tc_json_escape` on an ASCII character. */
  method EscapeAsciiOf(c: u8) returns (u: bytes)
    requires c < 0x80
    ensures u == EscapeAscii(c)
  {
    if c == QUOTE || c == BACKSLASH {
      u := [BACKSLASH, c];
    } else if c == 0x0a {
      u := [BACKSLASH, 0x6e];
    } else if c == 0x0d {
      u := [BACKSLASH, 0x72];
    } else if c == 0x09 {
      u := [BACKSLASH, 0x74];
    } else if c >= 0x20 && c != 0x3c && c != 0x3e && c != 0x26 {
      u := [c];
    } else {
      u := [BACKSLASH, 0x75, 0x30, 0x30, HexDigit(c / 0x10), HexDigit(c % 0x10)];
    }
  }

  /** One turn of the loop in `tc_json_escape`. */
  method EscapeNext(s: bytes) returns (u: bytes, n: nat)
    requires s != []
    ensures u == EscapeUnit(s) && n == StepLen(s)
  {
    hide CharLen, CodePoint, EscapeAscii;
    var c := s[0];
    if c < 0x80 {
      Ascii(s);
      u := EscapeAsciiOf(c);
      return u, 1;
    }
    var len, cp := Utf8Len(s);
    if len == 0 {
      return [BACKSLASH, 0x75, 0x66, 0x66, 0x66, 0x64], 1;
    }
    if cp == 0x2028 || cp == 0x2029 {
      return [BACKSLASH, 0x75, 0x32, 0x30, 0x32, HexDigit(cp % 0x10)], len;
    }
    return s[..len], len;
  }

  /** `tc_json_escape`; the result is the length without the NUL. */
  method Escape(out: array<u8>, s: bytes) returns (rc: Result<nat>)
    requires 0 !in s
    modifies out
    ensures rc == if out.Length == 0 then Err(Inval)
                  else if |Escaped(s)| >= out.Length then Err(NoSpace)
                  else Ok(|Escaped(s)|)
    ensures rc.Ok? ==> out[..rc.value] == Escaped(s) && out[rc.value] == 0
  {
    if out.Length == 0 {
      return Err(Inval);
    }
    WrittenStart(s);
    hide EscapeUnit, StepLen, Escaped, Written;
    var w: nat, i: nat := 0, 0;
    assert out[..0] == [];
    while i < |s|
      invariant 0 <= i <= |s| && w < out.Length && Written(s, i, out[..w])
    {
      ghost var done := out[..w];
      var u, n := EscapeNext(s[i..]);
      WrittenStep(s, i, done);
      var fits;
      fits, w := PutUnit(out, w, u);
      if !fits {
        WrittenLong(s, i + n, done + u);
        return Err(NoSpace);
      }
      i := i + n;
    }
    WrittenEnd(s, out[..w]);
    out[w] := 0;
    return Ok(w);
  }

  /** The first i bytes of s have been escaped to p. */
  ghost predicate Written(s: bytes, i: nat, p: bytes) {
    i <= |s| && p + Escaped(s[i..]) == Escaped(s)
  }

  lemma WrittenStart(s: bytes)
    ensures Written(s, 0, [])
  {
    hide Escaped;
    assert s[0..] == s && [] + Escaped(s) == Escaped(s);
  }

  lemma WrittenStep(s: bytes, i: nat, p: bytes)
    requires Written(s, i, p) && i < |s|
    ensures Written(s, i + StepLen(s[i..]), p + EscapeUnit(s[i..]))
  {
    hide EscapeUnit, StepLen;
    var n := StepLen(s[i..]);
    assert s[i..][n..] == s[i + n..];
    assert Escaped(s[i..]) == EscapeUnit(s[i..]) + Escaped(s[i + n..]);
    hide Escaped;
    assert p + (EscapeUnit(s[i..]) + Escaped(s[i + n..])) == (p + EscapeUnit(s[i..])) + Escaped(s[i + n..]);
  }

  lemma WrittenEnd(s: bytes, p: bytes)
    requires Written(s, |s|, p)
    ensures p == Escaped(s)
  {
    assert s[|s|..] == [] && p + [] == p;
  }

  lemma WrittenLong(s: bytes, i: nat, p: bytes)
    requires Written(s, i, p)
    ensures |Escaped(s)| >= |p|
  {
    hide Escaped;
  }

  /** The PUT macros: one byte at a time, while there is room for it and a NUL. */
  method PutUnit(out: array<u8>, w: nat, u: bytes) returns (fits: bool, w': nat)
    requires w < out.Length
    modifies out
    ensures fits <==> w + |u| < out.Length
    ensures fits ==> w' == w + |u| && out[..w'] == old(out[..w]) + u
  {
    w' := w;
    var k := 0;
    while k < |u|
      invariant 0 <= k <= |u| && w' == w + k < out.Length && out[..w'] == old(out[..w]) + u[..k]
    {
      if w' + 1 >= out.Length {
        return false, w';
      }
      out[w'] := u[k];
      w' := w' + 1;
      k := k + 1;
    }
    fits := true;
  }

  /** The scanner lets a lone surrogate escape through; only expanding it fails. */
  lemma LoneSurrogate()
    ensures var b := Unicode(0x64, 0x38, 0x30, 0x30);
            Chars(b) && EscapesOk(b) && Expand(b) == Err(Inval)
  {
    var b := Unicode(0x64, 0x38, 0x30, 0x30);
    assert b[2..6] == [0x64, 0x38, 0x30, 0x30] && b[6..] == [];
    assert Hex4(b[2..6]) == 0xd800;
    assert LowHalf(b[6..]) == None;
  }

  lemma {:induction false} CharsNoNul(b: bytes)
    requires Chars(b)
    ensures 0 !in b
    decreases |b|
  {
    if b != [] {
      CharsNoNul(b[Unit(b)..]);
      UnitNoNul(b);
      hide Unit;
      assert b == b[..Unit(b)] + b[Unit(b)..];
    }
  }

  lemma UnitNoNul(b: bytes)
    requires Unit(b) > 0
    ensures forall i :: 0 <= i < Unit(b) ==> b[i] != 0
  {
    if b[0] == BACKSLASH && Unit(b) == 6 {
      assert b[2..6][0] == b[2] && b[2..6][1] == b[3] && b[2..6][2] == b[4] && b[2..6][3] == b[5];
    }
  }

  lemma TakenText(s: bytes)
    requires TakeString(s).Ok?
    ensures Chars(TakeString(s).value.0)
  {
    StringSound(s[1..]);
    assert s[1..][..StringEnd(s[1..]).value] == TakeString(s).value.0;
  }

  /** Every name and string the reader delivers may be copied and compared. */
  lemma DeliveredText(st: State)
    requires Next(st).Ok? && IsText(Next(st).value.0)
    ensures var b := Next(st).value.0.str; Chars(b) && EscapesOk(b) && 0 !in b
  {
    var b := Next(st).value.0.str;
    var s := DeliveredFrom(st);
    TakenText(s);
    CharsEscapes(b);
    CharsNoNul(b);
  }

  /** The text a delivered name or string was taken from. */
  lemma DeliveredFrom(st: State) returns (s: bytes)
    requires Next(st).Ok? && IsText(Next(st).value.0)
    ensures TakeString(s).Ok? && TakeString(s).value.0 == Next(st).value.0.str
  {
    hide AfterWs, ScanNum, IntegerOf, NumText, TakeString;
    s := AfterWs(st.rest);
    if st.stack != [] {
      var lvl := st.stack[|st.stack| - 1];
      if !st.due {
        s := TakeComma(s, lvl).value;
      }
    }
  }
}
