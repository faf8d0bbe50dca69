/** What a JSON string denotes: its UTF-16 units, and when they are text. */
module JsonUnits {
  import opened Words
  import opened Errors
  import opened Utf8
  import opened JsonText
  import opened JsonEscape

  // ---- UTF-16 ----

  predicate High(u: int) {
    0xd800 <= u <= 0xdbff
  }

  predicate Low(u: int) {
    0xdc00 <= u <= 0xdfff
  }

  /** The scalar a pair of surrogates stands for. */
  function Pair(hi: int, lo: int): int {
    0x10000 + (hi - 0xd800) * 0x400 + (lo - 0xdc00)
  }

  /** A scalar value in one unit or two. */
  function Split(cp: int): seq<int> {
    if cp < 0x10000 then [cp] else [0xd800 + (cp - 0x10000) / 0x400, 0xdc00 + (cp - 0x10000) % 0x400]
  }

  predicate PairedAt(u: seq<int>, i: int)
    requires 0 <= i < |u|
  {
    (High(u[i]) ==> i + 1 < |u| && Low(u[i + 1])) && (Low(u[i]) ==> i > 0 && High(u[i - 1]))
  }

  /** Every surrogate is one of a high-low pair. */
  predicate Paired(u: seq<int>) {
    forall i :: 0 <= i < |u| ==> PairedAt(u, i)
  }

  /** The scalars of units in order, or nothing if a surrogate is alone or a unit is zero. */
  function Scalars(u: seq<int>): Option<seq<int>> {
    if u == [] then Some([])
    else if High(u[0]) then
      if |u| < 2 || !Low(u[1]) || Scalars(u[2..]).None? then None
      else Some([Pair(u[0], u[1])] + Scalars(u[2..]).value)
    else if Low(u[0]) || u[0] == 0 || Scalars(u[1..]).None? then None
    else Some([u[0]] + Scalars(u[1..]).value)
  }

  /** There are scalars exactly when every surrogate is paired and no unit is zero. */
  lemma {:induction false} ScalarsIff(u: seq<int>)
    ensures Scalars(u).Some? <==> Paired(u) && 0 !in u
  {
    if u != [] {
      var n := if High(u[0]) && |u| >= 2 then 2 else 1;
      ScalarsIff(u[n..]);
      assert u == u[..n] + u[n..];
      if Paired(u) {
        PairedRest(u, n);
      } else if Scalars(u).Some? {
        PairedFront(u, n);
      }
    }
  }

  lemma PairedRest(u: seq<int>, n: nat)
    requires Paired(u) && u != [] && n == if High(u[0]) && |u| >= 2 then 2 else 1
    ensures Paired(u[n..]) && PairedAt(u, 0)
  {
    var v := u[n..];
    assert PairedAt(u, 0);
    forall i | 0 <= i < |v| ensures PairedAt(v, i) {
      assert PairedAt(u, n + i);
    }
  }

  lemma PairedFront(u: seq<int>, n: nat)
    requires 1 <= n <= 2 && n <= |u| && Paired(u[n..])
    requires if n == 2 then High(u[0]) && Low(u[1]) else !High(u[0]) && !Low(u[0])
    ensures Paired(u)
  {
    var v := u[n..];
    forall i | n <= i < |u| ensures PairedAt(u, i) {
      assert PairedAt(v, i - n);
    }
  }

  // ---- the units of a slice ----

  /** What the string character at the front of b denotes. */
  function UnitsOf(b: bytes): seq<int>
    requires Unit(b) > 0
  {
    if b[0] != BACKSLASH then Split(CodePoint(b, CharLen(b) - 1))
    else if Simple(b[1]) then [SimpleValue(b[1])]
    else [Hex4(b[2..6])]
  }

  /** What a slice between quotes denotes, by section 7 of RFC 8259. */
  function Units(b: bytes): seq<int>
    requires Chars(b)
    decreases |b|
  {
    if b == [] then [] else UnitsOf(b) + Units(b[Unit(b)..])
  }

  /** Scalars as UTF-8. */
  function Utf8Of(cs: seq<int>): bytes
    requires forall i :: 0 <= i < |cs| ==> Scalar(cs[i])
  {
    if cs == [] then [] else Encode(cs[0]) + Utf8Of(cs[1..])
  }

  predicate Text(cs: seq<int>) {
    forall i :: 0 <= i < |cs| ==> Scalar(cs[i]) && cs[i] != 0
  }

  predicate IsUnit(u: int) {
    0 <= u <= 0xffff
  }

  lemma {:induction false} ScalarsText(u: seq<int>)
    requires Scalars(u).Some? && forall i :: 0 <= i < |u| ==> IsUnit(u[i])
    ensures Text(Scalars(u).value)
  {
    if u != [] {
      ScalarsText(u[if High(u[0]) then 2 else 1..]);
    }
  }

  lemma {:induction false} UnitsFit(b: bytes)
    requires Chars(b)
    ensures forall i :: 0 <= i < |Units(b)| ==> IsUnit(Units(b)[i])
    decreases |b|
  {
    if b != [] {
      UnitsFit(b[Unit(b)..]);
      FrontFits(b);
    }
  }

  lemma FrontFits(b: bytes)
    requires Unit(b) > 0
    ensures forall i :: 0 <= i < |UnitsOf(b)| ==> IsUnit(UnitsOf(b)[i])
  {
    if b[0] != BACKSLASH {
      DecodeEncodes(b);
      hide CodePoint;
    }
  }

  // ---- UTF-8 of scalars ----

  lemma EncodeNoNul(cp: int)
    requires Scalar(cp) && cp != 0
    ensures 0 !in Encode(cp)
  {
  }

  /** The UTF-8 of text is well formed and has no NUL. */
  lemma {:induction false} Utf8OfText(cs: seq<int>)
    requires Text(cs)
    ensures WellFormed(Utf8Of(cs)) && 0 !in Utf8Of(cs)
  {
    if cs != [] {
      Utf8OfText(cs[1..]);
      var e, rest := Encode(cs[0]), Utf8Of(cs[1..]);
      EncodeDecodes(cs[0], rest);
      EncodeNoNul(cs[0]);
      hide Encode, CharLen, CodePoint;
      assert (e + rest)[|e|..] == rest;
    }
  }

  // ---- expanding gives the scalars ----

  /** What expanding should come to. */
  function Denoted(u: seq<int>): (r: Result<bytes>)
    requires forall i :: 0 <= i < |u| ==> IsUnit(u[i])
  {
    if Scalars(u).None? then Err(Inval) else ScalarsText(u); Ok(Utf8Of(Scalars(u).value))
  }

  /** One unescaped character. */
  lemma PlainExpands(b: bytes)
    requires b != [] && Chars(b) && b[0] != BACKSLASH && EscapesOk(b[Unit(b)..])
    ensures EscapesOk(b) && Expand(b) == Prepend(Encode(CodePoint(b, CharLen(b) - 1)), Expand(b[Unit(b)..]))
  {
    var n := Unit(b);
    CharNoBackslash(b);
    CharNoNul(b);
    DecodeEncodes(b);
    hide CharLen, CodePoint, Encode, EscapesOk, Expand;
    assert b == b[..n] + b[n..];
    CopiedBytes(b[..n], b[n..]);
  }

  lemma CharNoNul(s: bytes)
    requires CharLen(s) > 0 && s[0] != 0
    ensures forall i :: 0 <= i < CharLen(s) ==> s[i] != 0
    ensures CodePoint(s, CharLen(s) - 1) != 0
  {
    hide CodePoint;
    DecodeEncodes(s);
  }

  lemma SplitScalars(cp: int, u: seq<int>)
    requires Scalar(cp) && cp != 0
    ensures Scalars(Split(cp) + u) == if Scalars(u).None? then None else Some([cp] + Scalars(u).value)
  {
    var v := Split(cp) + u;
    if cp >= 0x10000 {
      SplitPairs(cp);
      hide Split, Pair;
      assert v[2..] == u && v[0] == Split(cp)[0] && v[1] == Split(cp)[1];
    } else {
      assert v[1..] == u && v[0] == cp;
    }
  }

  lemma SplitPairs(cp: int)
    requires 0x10000 <= cp <= 0x10ffff
    ensures var s := Split(cp); |s| == 2 && High(s[0]) && Low(s[1]) && Pair(s[0], s[1]) == cp
  {
    var d := cp - 0x10000;
    assert d == d / 0x400 * 0x400 + d % 0x400;
  }

  /** The units of a slice come to what expanding it comes to. */
  ghost predicate Agrees(b: bytes) {
    && Chars(b) && EscapesOk(b) && (forall i :: 0 <= i < |Units(b)| ==> IsUnit(Units(b)[i]))
    && Expand(b) == Denoted(Units(b))
  }

  lemma DenotedStep(cp: int, u: seq<int>)
    requires Scalar(cp) && cp != 0 && forall i :: 0 <= i < |u| ==> IsUnit(u[i])
    ensures forall i :: 0 <= i < |Split(cp) + u| ==> IsUnit((Split(cp) + u)[i])
    ensures Denoted(Split(cp) + u) == Prepend(Encode(cp), Denoted(u))
  {
    SplitScalars(cp, u);
    hide Encode, Scalars, Text;
    if Scalars(u).Some? {
      ScalarsText(u);
      assert ([cp] + Scalars(u).value)[1..] == Scalars(u).value;
    }
  }

  /** A step of n bytes that denotes the scalar cp and expands to it. */
  lemma StepAgrees(b: bytes, n: nat, cp: int)
    requires b != [] && Chars(b) && EscapesOk(b) && 1 <= n <= |b| && Agrees(b[n..]) && Scalar(cp) && cp != 0
    requires Units(b) == Split(cp) + Units(b[n..]) && Expand(b) == Prepend(Encode(cp), Expand(b[n..]))
    ensures Agrees(b)
  {
    hide Chars, EscapesOk, Units, Expand, Encode, Split, Denoted;
    DenotedStep(cp, Units(b[n..]));
  }

  lemma PlainAgrees(b: bytes)
    requires b != [] && Chars(b) && b[0] != BACKSLASH && Agrees(b[Unit(b)..])
    ensures Agrees(b)
  {
    var cp := CodePoint(b, CharLen(b) - 1);
    assert Scalar(cp) && cp != 0 && Units(b) == Split(cp) + Units(b[Unit(b)..]) by {
      DecodeEncodes(b);
      CharNoNul(b);
      hide CodePoint, CharLen, Encode;
    }
    hide CodePoint, CharLen, Encode, EscapesOk, Expand, Units, Split, Agrees;
    RestAgrees(b[Unit(b)..]);
    PlainExpands(b);
    StepAgrees(b, Unit(b), cp);
  }

  lemma RestAgrees(b: bytes)
    requires Agrees(b)
    ensures Chars(b) && EscapesOk(b)
  {
  }

  lemma SimpleAgrees(b: bytes)
    requires b != [] && Chars(b) && EscapesOk(b) && b[0] == BACKSLASH && Simple(b[1]) && Agrees(b[2..])
    ensures Agrees(b)
  {
    var c := SimpleValue(b[1]);
    assert Encode(c) == [c] && Split(c) == [c];
    assert Units(b) == [c] + Units(b[2..]);
    assert ExpandUnit(b) == Ok(([c], 2));
    hide Encode, EscapesOk, Expand, ExpandUnit, Units, Split, Agrees;
    ExpandNext(b);
    StepAgrees(b, 2, c);
  }

  /** A \u escape at the front of b. */
  predicate Escape(b: bytes) {
    b != [] && Chars(b) && EscapesOk(b) && b[0] == BACKSLASH && !Simple(b[1])
  }

  lemma EscapeFront(b: bytes)
    requires Escape(b)
    ensures |b| >= 6 && AllHex(b[2..6]) && Unit(b) == 6 && Chars(b[6..]) && EscapesOk(b[6..])
    ensures Units(b) == [Hex4(b[2..6])] + Units(b[6..])
    ensures var u := UnicodeEscape(b);
            ExpandUnit(b) == if u.Ok? then Ok((Encode(u.value.0), u.value.1)) else Err(u.error)
  {
    hide Hex4, AllHex, Encode, CodePoint, CharLen;
  }

  /** Only a \u escape denotes a low surrogate first. */
  lemma FirstLow(b: bytes)
    requires Chars(b) && EscapesOk(b) && Units(b) != [] && Low(Units(b)[0])
    ensures LowHalf(b).Some? && LowHalf(b).value == Units(b)[0] && Escape(b)
  {
    hide Hex4, AllHex, EscapesOk, Encode, CodePoint, CharLen, Scalar;
    if b[0] != BACKSLASH {
      NotLow(b);
      assert false;
    }
  }

  lemma NotLow(b: bytes)
    requires Unit(b) > 0 && b[0] != BACKSLASH
    ensures UnitsOf(b) != [] && !Low(UnitsOf(b)[0])
  {
    DecodeEncodes(b);
    hide Encode, CodePoint, CharLen;
  }

  lemma LowFront(b: bytes)
    requires Chars(b) && EscapesOk(b) && LowHalf(b).Some?
    ensures Escape(b) && Units(b) == [LowHalf(b).value] + Units(b[6..])
  {
    hide Hex4, AllHex, Encode, CodePoint, CharLen;
  }

  lemma SingleAgrees(b: bytes)
    requires Escape(b) && !High(Hex4(b[2..6])) && Agrees(b[6..])
    ensures Agrees(b)
  {
    var cp := Hex4(b[2..6]);
    hide Hex4, Encode, Expand, ExpandUnit, EscapesOk, Units, Agrees, Chars;
    EscapeFront(b);
    ExpandNext(b);
    if Low(cp) || cp == 0 {
      FailsAgrees(b);
    } else {
      StepAgrees(b, 6, cp);
    }
  }

  lemma FailsAgrees(b: bytes)
    requires Chars(b) && EscapesOk(b) && Expand(b) == Err(Inval) && Scalars(Units(b)).None?
    ensures Agrees(b)
  {
    hide Chars, EscapesOk, Expand, Scalars, Units;
    UnitsFit(b);
  }

  lemma PairAgrees(b: bytes)
    requires Escape(b) && High(Hex4(b[2..6])) && LowHalf(b[6..]).Some? && |b| >= 12 && Agrees(b[12..])
    ensures Agrees(b)
  {
    hide Hex4, AllHex, Encode, Expand, ExpandUnit, EscapesOk, Units, Agrees, Chars, LowHalf, Split;
    EscapeFront(b);
    var hi, lo := Hex4(b[2..6]), LowHalf(b[6..]).value;
    var cp := Pair(hi, lo);
    RestAgrees(b[12..]);
    LowFront(b[6..]);
    ExpandNext(b);
    assert b[6..][6..] == b[12..];
    PairSplits(hi, lo);
    assert [hi] + ([lo] + Units(b[12..])) == Split(cp) + Units(b[12..]);
    StepAgrees(b, 12, cp);
  }

  lemma PairSplits(hi: int, lo: int)
    requires High(hi) && Low(lo)
    ensures Split(Pair(hi, lo)) == [hi, lo] && Scalar(Pair(hi, lo)) && Pair(hi, lo) >= 0x10000
  {
    var d := (hi - 0xd800) * 0x400 + (lo - 0xdc00);
    DivModUnique(d, 0x400, hi - 0xd800, lo - 0xdc00);
  }

  lemma AloneAgrees(b: bytes)
    requires Escape(b) && High(Hex4(b[2..6])) && LowHalf(b[6..]).None?
    ensures Agrees(b)
  {
    var hi, r := Hex4(b[2..6]), b[6..];
    hide Hex4, AllHex, Encode, Expand, ExpandUnit, EscapesOk, Units, Agrees, Chars, LowHalf;
    EscapeFront(b);
    ExpandNext(b);
    assert Units(r) == [] || !Low(Units(r)[0]) by {
      if Units(r) != [] && Low(Units(r)[0]) {
        FirstLow(r);
      }
    }
    FailsAgrees(b);
  }

  /** Expanding any string the scanner accepts gives the text its UTF-16 units denote, if they denote any. */
  lemma {:induction false} ExpandDenotes(b: bytes)
    requires Chars(b)
    ensures Agrees(b)
    decreases |b|
  {
    CharsEscapes(b);
    if b == [] {
    } else {
      ExpandDenotes(b[Unit(b)..]);
      hide Hex4, AllHex, EscapesOk, Agrees, LowHalf, CharLen;
      if b[0] != BACKSLASH {
        PlainAgrees(b);
      } else if Simple(b[1]) {
        SimpleAgrees(b);
      } else {
        assert Unit(b) == 6;
        if !High(Hex4(b[2..6])) {
          SingleAgrees(b);
        } else if LowHalf(b[6..]).None? {
          AloneAgrees(b);
        } else {
          assert Escape(b[6..]) by {
            CharsEscapes(b[6..]);
            LowFront(b[6..]);
          }
          EscapeFront(b[6..]);
          assert b[6..][6..] == b[12..];
          ExpandDenotes(b[12..]);
          PairAgrees(b);
        }
      }
    }
  }

  /**
   * A string the scanner accepts can be copied exactly when each surrogate escape is half of a pair and none
   * stands for NUL; what is copied is then the UTF-8 of its scalars, well formed and without NUL.
   */
  lemma ExpandIff(b: bytes)
    requires Chars(b)
    ensures EscapesOk(b)
    ensures Expand(b).Ok? <==> Paired(Units(b)) && 0 !in Units(b)
    ensures Expand(b).Ok? ==> var cs := Scalars(Units(b));
                              && cs.Some? && Text(cs.value) && Expand(b).value == Utf8Of(cs.value)
                              && WellFormed(Expand(b).value) && 0 !in Expand(b).value
  {
    ExpandDenotes(b);
    hide EscapesOk, Expand, Units, Scalars, Paired, WellFormed, Chars;
    ScalarsIff(Units(b));
    if Scalars(Units(b)).Some? {
      ScalarsText(Units(b));
      Utf8OfText(Scalars(Units(b)).value);
    }
  }
}
