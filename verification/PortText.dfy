/** Port lists as text: `22, 80, 8000-8999`. */
module PortText {
  import opened Words
  import opened Errors
  import opened Numerals
  import opened PortSet

  const SPACE: u8 := 0x20
  const COMMA: u8 := 0x2c
  const DASH: u8 := 0x2d

  // ---- reading ----

  predicate Digit(c: u8) {
    0x30 <= c <= 0x39
  }

  /** Digits after a number read so far; a number is refused as soon as it passes 65535. */
  function NumberFrom(v: nat, s: bytes): (r: Result<nat>)
    ensures r.Ok? ==> r.value <= MAX || s == []
    decreases |s|
  {
    if s == [] then Ok(v)
    else if !Digit(s[0]) then Err(Inval)
    else
      var v' := v * 10 + (s[0] as int - 0x30);
      if v' > MAX then Err(Range) else NumberFrom(v', s[1..])
  }

  /** A port number: not empty, not zero. */
  function PortNumber(s: bytes): (r: Result<nat>)
    ensures r.Ok? ==> 1 <= r.value <= MAX
  {
    if s == [] then Err(Inval)
    else
      var v :- NumberFrom(0, s);
      if v == 0 then Err(Inval) else Ok(v)
  }

  predicate Blank(c: u8) {
    c == SPACE || c == 0x09
  }

  function SkipBlanks(s: bytes): bytes {
    if s != [] && Blank(s[0]) then SkipBlanks(s[1..]) else s
  }

  function TrimEnd(s: bytes): bytes {
    if s != [] && Blank(s[|s| - 1]) then TrimEnd(s[..|s| - 1]) else s
  }

  const ALL: bytes := [0x61, 0x6c, 0x6c]

  /** ssh, no-auth-ssh, files, exec, exit-node */
  const SERVICES: seq<bytes> :=
    [[0x73, 0x73, 0x68],
     [0x6e, 0x6f, 0x2d, 0x61, 0x75, 0x74, 0x68, 0x2d, 0x73, 0x73, 0x68],
     [0x66, 0x69, 0x6c, 0x65, 0x73],
     [0x65, 0x78, 0x65, 0x63],
     [0x65, 0x78, 0x69, 0x74, 0x2d, 0x6e, 0x6f, 0x64, 0x65]]

  /** The first c in s at position i or later; |s| when there is none. */
  function Find(s: bytes, c: u8, i: nat): (k: nat)
    requires i <= |s|
    ensures i <= k <= |s| && (k < |s| ==> s[k] == c) && forall j :: i <= j < k ==> s[j] != c
    decreases |s| - i
  {
    if i == |s| || s[i] == c then i else Find(s, c, i + 1)
  }

  function Ordered(a: int, b: int): set<int> {
    Span(if a < b then a else b, if a < b then b else a)
  }

  /** The ports one trimmed entry names. */
  function Entry(a: bytes): Result<set<int>> {
    if a == [] then Err(Inval)
    else if a == ALL then Ok(Span(1, MAX))
    else if a in SERVICES then Err(Unsupported)
    else
      var dash := Find(a, DASH, 1);
      if dash < |a| then
        var lo :- PortNumber(a[..dash]);
        var hi :- PortNumber(a[dash + 1..]);
        Ok(Ordered(lo, hi))
      else
        var v :- PortNumber(a);
        Ok({v})
  }

  /** The ports added before the end or the first error. */
  datatype Parsed = Parsed(ports: set<int>, error: Option<Error>)

  /** A list: entries between commas, each trimmed. */
  function ParseList(s: bytes): Parsed
    decreases |s|
  {
    var comma := Find(s, COMMA, 0);
    match Entry(TrimEnd(SkipBlanks(s[..comma])))
    case Err(e) => Parsed({}, Some(e))
    case Ok(ports) =>
      if comma == |s| then Parsed(ports, None)
      else
        var more := ParseList(s[comma + 1..]);
        Parsed(ports + more.ports, more.error)
  }

  // ---- printing ----

  /** The last port of the run that p belongs to. */
  function RunEnd(ports: set<int>, p: nat): (q: nat)
    requires p <= MAX
    ensures p <= q <= MAX
    decreases MAX - p
  {
    if p < MAX && p + 1 in ports then RunEnd(ports, p + 1) else p
  }

  datatype Stretch = Stretch(lo: nat, hi: nat)

  /** The maximal runs at p and above, in order. */
  function RunsFrom(ports: set<int>, p: nat): seq<Stretch>
    decreases MAX + 1 - p
  {
    if p > MAX then []
    else if p !in ports then RunsFrom(ports, p + 1)
    else [Stretch(p, RunEnd(ports, p))] + RunsFrom(ports, RunEnd(ports, p) + 1)
  }

  function Runs(ports: set<int>): seq<Stretch> {
    RunsFrom(ports, 1)
  }

  function StretchText(r: Stretch): bytes {
    if r.lo == r.hi then Digits(r.lo) else Digits(r.lo) + [DASH] + Digits(r.hi)
  }

  const SEPARATOR: bytes := [COMMA, SPACE]

  function RunsText(rs: seq<Stretch>): bytes {
    if rs == [] then []
    else if |rs| == 1 then StretchText(rs[0])
    else RunsText(rs[..|rs| - 1]) + (SEPARATOR + StretchText(rs[|rs| - 1]))
  }

  const NO_PORTS: bytes := [0x6e, 0x6f, 0x20, 0x70, 0x6f, 0x72, 0x74, 0x73]
  const ALL_PORTS: bytes := [0x31, 0x2d, 0x36, 0x35, 0x35, 0x33, 0x35, 0x20, 0x28, 0x61, 0x6c, 0x6c, 0x29]
  const MORE: bytes := [COMMA, SPACE, 0x2e, 0x2e, 0x2e]
  const SHOWN: nat := 8

  predicate PortsOnly(ports: set<int>) {
    ports <= Span(1, MAX)
  }

  /** What is printed for a set. */
  function Description(ports: set<int>): bytes {
    if ports == {} then NO_PORTS
    else if ports == Span(1, MAX) then ALL_PORTS
    else if |Runs(ports)| <= SHOWN then RunsText(Runs(ports))
    else RunsText(Runs(ports)[..SHOWN]) + MORE
  }

  /** The part of a description that has to fit: the runs, while the fixed texts may be cut short. */
  function Firm(ports: set<int>): bytes {
    if ports == {} || ports == Span(1, MAX) then []
    else RunsText(if |Runs(ports)| <= SHOWN then Runs(ports) else Runs(ports)[..SHOWN])
  }

  // ---- reading what was printed ----

  lemma {:induction false} NumberJoin(v: nat, s: bytes, t: bytes)
    requires NumberFrom(v, s).Ok?
    ensures NumberFrom(v, s + t) == NumberFrom(NumberFrom(v, s).value, t)
    decreases |s|
  {
    if s == [] {
      assert s + t == t;
    } else {
      var v' := v * 10 + (s[0] as int - 0x30);
      NumberJoin(v', s[1..], t);
      assert (s + t)[1..] == s[1..] + t;
    }
  }

  lemma {:induction false} NumberOfDigits(v: nat)
    requires v <= MAX
    ensures NumberFrom(0, Digits(v)) == Ok(v) && Digits(v) != []
    ensures forall i :: 0 <= i < |Digits(v)| ==> Digit(Digits(v)[i])
  {
    if v < 10 {
      assert Digits(v)[1..] == [];
    } else {
      NumberOfDigits(v / 10);
      var d: bytes := [0x30 + v % 10];
      NumberJoin(0, Digits(v / 10), d);
      assert d[1..] == [];
      assert v == v / 10 * 10 + v % 10;
    }
  }

  // ---- what a numeral and a list mean ----

  predicate AllDigits(s: bytes) {
    forall i :: 0 <= i < |s| ==> Digit(s[i])
  }

  /** The value of a decimal numeral. */
  function Decimal(s: bytes): nat
    requires AllDigits(s)
  {
    if s == [] then 0 else Decimal(s[..|s| - 1]) * 10 + (s[|s| - 1] as int - 0x30)
  }

  /** How many digits there are at the front. */
  function DigitRun(s: bytes): (k: nat)
    ensures k <= |s| && AllDigits(s[..k]) && (k < |s| ==> !Digit(s[k]))
  {
    if s == [] || !Digit(s[0]) then 0
    else
      var k := DigitRun(s[1..]);
      assert s[..k + 1] == [s[0]] + s[1..][..k];
      k + 1
  }

  lemma {:induction false} NumberFails(v: nat, s: bytes, t: bytes)
    requires NumberFrom(v, s).Err?
    ensures NumberFrom(v, s + t) == NumberFrom(v, s)
    decreases |s|
  {
    if Digit(s[0]) {
      var v' := v * 10 + (s[0] as int - 0x30);
      assert (s + t)[1..] == s[1..] + t;
      if v' <= MAX {
        NumberFails(v', s[1..], t);
      }
    }
  }

  lemma {:induction false} NumberIsDecimal(s: bytes)
    requires AllDigits(s)
    ensures NumberFrom(0, s) == if Decimal(s) <= MAX then Ok(Decimal(s)) else Err(Range)
  {
    if s != [] {
      var front, last := s[..|s| - 1], [s[|s| - 1]];
      NumberIsDecimal(front);
      assert s == front + last && last[1..] == [];
      if Decimal(front) <= MAX {
        NumberJoin(0, front, last);
      } else {
        NumberFails(0, front, last);
      }
    }
  }

  /** A port number is read exactly from a numeral worth 1 to 65535; too large a run of digits is out of range. */
  lemma PortNumberIff(s: bytes)
    ensures PortNumber(s) == var p := s[..DigitRun(s)];
                             if Decimal(p) > MAX then Err(Range)
                             else if p != s || Decimal(p) == 0 then Err(Inval)
                             else Ok(Decimal(p))
    ensures PortNumber(s).Ok? <==> s != [] && AllDigits(s) && 1 <= Decimal(s) <= MAX
  {
    hide Decimal, NumberFrom, DigitRun;
    var k := DigitRun(s);
    var p, t := s[..k], s[k..];
    assert s == p + t && (AllDigits(s) <==> k == |s|) && (k == |s| <==> p == s);
    NumberIsDecimal(p);
    if Decimal(p) <= MAX {
      NumberJoin(0, p, t);
      NumberStops(Decimal(p), t);
    } else {
      NumberFails(0, p, t);
    }
    EmptyIsZero(p);
  }

  lemma NumberStops(v: nat, t: bytes)
    requires t == [] || !Digit(t[0])
    ensures NumberFrom(v, t) == if t == [] then Ok(v) else Err(Inval)
  {
  }

  lemma EmptyIsZero(p: bytes)
    requires AllDigits(p)
    ensures Decimal(p) > 0 ==> p != []
  {
  }

  /** Text between commas. */
  function Pieces(s: bytes): (ps: seq<bytes>)
    ensures |ps| > 0 && forall i :: 0 <= i < |ps| ==> COMMA !in ps[i]
    decreases |s|
  {
    var comma := Find(s, COMMA, 0);
    if comma == |s| then [s] else [s[..comma]] + Pieces(s[comma + 1..])
  }

  function Commas(ps: seq<bytes>): bytes
    requires |ps| > 0
  {
    if |ps| == 1 then ps[0] else ps[0] + [COMMA] + Commas(ps[1..])
  }

  /** What the piece means once it is trimmed. */
  function Piece(p: bytes): Result<set<int>> {
    Entry(TrimEnd(SkipBlanks(p)))
  }

  /** The ports of the first n pieces. */
  function Named(ps: seq<bytes>, n: nat): set<int>
    requires n <= |ps| && forall i :: 0 <= i < n ==> Piece(ps[i]).Ok?
  {
    if n == 0 then {} else Named(ps, n - 1) + Piece(ps[n - 1]).value
  }

  lemma {:induction false} NamedTail(ps: seq<bytes>, n: nat)
    requires 0 < n <= |ps| && forall i :: 0 <= i < n ==> Piece(ps[i]).Ok?
    ensures forall i :: 0 <= i < n - 1 ==> Piece(ps[1..][i]).Ok?
    ensures Named(ps, n) == Piece(ps[0]).value + Named(ps[1..], n - 1)
  {
    hide Piece;
    if n > 1 {
      NamedTail(ps, n - 1);
    }
  }

  /** How many pieces there are before the first bad one. */
  function Good(ps: seq<bytes>): (n: nat)
    ensures n <= |ps| && (forall i :: 0 <= i < n ==> Piece(ps[i]).Ok?) && (n < |ps| ==> Piece(ps[n]).Err?)
  {
    if ps == [] || Piece(ps[0]).Err? then 0 else 1 + Good(ps[1..])
  }

  lemma MorePieces(p: bytes, qs: seq<bytes>)
    requires qs != []
    ensures var ps := [p] + qs;
            && Commas(ps) == p + [COMMA] + Commas(qs)
            && Good(ps) == (if Piece(p).Ok? then 1 + Good(qs) else 0)
            && Named(ps, Good(ps)) == if Piece(p).Ok? then Piece(p).value + Named(qs, Good(qs)) else {}
  {
    hide Piece;
    var ps := [p] + qs;
    assert ps[1..] == qs;
    if Piece(p).Ok? {
      NamedTail(ps, Good(ps));
    }
  }

  lemma OnePiece(p: bytes)
    ensures Commas([p]) == p && Good([p]) == (if Piece(p).Ok? then 1 else 0)
    ensures Named([p], Good([p])) == if Piece(p).Ok? then Piece(p).value else {}
  {
    hide Piece;
    if Piece(p).Ok? {
      assert Named([p], 1) == Named([p], 0) + Piece(p).value;
    }
  }

  lemma PiecesNext(s: bytes)
    ensures var comma := Find(s, COMMA, 0);
            Pieces(s) == if comma == |s| then [s] else [s[..comma]] + Pieces(s[comma + 1..])
  {
    hide Find;
  }

  /** A list fails at its first bad piece with that piece's error, and has added exactly the pieces before it. */
  lemma {:induction false} ListMeaning(s: bytes)
    ensures var ps := Pieces(s);
            var n := Good(ps);
            && Commas(ps) == s && ParseList(s).ports == Named(ps, n)
            && (ParseList(s).error == if n == |ps| then None else Some(Piece(ps[n]).error))
    decreases |s|
  {
    hide Entry, TrimEnd, SkipBlanks, Find, ParseList, Pieces, Commas, Good, Named;
    ParseNext(s);
    PiecesNext(s);
    var comma := Find(s, COMMA, 0);
    var p := s[..comma];
    if comma == |s| {
      assert p == s;
      OnePiece(p);
    } else {
      ListMeaning(s[comma + 1..]);
      MorePieces(p, Pieces(s[comma + 1..]));
      assert s == p + [COMMA] + s[comma + 1..];
    }
  }

  lemma PortOfDigits(v: nat)
    requires 1 <= v <= MAX
    ensures PortNumber(Digits(v)) == Ok(v)
  {
    NumberOfDigits(v);
    hide NumberFrom, Digits;
  }

  predicate StretchOk(r: Stretch) {
    1 <= r.lo <= r.hi <= MAX
  }

  lemma {:induction false} FindFirst(a: bytes, c: u8, b: bytes, i: nat)
    requires i <= |a| && forall j :: i <= j < |a| ==> a[j] != c
    requires b == [] || b[0] == c
    ensures Find(a + b, c, i) == |a|
    decreases |a| - i
  {
    if i < |a| {
      FindFirst(a, c, b, i + 1);
    }
  }

  /** No comma, no blanks at the ends, and it begins with a digit. */
  lemma StretchShape(r: Stretch)
    requires StretchOk(r)
    ensures var t := StretchText(r);
            && t != [] && Digit(t[0]) && !Blank(t[|t| - 1])
            && forall i :: 0 <= i < |t| ==> t[i] != COMMA
  {
    NumberOfDigits(r.lo);
    NumberOfDigits(r.hi);
    hide Digits, NumberFrom;
    var t := StretchText(r);
    if r.lo != r.hi {
      assert t[|t| - 1] == Digits(r.hi)[|Digits(r.hi)| - 1];
    }
  }

  /** A printed run reads as its ports. */
  lemma StretchEntry(r: Stretch)
    requires StretchOk(r)
    ensures Entry(StretchText(r)) == Ok(Span(r.lo, r.hi))
  {
    StretchShape(r);
    NumberOfDigits(r.lo);
    NumberOfDigits(r.hi);
    PortOfDigits(r.lo);
    PortOfDigits(r.hi);
    hide Digits, NumberFrom, PortNumber;
    var t, lo, hi := StretchText(r), Digits(r.lo), Digits(r.hi);
    NotAWord(t);
    if r.lo == r.hi {
      FindFirst(lo, DASH, [], 1);
      assert lo + [] == lo;
      assert Span(r.lo, r.lo) == {r.lo} by {
        assert forall p :: p in Span(r.lo, r.lo) <==> Inside(p, r.lo, r.lo);
      }
    } else {
      assert t == lo + ([DASH] + hi);
      FindFirst(lo, DASH, [DASH] + hi, 1);
      assert t[..|lo|] == lo && t[|lo| + 1..] == hi;
    }
  }

  lemma NotAWord(t: bytes)
    requires t != [] && Digit(t[0])
    ensures t != ALL && t !in SERVICES
  {
  }

  lemma {:induction false} RunsTextFirst(rs: seq<Stretch>)
    requires |rs| >= 2
    ensures RunsText(rs) == StretchText(rs[0]) + (SEPARATOR + RunsText(rs[1..]))
  {
    hide StretchText;
    var front, last := rs[..|rs| - 1], rs[|rs| - 1];
    if |rs| == 2 {
      assert rs[1..] == [last] && front == [rs[0]];
    } else {
      RunsTextFirst(front);
      assert rs[1..][..|rs| - 2] == front[1..];
      assert RunsText(rs[1..]) == RunsText(front[1..]) + (SEPARATOR + StretchText(last));
    }
  }

  function Union(rs: seq<Stretch>): set<int> {
    if rs == [] then {} else Span(rs[0].lo, rs[0].hi) + Union(rs[1..])
  }

  lemma Trimmed(sp: bytes, t: bytes)
    requires sp == [] || sp == [SPACE]
    requires t != [] && !Blank(t[0]) && !Blank(t[|t| - 1])
    ensures TrimEnd(SkipBlanks(sp + t)) == t
  {
    assert sp == [] ==> sp + t == t;
    assert sp == [SPACE] ==> (sp + t)[1..] == t;
  }

  lemma ParseNext(s: bytes)
    ensures var comma := Find(s, COMMA, 0);
            var e := Entry(TrimEnd(SkipBlanks(s[..comma])));
            ParseList(s) == if e.Err? then Parsed({}, Some(e.error))
                            else if comma == |s| then Parsed(e.value, None)
                            else Parsed(e.value + ParseList(s[comma + 1..]).ports, ParseList(s[comma + 1..]).error)
  {
    hide Entry, TrimEnd, SkipBlanks, Find;
  }

  /** The first entry of a list whose text is at hand. */
  lemma FirstEntry(sp: bytes, r: Stretch, rest: bytes)
    requires (sp == [] || sp == [SPACE]) && StretchOk(r) && (rest == [] || rest[0] == COMMA)
    ensures ParseList(sp + StretchText(r) + rest)
         == if rest == [] then Parsed(Span(r.lo, r.hi), None)
            else Parsed(Span(r.lo, r.hi) + ParseList(rest[1..]).ports, ParseList(rest[1..]).error)
  {
    hide StretchText, Entry, Span, ParseList, TrimEnd, SkipBlanks, Find;
    StretchShape(r);
    StretchEntry(r);
    var a, s := sp + StretchText(r), sp + StretchText(r) + rest;
    FindFirst(a, COMMA, rest, 0);
    Trimmed(sp, StretchText(r));
    assert s[..|a|] == a;
    ParseNext(s);
    if rest != [] {
      assert s[|a| + 1..] == rest[1..];
    }
  }

  predicate AllOk(rs: seq<Stretch>) {
    forall i :: 0 <= i < |rs| ==> StretchOk(rs[i])
  }

  function Ellipsis(more: bool): bytes {
    if more then MORE else []
  }

  /** Printed runs read back as their ports; an ellipsis after them is an error, once they have been added. */
  lemma {:induction false} ListRoundTrip(sp: bytes, rs: seq<Stretch>, more: bool)
    requires (sp == [] || sp == [SPACE]) && rs != [] && AllOk(rs)
    ensures ParseList(sp + RunsText(rs) + Ellipsis(more)) == Parsed(Union(rs), if more then Some(Inval) else None)
    decreases |rs|
  {
    hide StretchText, StretchOk, Span, ParseList, RunsText;
    var first, end := rs[0], Ellipsis(more);
    if |rs| == 1 {
      OneRun(rs);
      FirstEntry(sp, first, end);
      if more {
        assert end[1..] == [SPACE, 0x2e, 0x2e, 0x2e];
        Dots();
      }
    } else {
      RunsTextFirst(rs);
      ListRoundTrip([SPACE], rs[1..], more);
      var after := [SPACE] + RunsText(rs[1..]) + end;
      var rest := [COMMA] + after;
      assert SEPARATOR + RunsText(rs[1..]) + end == rest;
      assert sp + RunsText(rs) + end == sp + StretchText(first) + rest;
      FirstEntry(sp, first, rest);
      assert rest[1..] == after;
    }
  }

  lemma OneRun(rs: seq<Stretch>)
    requires |rs| == 1
    ensures RunsText(rs) == StretchText(rs[0]) && Union(rs) == Span(rs[0].lo, rs[0].hi)
  {
    assert rs[1..] == [];
  }

  lemma Dots()
    ensures ParseList([SPACE, 0x2e, 0x2e, 0x2e]) == Parsed({}, Some(Inval))
  {
    var s: bytes, t: bytes := [SPACE, 0x2e, 0x2e, 0x2e], [0x2e, 0x2e, 0x2e];
    FindFirst(s, COMMA, [], 0);
    assert s + [] == s && s[..4] == s;
    Trimmed([SPACE], t);
    assert [SPACE] + t == s;
    FindFirst(t, DASH, [], 1);
    assert t + [] == t;
  }

  // ---- the runs of a set ----

  lemma {:induction false} RunInside(ports: set<int>, p: nat)
    requires p in ports && p <= MAX
    ensures Span(p, RunEnd(ports, p)) <= ports
    ensures RunEnd(ports, p) < MAX ==> RunEnd(ports, p) + 1 !in ports
    decreases MAX - p
  {
    var q := RunEnd(ports, p);
    if p < MAX && p + 1 in ports {
      RunInside(ports, p + 1);
      forall x | x in Span(p, q) ensures x in ports {
        assert x == p || x in Span(p + 1, q) by {
          assert Inside(x, p, q);
          assert x > p ==> Inside(x, p + 1, q);
        }
      }
    } else {
      forall x | x in Span(p, q) ensures x in ports {
        assert Inside(x, p, q);
      }
    }
  }

  function From(ports: set<int>, p: int): set<int> {
    set q | q in ports && q >= p
  }

  lemma {:induction false} RunsCover(ports: set<int>, p: nat)
    requires PortsOnly(ports) && p >= 1
    ensures Union(RunsFrom(ports, p)) == From(ports, p) && AllOk(RunsFrom(ports, p))
    decreases MAX + 1 - p
  {
    if p > MAX {
      assert From(ports, p) == {} by {
        forall q ensures q !in From(ports, p) {
          if q in ports {
            assert q in Span(1, MAX);
            assert Inside(q, 1, MAX);
          }
        }
      }
    } else if p !in ports {
      RunsCover(ports, p + 1);
      assert From(ports, p) == From(ports, p + 1);
    } else {
      var q := RunEnd(ports, p);
      RunInside(ports, p);
      RunsCover(ports, q + 1);
      var rest := RunsFrom(ports, q + 1);
      assert RunsFrom(ports, p)[1..] == rest;
      assert From(ports, p) == Span(p, q) + From(ports, q + 1) by {
        forall x ensures x in From(ports, p) <==> x in Span(p, q) + From(ports, q + 1) {
          assert x in Span(p, q) <==> Inside(x, p, q);
        }
      }
    }
  }

  /** Between two stretches, in order, at least one port is missing. */
  predicate Gapped(rs: seq<Stretch>) {
    forall i, j :: 0 <= i < j < |rs| ==> rs[i].hi + 1 < rs[j].lo
  }

  lemma {:induction false} RunEnds(ports: set<int>, p: nat)
    requires p <= MAX
    ensures RunEnd(ports, p) < MAX ==> RunEnd(ports, p) + 1 !in ports
    decreases MAX - p
  {
    if p < MAX && p + 1 in ports {
      RunEnds(ports, p + 1);
    }
  }

  lemma {:induction false} RunsGapped(ports: set<int>, p: nat)
    ensures Gapped(RunsFrom(ports, p)) && forall i :: 0 <= i < |RunsFrom(ports, p)| ==> RunsFrom(ports, p)[i].lo >= p
    decreases MAX + 1 - p
  {
    if p <= MAX {
      if p !in ports {
        RunsGapped(ports, p + 1);
      } else {
        var q := RunEnd(ports, p);
        RunEnds(ports, p);
        RunsGapped(ports, q + 1);
        if q < MAX {
          RunsGapped(ports, q + 2);
        }
      }
    }
  }

  lemma RunsExact(ports: set<int>)
    requires PortsOnly(ports)
    ensures Union(Runs(ports)) == ports && AllOk(Runs(ports)) && Gapped(Runs(ports))
    ensures ports != {} ==> Runs(ports) != []
  {
    RunsCover(ports, 1);
    RunsGapped(ports, 1);
    AllFromOne(ports);
  }

  lemma AllFromOne(ports: set<int>)
    requires PortsOnly(ports)
    ensures From(ports, 1) == ports
  {
    forall q ensures q in From(ports, 1) <==> q in ports {
      if q in ports {
        assert q in Span(1, MAX);
        assert Inside(q, 1, MAX);
      }
    }
  }

  // ---- no other stretches do ----

  lemma {:induction false} InUnion(rs: seq<Stretch>, x: int)
    ensures x in Union(rs) <==> exists i :: 0 <= i < |rs| && rs[i].lo <= x <= rs[i].hi
  {
    if rs != [] {
      InUnion(rs[1..], x);
      assert x in Span(rs[0].lo, rs[0].hi) <==> Inside(x, rs[0].lo, rs[0].hi);
      if i :| 0 <= i < |rs| && rs[i].lo <= x <= rs[i].hi {
        assert i > 0 ==> rs[1..][i - 1] == rs[i];
      }
    }
  }

  lemma {:induction false} RunEndUnique(ports: set<int>, p: nat, q: nat)
    requires p <= q <= MAX && (forall x :: p <= x <= q ==> x in ports) && (q < MAX ==> q + 1 !in ports)
    ensures RunEnd(ports, p) == q
    decreases q - p
  {
    if p < q {
      RunEndUnique(ports, p + 1, q);
    }
  }

  /** The first of the stretches that make up the ports from p on, where p is one of them. */
  lemma FirstStretch(ports: set<int>, p: nat, rs: seq<Stretch>)
    requires p in ports && p <= MAX && AllOk(rs) && Gapped(rs) && Union(rs) == From(ports, p)
    ensures rs != [] && rs[0] == Stretch(p, RunEnd(ports, p)) && Union(rs[1..]) == From(ports, rs[0].hi + 1)
  {
    hide Union;
    InUnion(rs, p);
    InUnion(rs, rs[0].lo);
    var q := rs[0].hi;
    forall x | p <= x <= q ensures x in ports {
      InUnion(rs, x);
    }
    if q < MAX {
      InUnion(rs, q + 1);
    }
    RunEndUnique(ports, p, q);
    forall x ensures x in Union(rs[1..]) <==> x in From(ports, q + 1) {
      InUnion(rs, x);
      InUnion(rs[1..], x);
      if i :| 0 <= i < |rs| && rs[i].lo <= x <= rs[i].hi {
        assert i > 0 ==> rs[1..][i - 1] == rs[i];
      }
    }
  }

  lemma {:induction false} RunsFromUnique(ports: set<int>, p: nat, rs: seq<Stretch>)
    requires PortsOnly(ports) && p >= 1 && AllOk(rs) && Gapped(rs) && Union(rs) == From(ports, p)
    ensures rs == RunsFrom(ports, p)
    decreases MAX + 1 - p
  {
    if p > MAX {
      if rs != [] {
        InUnion(rs, rs[0].lo);
        assert Inside(rs[0].lo, 1, MAX);
        assert false;
      }
    } else if p !in ports {
      assert From(ports, p) == From(ports, p + 1);
      RunsFromUnique(ports, p + 1, rs);
    } else {
      FirstStretch(ports, p, rs);
      RunsFromUnique(ports, RunEnd(ports, p) + 1, rs[1..]);
    }
  }

  /** The runs are the only stretches in order, with gaps, that make up the set. */
  lemma RunsUnique(ports: set<int>, rs: seq<Stretch>)
    requires PortsOnly(ports) && AllOk(rs) && Gapped(rs) && Union(rs) == ports
    ensures rs == Runs(ports)
  {
    AllFromOne(ports);
    RunsFromUnique(ports, 1, rs);
  }

  /**
   * Printing a set and reading the text rebuilds the set exactly when it is neither empty nor full and has at
   * most eight runs.
   */
  lemma DescribeRoundTrip(ports: set<int>)
    requires PortsOnly(ports)
    ensures ParseList(Description(ports)) == Parsed(ports, None)
       <==> ports != {} && ports != Span(1, MAX) && |Runs(ports)| <= SHOWN
  {
    hide Span, Runs, PortsOnly, RunsText, ParseList, Union, StretchOk, NO_PORTS, ALL_PORTS;
    var rs := Runs(ports);
    RunsExact(ports);
    if ports == {} {
      NoPortsText();
    } else if ports == Span(1, MAX) {
      AllPortsText();
    } else if |rs| <= SHOWN {
      ListRoundTrip([], rs, false);
      assert [] + RunsText(rs) + [] == RunsText(rs);
    } else {
      ListRoundTrip([], rs[..SHOWN], true);
      assert [] + RunsText(rs[..SHOWN]) + MORE == RunsText(rs[..SHOWN]) + MORE;
    }
  }

  lemma NoPortsText()
    ensures ParseList(NO_PORTS) == Parsed({}, Some(Inval))
  {
    var s := NO_PORTS;
    FindFirst(s, COMMA, [], 0);
    assert s + [] == s && s[..8] == s;
    Trimmed([], s);
    assert [] + s == s;
    FindFirst(s, DASH, [], 1);
  }

  lemma AllPortsText()
    ensures ParseList(ALL_PORTS) == Parsed({}, Some(Inval))
  {
    var s := ALL_PORTS;
    FindFirst(s, COMMA, [], 0);
    assert s + [] == s && s[..13] == s;
    Trimmed([], s);
    assert [] + s == s;
    AllPortsEntry();
    hide Entry, TrimEnd, SkipBlanks, Find;
  }

  lemma AllPortsEntry()
    ensures Entry(ALL_PORTS) == Err(Inval)
  {
    var s := ALL_PORTS;
    NotAWord(s);
    var lo: bytes, hi: bytes := [0x31], [0x36, 0x35, 0x35, 0x33, 0x35, 0x20, 0x28, 0x61, 0x6c, 0x6c, 0x29];
    assert s == lo + ([DASH] + hi);
    FindFirst(lo, DASH, [DASH] + hi, 1);
    assert s[..1] == lo && s[2..] == hi;
    assert lo[1..] == [] && NumberFrom(0, lo) == Ok(1);
    BadNumber();
    hide NumberFrom, Find;
  }

  lemma BadNumber()
    ensures NumberFrom(0, [0x36, 0x35, 0x35, 0x33, 0x35, 0x20, 0x28, 0x61, 0x6c, 0x6c, 0x29]) == Err(Inval)
  {
    var t: bytes := [0x36, 0x35, 0x35, 0x33, 0x35, 0x20, 0x28, 0x61, 0x6c, 0x6c, 0x29];
    assert NumberFrom(65535, t[5..]) == Err(Inval);
    assert t[4..][1..] == t[5..] && t[3..][1..] == t[4..] && t[2..][1..] == t[3..] && t[1..][1..] == t[2..];
    assert NumberFrom(6553, t[4..]) == NumberFrom(65535, t[5..]);
    assert NumberFrom(655, t[3..]) == NumberFrom(6553, t[4..]);
    assert NumberFrom(65, t[2..]) == NumberFrom(655, t[3..]);
    assert NumberFrom(6, t[1..]) == NumberFrom(65, t[2..]);
  }

  lemma {:induction false} RunsTextSize(rs: seq<Stretch>)
    requires rs != [] && AllOk(rs)
    ensures |RunsText(rs)| <= 13 * |rs| - 2
  {
    hide StretchText, StretchOk;
    if |rs| == 1 {
      StretchSize(rs[0]);
    } else {
      RunsTextSize(rs[..|rs| - 1]);
      StretchSize(rs[|rs| - 1]);
    }
  }

  lemma StretchSize(r: Stretch)
    requires StretchOk(r)
    ensures |StretchText(r)| <= 11
  {
    assert Pow(10, 5) == 100000;
    DigitsOk(r.lo, 5);
    DigitsOk(r.hi, 5);
    hide Digits;
  }

  /** A buffer of 108 bytes holds any description. */
  lemma DescriptionSize(ports: set<int>)
    requires PortsOnly(ports)
    ensures |Description(ports)| < 108
  {
    hide Span, Runs, PortsOnly, RunsText, StretchOk;
    RunsExact(ports);
    var rs := Runs(ports);
    if ports != {} {
      if |rs| <= SHOWN {
        RunsTextSize(rs);
      } else {
        RunsTextSize(rs[..SHOWN]);
      }
    }
  }

  // ---- the code ----

  /** `parse_num` */
  method ParseNum(s: bytes) returns (rc: Result<nat>)
    ensures rc == PortNumber(s)
  {
    if s == [] {
      return Err(Inval);
    }
    var v: nat, p: nat := 0, 0;
    assert s[0..] == s;
    while p < |s|
      invariant 0 <= p <= |s| && v <= MAX && NumberFrom(0, s) == NumberFrom(v, s[p..])
    {
      if !Digit(s[p]) {
        return Err(Inval);
      }
      v := v * 10 + (s[p] as int - 0x30);
      if v > MAX {
        return Err(Range);
      }
      assert s[p..][1..] == s[p + 1..];
      p := p + 1;
    }
    if v == 0 {
      return Err(Inval);
    }
    return Ok(v);
  }

  /** `skip_spaces` and `trim_end` */
  method Trim(s: bytes) returns (a: bytes)
    ensures a == TrimEnd(SkipBlanks(s))
  {
    a := s;
    while a != [] && Blank(a[0])
      invariant SkipBlanks(a) == SkipBlanks(s)
      decreases |a|
    {
      a := a[1..];
    }
    ghost var b := a;
    while a != [] && Blank(a[|a| - 1])
      invariant TrimEnd(a) == TrimEnd(b)
      decreases |a|
    {
      a := a[..|a| - 1];
    }
  }

  lemma RealSpan(s: set<int>, lo: int, hi: int)
    requires lo >= 1
    ensures WithSpan(s, lo, hi) == s + Span(lo, hi)
  {
    assert 0 in Span(lo, hi) ==> Inside(0, lo, hi);
  }

  /** One entry of the list. */
  method ParseEntry(ps: Set, a: bytes) returns (rc: Result<()>)
    requires ps.Valid()
    modifies ps, ps.bits
    ensures ps.Valid()
    ensures rc.Ok? ==> Entry(a).Ok? && ps.Members() == old(ps.Members()) + Entry(a).value
    ensures rc.Err? ==> Entry(a) == Err(rc.error) && ps.Members() == old(ps.Members())
  {
    hide PortNumber, Span, Ports, Bit;
    if |a| == 0 {
      return Err(Inval);
    }
    if a == ALL {
      RealSpan(ps.Members(), 1, MAX);
      ps.AddRange(1, MAX);
      return Ok(());
    }
    if a in SERVICES {
      return Err(Unsupported);
    }
    var dash := FindByte(a, DASH, 1);
    if dash < |a| {
      var lo :- ParseNum(a[..dash]);
      var hi :- ParseNum(a[dash + 1..]);
      RealSpan(ps.Members(), if lo < hi then lo else hi, if lo < hi then hi else lo);
      ps.AddRange(lo, hi);
    } else {
      var v :- ParseNum(a);
      ps.Add(v);
    }
    return Ok(());
  }

  /** `memchr`, and the search for a dash */
  method FindByte(s: bytes, c: u8, i: nat) returns (k: nat)
    requires i <= |s|
    ensures k == Find(s, c, i)
  {
    k := i;
    while k < |s| && s[k] != c
      invariant i <= k <= |s| && Find(s, c, i) == Find(s, c, k)
    {
      k := k + 1;
    }
  }

  /** `tc_portset_parse`: everything before an error stays in the set. */
  method Parse(ps: Set, spec: bytes) returns (rc: Option<Error>)
    requires ps.Valid()
    modifies ps, ps.bits
    ensures ps.Valid() && ps.Members() == old(ps.Members()) + ParseList(spec).ports && rc == ParseList(spec).error
  {
    assert ps.bits.Length == BYTES;
    hide Entry, TrimEnd, SkipBlanks, ParseList, Find, Adding, Set.Valid, Set.Members;
    var front := SkipBlanks(spec);
    if front == [] {
      BlankList(spec);
      return Some(Inval);
    }
    ghost var was, added: set<int> := ps.Members(), {};
    assert was + {} == was;
    AddingStart(spec);
    var p, more := spec, true;
    while more
      invariant ps.Valid() && ps.Members() == was + added && Adding(spec, added, p, more)
      decreases more, |p|
    {
      var comma := FindByte(p, COMMA, 0);
      var a := Trim(p[..comma]);
      more := comma < |p|;
      AddingStep(spec, added, p);
      var ok := ParseEntry(ps, a);
      if ok.Err? {
        return Some(ok.error);
      }
      Regroup(was, added, Entry(a).value);
      added := added + Entry(a).value;
      p := if more then p[comma + 1..] else [];
    }
    AddingEnd(spec, added, p);
    return None;
  }

  lemma Regroup(a: set<int>, b: set<int>, c: set<int>)
    ensures (a + b) + c == a + (b + c)
  {
  }

  /** The list is what has been added and what is still to be read. */
  ghost predicate Adding(spec: bytes, added: set<int>, p: bytes, more: bool) {
    ParseList(spec) == if more then Parsed(added + ParseList(p).ports, ParseList(p).error) else Parsed(added, None)
  }

  lemma AddingStart(spec: bytes)
    ensures Adding(spec, {}, spec, true)
  {
    hide ParseList;
    assert {} + ParseList(spec).ports == ParseList(spec).ports;
  }

  lemma AddingStep(spec: bytes, added: set<int>, p: bytes)
    requires Adding(spec, added, p, true)
    ensures var comma := Find(p, COMMA, 0);
            var e := Entry(TrimEnd(SkipBlanks(p[..comma])));
            if e.Err? then ParseList(spec) == Parsed(added, Some(e.error))
            else Adding(spec, added + e.value, if comma < |p| then p[comma + 1..] else [], comma < |p|)
  {
    hide Entry, TrimEnd, SkipBlanks, ParseList, Find;
    ParseNext(p);
    var comma := Find(p, COMMA, 0);
    var e := Entry(TrimEnd(SkipBlanks(p[..comma])));
    assert added + {} == added;
    if e.Ok? && comma < |p| {
      var rest := ParseList(p[comma + 1..]).ports;
      assert added + (e.value + rest) == (added + e.value) + rest;
    }
  }

  lemma AddingEnd(spec: bytes, added: set<int>, p: bytes)
    requires Adding(spec, added, p, false)
    ensures ParseList(spec) == Parsed(added, None)
  {
  }

  lemma BlankList(s: bytes)
    requires SkipBlanks(s) == []
    ensures ParseList(s) == Parsed({}, Some(Inval))
  {
    AllBlank(s);
    FindFirst(s, COMMA, [], 0);
    assert s + [] == s && s[..|s|] == s;
  }

  lemma {:induction false} AllBlank(s: bytes)
    requires SkipBlanks(s) == []
    ensures forall i :: 0 <= i < |s| ==> Blank(s[i])
  {
    if s != [] {
      AllBlank(s[1..]);
    }
  }

  // ---- printing ----

  /** `snprintf` at an offset: what fits, and a NUL; the length that was wanted. */
  method Print(out: array<u8>, off: nat, text: bytes) returns (n: nat, end: nat)
    requires off < out.Length
    modifies out
    ensures n == |text| && end == off + (if |text| < out.Length - off then |text| else out.Length - off - 1)
    ensures out[..end] == old(out[..off]) + text[..end - off] && out[end] == 0
  {
    n := |text|;
    var m := if n < out.Length - off then n else out.Length - off - 1;
    end := off + m;
    forall i | 0 <= i < m {
      out[off + i] := text[i];
    }
    out[end] := 0;
    assert out[..end] == old(out[..off]) + text[..m];
  }

  /** The inner loop of `tc_portset_describe`. */
  method LastOfRun(ps: Set, first: nat) returns (port: nat)
    requires ps.Valid() && 1 <= first <= MAX
    ensures port == RunEnd(ps.Members(), first)
  {
    port := first;
    var next := false;
    if port < MAX {
      next := ps.Has(port + 1);
    }
    while port < MAX && next
      invariant first <= port <= MAX && (port < MAX ==> (next <==> port + 1 in ps.Members()))
      invariant RunEnd(ps.Members(), first) == RunEnd(ps.Members(), port)
    {
      port := port + 1;
      if port < MAX {
        next := ps.Has(port + 1);
      }
    }
  }

  /** Ports that are printed: the runs so far, and those from `port` on. */
  ghost predicate Showing(ports: set<int>, port: nat, done: seq<Stretch>) {
    Runs(ports) == done + RunsFrom(ports, port)
  }

  lemma ShowingStep(ports: set<int>, port: nat, done: seq<Stretch>)
    requires Showing(ports, port, done) && port <= MAX
    ensures port !in ports ==> Showing(ports, port + 1, done)
    ensures port in ports ==>
              var end := RunEnd(ports, port);
              Showing(ports, end + 1, done + [Stretch(port, end)]) && |done| < |Runs(ports)|
              && (port >= 1 ==> StretchOk(Stretch(port, end)))
  {
    hide RunEnd, Runs;
    if port in ports {
      var r := Stretch(port, RunEnd(ports, port));
      var rest := RunsFrom(ports, RunEnd(ports, port) + 1);
      assert RunsFrom(ports, port) == [r] + rest;
      assert done + ([r] + rest) == (done + [r]) + rest;
    }
  }

  lemma RunsTextGrows(done: seq<Stretch>, r: Stretch)
    ensures RunsText(done + [r]) == if done == [] then StretchText(r) else RunsText(done) + (SEPARATOR + StretchText(r))
  {
    assert (done + [r])[..|done|] == done;
  }

  /** A set of ports is within 1 to 65535, and has as many members as that only when it is all of them. */
  lemma MembersOnly(bits: bytes)
    requires |bits| == BYTES
    ensures PortsOnly(Ports(bits)) && (|Ports(bits)| == MAX <==> Ports(bits) == Span(1, MAX))
  {
    hide Bit;
    SpanSize(1, MAX);
    assert Ports(bits) <= Span(1, MAX) by {
      forall p | p in Ports(bits) ensures p in Span(1, MAX) {
        assert Inside(p, 1, MAX);
      }
    }
    hide Ports, Span;
    Subset(Ports(bits), Span(1, MAX));
  }

  lemma {:induction false} SpanSize(lo: int, hi: int)
    requires lo <= hi + 1
    ensures |Span(lo, hi)| == hi - lo + 1
    decreases hi - lo + 1
  {
    if lo <= hi {
      SpanSize(lo, hi - 1);
      assert Span(lo, hi) == Span(lo, hi - 1) + {hi} by {
        forall q ensures q in Span(lo, hi) <==> q in Span(lo, hi - 1) + {hi} {
          assert Inside(q, lo, hi) <==> Inside(q, lo, hi - 1) || q == hi;
        }
      }
    } else {
      assert Span(lo, hi) == {};
    }
  }

  lemma Subset(a: set<int>, b: set<int>)
    requires a <= b
    ensures |a| == |b| <==> a == b
  {
    assert b == a + (b - a);
    if |a| == |b| {
      assert |b - a| == 0;
    }
  }

  /**
   * `tc_portset_describe`; the result is the length of the text. A run that does not fit is an error; the three
   * fixed texts are cut to what fits.
   */
  method Describe(ps: Set, out: array<u8>) returns (rc: Result<nat>)
    requires ps.Valid() && out != ps.bits
    modifies out
    ensures rc == if out.Length == 0 then Err(Inval)
                  else if |Firm(ps.Members())| >= out.Length then Err(NoSpace)
                  else Ok(Min(|Description(ps.Members())|, out.Length - 1))
    ensures rc.Ok? ==> rc.value <= |Description(ps.Members())|
    ensures rc.Ok? ==> out[..rc.value] == Description(ps.Members())[..rc.value] && out[rc.value] == 0
  {
    if out.Length == 0 {
      return Err(Inval);
    }
    MembersOnly(ps.bits[..]);
    ghost var ports := ps.Members();
    hide Runs, Span, RunsText, Ports, Bit, PortsOnly, NO_PORTS, ALL_PORTS, MORE, Outcome;
    out[0] := 0;
    if ps.count == 0 {
      rc := ShowFixed(out, 0, NO_PORTS, []);
      assert [] + NO_PORTS == NO_PORTS;
    } else if ps.count == MAX {
      rc := ShowFixed(out, 0, ALL_PORTS, []);
      assert [] + ALL_PORTS == ALL_PORTS;
    } else {
      assert ports != {} && ports != Span(1, MAX);
      rc := DescribeRuns(ps, out);
    }
    Unpack(rc, out, Firm(ports), Description(ports));
  }

  lemma Unpack(rc: Result<nat>, out: array<u8>, firm: bytes, d: bytes)
    requires Outcome(rc, out[..], firm, d)
    ensures out.Length > 0 && rc == (if |firm| >= out.Length then Err(NoSpace) else Ok(Min(|d|, out.Length - 1)))
    ensures rc.Ok? ==> out[..rc.value] == d[..rc.value] && out[rc.value] == 0
  {
    if rc.Ok? {
      assert out[..][..rc.value] == out[..rc.value];
    }
  }

  function Min(a: nat, b: nat): nat {
    if a <= b then a else b
  }

  /** What `tc_portset_describe` leaves behind for a description d of which `firm` has to fit. */
  ghost predicate Outcome(rc: Result<nat>, out: bytes, firm: bytes, d: bytes) {
    && |out| > 0 && rc == (if |firm| >= |out| then Err(NoSpace) else Ok(Min(|d|, |out| - 1)))
    && (rc.Ok? ==> out[..rc.value] == d[..rc.value] && out[rc.value] == 0)
  }

  method DescribeRuns(ps: Set, out: array<u8>) returns (rc: Result<nat>)
    requires ps.Valid() && out != ps.bits && out.Length > 0
    requires ps.Members() != {} && ps.Members() != Span(1, MAX)
    modifies out
    ensures Outcome(rc, out[..], Firm(ps.Members()), Description(ps.Members()))
  {
    ghost var ports, done: seq<Stretch> := ps.Members(), [];
    assert ps.bits.Length == BYTES;
    var off: nat, shown: nat, port: nat := 0, 0, 1;
    SofarStart(ports);
    assert out[..0] == [];
    out[0] := 0;
    hide Span, Description, Firm, Sofar, Outcome, Set.Valid, Set.Members;
    while port <= MAX
      invariant ps.Valid() && ps.Members() == ports && 1 <= port && off < out.Length && out[off] == 0
      invariant Sofar(ports, port, done, shown, out[..off])
    {
      var stop;
      stop, rc, off, port, shown, done := DescribeStep(ps, out, off, port, shown, done);
      if stop {
        return;
      }
    }
    SofarEnd(ports, port, done, shown, out[..off]);
    AllShown(out[..], off);
    assert out[..][..off] == out[..off];
    return Ok(off);
  }

  lemma AllShown(out: bytes, off: nat)
    requires off < |out| && out[off] == 0
    ensures Outcome(Ok(off), out, out[..off], out[..off])
  {
  }

  lemma Sized(ps: Set)
    requires ps.Valid()
    ensures ps.bits.Length == BYTES
  {
  }

  /** One turn of the loop of `tc_portset_describe`. */
  method DescribeStep(ps: Set, out: array<u8>, off: nat, port: nat, shown: nat, ghost done: seq<Stretch>)
    returns (stop: bool, rc: Result<nat>, off': nat, port': nat, shown': nat, ghost done': seq<Stretch>)
    requires ps.Valid() && out != ps.bits && off < out.Length && out[off] == 0 && 1 <= port <= MAX
    requires ps.Members() != {} && ps.Members() != Span(1, MAX) && Sofar(ps.Members(), port, done, shown, out[..off])
    modifies out
    ensures if stop then Outcome(rc, out[..], Firm(ps.Members()), Description(ps.Members()))
            else port < port' && off' < out.Length && out[off'] == 0
                 && Sofar(ps.Members(), port', done', shown', out[..off'])
  {
    hide Span, Description, Firm, Sofar, Outcome, RunEnd, MORE, Set.Valid, Set.Members;
    Sized(ps);
    ghost var ports := ps.Members();
    stop, rc, off', port', shown', done' := false, Ok(0), off, port + 1, shown, done;
    var here := ps.Has(port);
    if !here {
      SofarSkip(ports, port, done, shown, out[..off]);
      return;
    }
    var last := LastOfRun(ps, port);
    stop, rc, off' := DescribeMember(out, off, port, last, shown, ports, done);
    done', shown', port' := done + [Stretch(port, last)], shown + 1, last + 1;
  }

  /** The part of that turn that prints. */
  method DescribeMember(out: array<u8>, off: nat, port: nat, last: nat, shown: nat, ghost ports: set<int>,
                        ghost done: seq<Stretch>)
    returns (stop: bool, rc: Result<nat>, off': nat)
    requires off < out.Length && out[off] == 0 && 1 <= port <= MAX && port in ports && last == RunEnd(ports, port)
    requires ports != {} && ports != Span(1, MAX) && Sofar(ports, port, done, shown, out[..off])
    modifies out
    ensures if stop then Outcome(rc, out[..], Firm(ports), Description(ports))
            else off' < out.Length && out[off'] == 0
                 && Sofar(ports, last + 1, done + [Stretch(port, last)], shown + 1, out[..off'])
  {
    stop, rc, off' := false, Ok(0), off;
    hide Span, Description, Firm, Sofar, Outcome, RunEnd, MORE;
    if shown == SHOWN {
      SofarMore(ports, port, done, shown, out[..off]);
      rc := ShowFixed(out, off, MORE, out[..off]);
      stop := true;
      return;
    }
    SofarCount(ports, port, done, shown, out[..off]);
    var fits;
    fits, off' := ShowNext(out, off, port, last, ports, done, shown);
    if !fits {
      rc, stop := Err(NoSpace), true;
    }
  }

  lemma SofarCount(ports: set<int>, port: nat, done: seq<Stretch>, shown: nat, text: bytes)
    requires Sofar(ports, port, done, shown, text)
    ensures shown <= SHOWN
  {
  }

  /** Printing one more run within that loop. */
  method ShowNext(out: array<u8>, off: nat, first: nat, last: nat, ghost ports: set<int>, ghost done: seq<Stretch>,
                  ghost shown: nat)
    returns (fits: bool, end: nat)
    requires off < out.Length && Sofar(ports, first, done, shown, out[..off]) && shown < SHOWN
    requires 1 <= first <= MAX && first in ports && last == RunEnd(ports, first) && ports != {} && ports != Span(1, MAX)
    modifies out
    ensures if fits then end < out.Length && out[end] == 0
                         && Sofar(ports, last + 1, done + [Stretch(first, last)], shown + 1, out[..end])
            else |Firm(ports)| >= out.Length
  {
    hide Span, Description, Firm, Sofar, RunEnd, RunsText, StretchOk;
    SofarShow(ports, first, done, shown, out[..off]);
    fits, end := ShowRun(out, off, Stretch(first, last), done);
  }

  /** The loop of `tc_portset_describe`: the first runs are printed, the others start at `port` or later. */
  ghost predicate Sofar(ports: set<int>, port: nat, done: seq<Stretch>, shown: nat, text: bytes) {
    && |done| == shown <= SHOWN && Showing(ports, port, done)
    && text == RunsText(done) && (done == [] <==> text == [])
  }

  lemma SofarStart(ports: set<int>)
    ensures Sofar(ports, 1, [], 0, [])
  {
    ShowingStart(ports);
  }

  lemma SofarSkip(ports: set<int>, port: nat, done: seq<Stretch>, shown: nat, text: bytes)
    requires Sofar(ports, port, done, shown, text) && port <= MAX && port !in ports
    ensures Sofar(ports, port + 1, done, shown, text)
  {
    hide Showing, RunsText;
    ShowingStep(ports, port, done);
  }

  lemma SofarShow(ports: set<int>, port: nat, done: seq<Stretch>, shown: nat, text: bytes)
    requires Sofar(ports, port, done, shown, text) && 1 <= port <= MAX && port in ports && shown < SHOWN
    requires ports != {} && ports != Span(1, MAX)
    ensures var r := Stretch(port, RunEnd(ports, port));
            && StretchOk(r) && text == RunsText(done) && (done == [] <==> text == [])
            && |RunsText(done + [r])| <= |Firm(ports)|
            && Sofar(ports, r.hi + 1, done + [r], shown + 1, RunsText(done + [r]))
  {
    hide Showing, RunsText, Span, Description, Firm, RunEnd, Runs, StretchOk;
    var r := Stretch(port, RunEnd(ports, port));
    ShowingStep(ports, port, done);
    ShownPart(ports, r.hi + 1, done + [r]);
    SomeText(done, r);
  }

  lemma SomeText(done: seq<Stretch>, r: Stretch)
    requires StretchOk(r)
    ensures RunsText(done + [r]) != []
  {
    StretchShape(r);
    RunsTextGrows(done, r);
    hide StretchText, RunsText;
  }

  lemma SofarMore(ports: set<int>, port: nat, done: seq<Stretch>, shown: nat, text: bytes)
    requires Sofar(ports, port, done, shown, text) && port <= MAX && port in ports && shown == SHOWN
    requires ports != {} && ports != Span(1, MAX)
    ensures Description(ports) == text + MORE && Firm(ports) == text
  {
    hide Showing, RunsText, Span, Description, Firm;
    ShowingStep(ports, port, done);
    ShownMore(ports, port, done);
  }

  lemma SofarEnd(ports: set<int>, port: nat, done: seq<Stretch>, shown: nat, text: bytes)
    requires Sofar(ports, port, done, shown, text) && port > MAX && ports != {} && ports != Span(1, MAX)
    ensures Description(ports) == text == Firm(ports)
  {
    hide Showing, RunsText, Span, Description, Firm;
    ShownAll(ports, port, done);
  }

  /** A fixed text after what is shown already, as much of it as fits. */
  method ShowFixed(out: array<u8>, off: nat, text: bytes, ghost shown: bytes) returns (rc: Result<nat>)
    requires off < out.Length && out[..off] == shown
    modifies out
    ensures Outcome(rc, out[..], shown, shown + text)
  {
    var n, end := Print(out, off, text);
    CutShort(shown, text, end - off);
    assert out[..][..end] == out[..end];
    return Ok(end);
  }

  lemma CutShort(a: bytes, b: bytes, k: nat)
    requires k <= |b|
    ensures a + b[..k] == (a + b)[..|a| + k]
  {
  }

  /** One run printed after those already there. */
  method ShowRun(out: array<u8>, off: nat, r: Stretch, ghost done: seq<Stretch>) returns (fits: bool, end: nat)
    requires off < out.Length && out[..off] == RunsText(done) && (done == [] <==> off == 0) && StretchOk(r)
    modifies out
    ensures if fits then 0 < end < out.Length && out[..end] == RunsText(done + [r]) && out[end] == 0
            else |RunsText(done + [r])| >= out.Length
  {
    StretchShape(r);
    RunsTextGrows(done, r);
    hide RunsText, StretchText;
    var text := (if off > 0 then SEPARATOR else []) + StretchText(r);
    ghost var was := out[..off];
    var n;
    n, end := Print(out, off, text);
    fits := n < out.Length - off;
    assert text[..|text|] == text;
    if done == [] {
      assert [] + StretchText(r) == StretchText(r) && was + StretchText(r) == StretchText(r);
    }
  }

  lemma ShowingStart(ports: set<int>)
    ensures Showing(ports, 1, []) && RunsText([]) == []
  {
    hide RunsFrom;
    assert [] + RunsFrom(ports, 1) == RunsFrom(ports, 1);
  }

  lemma {:induction false} PrefixText(rs: seq<Stretch>, n: nat)
    requires n <= |rs|
    ensures RunsText(rs[..n]) <= RunsText(rs)
    decreases |rs|
  {
    if n == |rs| {
      assert rs[..n] == rs;
    } else if n == 0 {
      assert rs[..0] == [];
    } else {
      var front := rs[..|rs| - 1];
      hide StretchText;
      PrefixText(front, n);
      assert front[..n] == rs[..n];
    }
  }

  /** Runs that have been shown are a beginning of the description. */
  lemma ShownPart(ports: set<int>, port: nat, done: seq<Stretch>)
    requires Showing(ports, port, done) && |done| <= SHOWN && ports != {} && ports != Span(1, MAX)
    ensures |RunsText(done)| <= |Firm(ports)|
  {
    var rs := Runs(ports);
    hide RunsText, Span, RunsFrom, Runs;
    assert rs[..|done|] == done;
    if |rs| <= SHOWN {
      PrefixText(rs, |done|);
    } else {
      assert rs[..SHOWN][..|done|] == done;
      PrefixText(rs[..SHOWN], |done|);
    }
  }

  lemma ShownMore(ports: set<int>, port: nat, done: seq<Stretch>)
    requires Showing(ports, port, done) && |done| == SHOWN && |Runs(ports)| > SHOWN
    requires ports != {} && ports != Span(1, MAX)
    ensures Description(ports) == RunsText(done) + MORE && Firm(ports) == RunsText(done)
  {
    hide RunsText, Span, RunsFrom, Runs;
    assert Runs(ports)[..SHOWN] == done;
  }

  lemma ShownAll(ports: set<int>, port: nat, done: seq<Stretch>)
    requires Showing(ports, port, done) && port > MAX && |done| <= SHOWN && ports != {} && ports != Span(1, MAX)
    ensures Description(ports) == RunsText(done) == Firm(ports)
  {
    hide RunsText, Span;
    assert RunsFrom(ports, port) == [];
    assert done + [] == done;
  }
}
