/** The pull reader: one event at a time, with an explicit stack of levels. */
module Json {
  import opened Words
  import opened Errors
  import opened Utf8
  import opened JsonText

  const MAX_DEPTH: nat := 32

  datatype Event =
    | End
    | Begin(obj: bool)
    | Close(obj: bool)
    | Key(str: bytes)
    | Str(str: bytes)
    | Number(isInteger: bool, num: int)
    | Bool(bval: bool)
    | Null

  const TRUE: bytes := [0x74, 0x72, 0x75, 0x65]
  const FALSE: bytes := [0x66, 0x61, 0x6c, 0x73, 0x65]
  const NULL: bytes := [0x6e, 0x75, 0x6c, 0x6c]

  function Opener(obj: bool): u8 {
    if obj then 0x7b else 0x5b
  }

  function Closer(obj: bool): u8 {
    if obj then 0x7d else 0x5d
  }

  // ---- one call as a function ----

  datatype Level = Level(obj: bool, seen: bool)

  /** The unread text, the open levels from the outside in, and the three flags. */
  datatype State = State(rest: bytes, stack: seq<Level>, started: bool, due: bool, done: bool)

  function Start(s: bytes): State {
    State(s, [], false, false, false)
  }

  function NumberEvent(n: Num): Event {
    match IntegerOf(n)
    case Some(v) => Number(true, v)
    case None => Number(false, 0)
  }

  /** The string at the front of s, without its quotes, and what follows it. */
  function TakeString(s: bytes): (r: Result<(bytes, bytes)>)
    ensures r.Ok? ==> s == [QUOTE] + r.value.0 + [QUOTE] + r.value.1
  {
    if s == [] || s[0] != QUOTE then Err(Inval)
    else
      var n :- StringEnd(s[1..]);
      assert s == [QUOTE] + s[1..1 + n] + [QUOTE] + s[2 + n..] by {
        assert s[1..][n] == QUOTE;
      }
      Ok((s[1..1 + n], s[2 + n..]))
  }

  /** A scalar at the front of s, and what follows it. */
  function TakeScalar(s: bytes): Result<(Event, bytes)> {
    if s == [] then Err(Trunc)
    else if s[0] == QUOTE then
      var (b, rest) :- TakeString(s);
      Ok((Str(b), rest))
    else if s[0] == 0x74 then
      if TRUE <= s then Ok((Bool(true), s[4..])) else Err(Inval)
    else if s[0] == 0x66 then
      if FALSE <= s then Ok((Bool(false), s[5..])) else Err(Inval)
    else if s[0] == 0x6e then
      if NULL <= s then Ok((Null, s[4..])) else Err(Inval)
    else TakeNumber(s)
  }

  function TakeNumber(s: bytes): Result<(Event, bytes)> {
    var n :- ScanNum(s);
    NumSound(s);
    Ok((NumberEvent(n), s[|NumText(n)|..]))
  }

  /** Whatever value starts at the front: a container is only entered. */
  function TakeValue(st: State): Result<(Event, State)> {
    if st.rest == [] then Err(Trunc)
    else if st.rest[0] == Opener(true) || st.rest[0] == Opener(false) then
      var obj := st.rest[0] == Opener(true);
      if |st.stack| >= MAX_DEPTH then Err(TooMany)
      else Ok((Begin(obj), State(st.rest[1..], st.stack + [Level(obj, false)], false, st.due, st.done)))
    else
      var (ev, rest) :- TakeScalar(st.rest);
      Ok((ev, st.(rest := rest)))
  }

  /** After the outermost value only white space may follow. */
  function Finish(ev: Event, st: State): Result<(Event, State)> {
    var rest := AfterWs(st.rest);
    if rest != [] then Err(Inval) else Ok((ev, st.(rest := [], done := true)))
  }

  function MarkSeen(stack: seq<Level>): seq<Level>
    requires stack != []
  {
    stack[|stack| - 1 := Level(stack[|stack| - 1].obj, true)]
  }

  /** A value inside a container; one that is complete counts as seen. */
  function TakeInner(st: State): Result<(Event, State)>
    requires st.stack != []
  {
    var (ev, st') :- TakeValue(st);
    Ok((ev, if ev.Begin? then st' else st'.(stack := MarkSeen(st.stack))))
  }

  function TakeTop(st: State): Result<(Event, State)>
    requires st.stack == []
  {
    var (ev, st') :- TakeValue(st.(started := true));
    if st'.stack == [] then Finish(ev, st') else Ok((ev, st'))
  }

  function TakeClose(st: State): Result<(Event, State)>
    requires st.stack != [] && st.rest != []
  {
    if st.due then Err(Inval)
    else
      var outer, lvl := st.stack[..|st.stack| - 1], st.stack[|st.stack| - 1];
      if outer == [] then Finish(Close(lvl.obj), State(st.rest[1..], [], lvl.seen, false, false))
      else Ok((Close(lvl.obj), State(st.rest[1..], MarkSeen(outer), false, false, false)))
  }

  /** The comma between elements: required after the first, refused before a closing bracket. */
  function TakeComma(s: bytes, lvl: Level): Result<bytes>
    requires s != []
  {
    if !lvl.seen then Ok(s)
    else if s[0] != 0x2c then Err(Inval)
    else
      var s' := AfterWs(s[1..]);
      if s' == [] then Err(Trunc)
      else if s'[0] == Closer(lvl.obj) then Err(Inval)
      else Ok(s')
  }

  function TakeKey(st: State): Result<(Event, State)> {
    var (b, s) :- TakeString(st.rest);
    var s' := AfterWs(s);
    if s' == [] then Err(Trunc)
    else if s'[0] != 0x3a then Err(Inval)
    else Ok((Key(b), st.(rest := s'[1..], due := true)))
  }

  /** One call of the reader. */
  function Next(st: State): Result<(Event, State)> {
    if st.done then Ok((End, st))
    else
      var s := AfterWs(st.rest);
      if st.stack == [] then
        if !st.started then TakeTop(st.(rest := s))
        else if s != [] then Err(Inval)
        else Ok((End, st.(rest := [], done := true)))
      else
        var lvl := st.stack[|st.stack| - 1];
        if s == [] then Err(Trunc)
        else if s[0] == Closer(lvl.obj) then TakeClose(st.(rest := s))
        else if st.due then TakeInner(st.(rest := s, due := false))
        else
          var s' :- TakeComma(s, lvl);
          if lvl.obj then TakeKey(st.(rest := s')) else TakeInner(st.(rest := s'))
  }

  // ---- skipping ----

  lemma ScalarShrinks(s: bytes)
    requires TakeScalar(s).Ok?
    ensures |TakeScalar(s).value.1| < |s| && !TakeScalar(s).value.0.End?
  {
    hide ScanNum, IntegerOf;
    if s[0] !in {QUOTE, 0x74, 0x66, 0x6e} {
      NumSound(s);
    }
  }

  lemma AfterWsShorter(s: bytes)
    ensures |AfterWs(s)| <= |s|
  {
  }

  lemma ValueShrinks(st: State)
    requires TakeValue(st).Ok?
    ensures |TakeValue(st).value.1.rest| < |st.rest| && !TakeValue(st).value.0.End?
  {
    hide TakeScalar;
    if st.rest[0] != Opener(true) && st.rest[0] != Opener(false) {
      ScalarShrinks(st.rest);
    }
  }

  lemma KeyShrinks(st: State)
    requires TakeKey(st).Ok?
    ensures |TakeKey(st).value.1.rest| < |st.rest| && !TakeKey(st).value.0.End?
  {
    hide AfterWs;
    AfterWsShorter(TakeString(st.rest).value.1);
  }

  /** Every call that delivers something consumes something. */
  lemma NextShrinks(st: State)
    requires Next(st).Ok? && !Next(st).value.0.End?
    ensures |Next(st).value.1.rest| < |st.rest|
  {
    hide AfterWs, TakeValue, TakeKey;
    var s := AfterWs(st.rest);
    AfterWsShorter(st.rest);
    if st.stack == [] {
      ValueShrinks(st.(rest := s, started := true));
    } else {
      var lvl := st.stack[|st.stack| - 1];
      AfterWsShorter(s[1..]);
      if s[0] != Closer(lvl.obj) {
        if st.due {
          ValueShrinks(st.(rest := s, due := false));
        } else {
          var s' := TakeComma(s, lvl).value;
          if lvl.obj {
            KeyShrinks(st.(rest := s'));
          } else {
            ValueShrinks(st.(rest := s'));
          }
        }
      }
    }
  }

  /** Calls until at most `target` levels are open. */
  function SkipLoop(st: State, target: nat): Result<State>
    decreases |st.rest|
  {
    if |st.stack| <= target then Ok(st)
    else
      var r := Next(st);
      if r.Err? then Err(r.error)
      else if r.value.0.End? then Err(Trunc)
      else
        NextShrinks(st);
        SkipLoop(r.value.1, target)
  }

  /** `tc_json_skip_value` as a function. */
  function SkipOne(st: State): Result<State> {
    var (ev, st') :- Next(st);
    if ev.Begin? && st'.stack != [] then SkipLoop(st', |st'.stack| - 1) else Ok(st')
  }

  lemma SkipMore(st: State, target: nat)
    requires |st.stack| > target
    ensures var r := Next(st);
            SkipLoop(st, target) == if r.Err? then Err(r.error)
                                    else if r.value.0.End? then Err(Trunc)
                                    else SkipLoop(r.value.1, target)
  {
    hide Next;
  }

  // ---- the reader ----

  class Reader {
    const buf: bytes
    var pos: nat
    var depth: nat
    const inObject: array<bool>
    const seen: array<bool>
    var expectValue: bool
    var done: bool

    ghost predicate Valid()
      reads this
    {
      && pos <= |buf| && depth <= MAX_DEPTH
      && inObject.Length == seen.Length == MAX_DEPTH && inObject != seen
      && (done ==> depth == 0)
    }

    ghost function Stack(): seq<Level>
      reads this, inObject, seen
      requires Valid()
    {
      seq(depth, i requires 0 <= i < depth reads this, inObject, seen requires Valid() => Level(inObject[i], seen[i]))
    }

    ghost function Abs(): State
      reads this, inObject, seen
      requires Valid()
    {
      State(buf[pos..], Stack(), depth == 0 && seen[0], expectValue, done)
    }

    /** `tc_json_reader_init` */
    constructor (b: bytes)
      ensures buf == b && Valid() && Abs() == Start(b) && fresh(inObject) && fresh(seen)
    {
      buf, pos, depth, expectValue, done := b, 0, 0, false, false;
      inObject := new bool[MAX_DEPTH](_ => false);
      seen := new bool[MAX_DEPTH](_ => false);
    }

    /** `skip_ws` */
    method SkipWs()
      requires Valid()
      modifies this`pos
      ensures Valid() && buf[pos..] == AfterWs(buf[old(pos)..])
    {
      hide AfterWs;
      while pos < |buf| && Ws(buf[pos])
        invariant Valid() && AfterWs(buf[pos..]) == AfterWs(buf[old(pos)..])
      {
        AfterWsStep(buf[pos..]);
        assert buf[pos..][1..] == buf[pos + 1..];
        pos := pos + 1;
      }
      if pos < |buf| {
        AfterWsStep(buf[pos..]);
      } else {
        assert buf[pos..] == [];
        NoWs();
      }
    }

    static lemma NoWs()
      ensures AfterWs([]) == []
    {
    }

    /** The part of `scan_string` that reads one character. */
    method StringUnit() returns (rc: Result<nat>)
      requires Valid() && pos < |buf| && buf[pos] != QUOTE
      ensures rc.Ok? ==> rc.value == Unit(buf[pos..]) > 0
      ensures rc.Err? ==> Unit(buf[pos..]) == 0 && rc.error == UnitError(buf[pos..])
    {
      ghost var s := buf[pos..];
      var c := buf[pos];
      if c < 0x20 {
        return Err(Inval);
      }
      if c == BACKSLASH {
        if pos + 1 >= |buf| {
          return Err(Trunc);
        }
        var e := buf[pos + 1];
        if Simple(e) {
          return Ok(2);
        }
        if e == 0x75 {
          if |buf| - (pos + 1) < 5 {
            return Err(Trunc);
          }
          var i := 1;
          while i <= 4
            invariant 1 <= i <= 5 && AllHex(s[2..1 + i])
          {
            if Hex(buf[pos + 1 + i]) < 0 {
              assert s[2..6][i - 1] == buf[pos + 1 + i];
              return Err(Inval);
            }
            assert s[2..2 + i] == s[2..1 + i] + [buf[pos + 1 + i]];
            i := i + 1;
          }
          return Ok(6);
        }
        return Err(Inval);
      }
      ArithmeticIsGrammar(s);
      var extra := Extra(c);
      if extra > 3 {
        return Err(Inval);
      }
      if |buf| - pos - 1 < extra {
        return Err(Trunc);
      }
      if extra == 0 {
        return Ok(1);
      }
      var tails, cp := Continue(buf[pos..], extra, LeadBits(c, extra));
      if !tails || !Admissible(extra, cp) {
        return Err(Inval);
      }
      return Ok(extra + 1);
    }

    /** `scan_string` */
    method ScanString() returns (rc: Result<bytes>)
      requires Valid()
      modifies this`pos
      ensures Valid()
      ensures rc.Ok? ==> TakeString(buf[old(pos)..]) == Ok((rc.value, buf[pos..]))
      ensures rc.Err? ==> TakeString(buf[old(pos)..]) == Err(rc.error)
    {
      hide TakeString, StringEnd;
      ghost var s := buf[pos..];
      StringOpens(s);
      if pos >= |buf| || buf[pos] != QUOTE {
        return Err(Inval);
      }
      pos := pos + 1;
      var start := pos;
      assert s[1..] == buf[start..];
      var n :- ScanBody();
      assert buf[start..][..n] == buf[start..start + n] && buf[start..][n + 1..] == buf[pos..];
      return Ok(buf[start..start + n]);
    }

    /** The loop of `scan_string`: the length of the text before the closing quote. */
    method ScanBody() returns (rc: Result<nat>)
      requires Valid()
      modifies this`pos
      ensures Valid()
      ensures rc == StringEnd(buf[old(pos)..])
      ensures rc.Ok? ==> pos == old(pos) + rc.value + 1
    {
      hide StringEnd, Unit, UnitError;
      var start := pos;
      while pos < |buf|
        invariant Valid() && start <= pos
        invariant StringEnd(buf[start..]) == Later(StringEnd(buf[pos..]), pos - start)
      {
        StringNext(buf[pos..]);
        if buf[pos] == QUOTE {
          pos := pos + 1;
          return Ok(pos - 1 - start);
        }
        var n :- StringUnit();
        assert buf[pos..][n..] == buf[pos + n..];
        pos := pos + n;
      }
      assert buf[pos..] == [];
      NoEnd();
      return Err(Trunc);
    }

    static lemma StringOpens(s: bytes)
      ensures s == [] || s[0] != QUOTE ==> TakeString(s) == Err(Inval)
      ensures s != [] && s[0] == QUOTE ==>
                var e := StringEnd(s[1..]);
                TakeString(s) == if e.Ok? then Ok((s[1..][..e.value], s[1..][e.value + 1..])) else Err(e.error)
    {
      if s != [] && s[0] == QUOTE {
        var e := StringEnd(s[1..]);
        if e.Ok? {
          assert s[1..][..e.value] == s[1..1 + e.value] && s[1..][e.value + 1..] == s[2 + e.value..];
        }
      }
    }

    static lemma NoEnd()
      ensures StringEnd([]) == Err(Trunc)
    {
    }

    // ---- numbers ----

    method SkipDigits()
      requires Valid()
      modifies this`pos
      ensures Valid() && pos == old(pos) + DigitsLen(buf[old(pos)..])
    {
      hide DigitsLen;
      while pos < |buf| && Digit(buf[pos])
        invariant Valid() && pos >= old(pos)
        invariant pos + DigitsLen(buf[pos..]) == old(pos) + DigitsLen(buf[old(pos)..])
      {
        DigitsStep(buf[pos..]);
        assert buf[pos..][1..] == buf[pos + 1..];
        pos := pos + 1;
      }
      if pos < |buf| {
        DigitsStep(buf[pos..]);
      }
    }

    /** The integer part: a zero, or a digit that is not zero and more. */
    method ScanWhole() returns (rc: Result<()>)
      requires Valid()
      modifies this`pos
      ensures Valid()
      ensures var r := ScanInt(buf[old(pos)..]);
              if rc.Ok? then r.Ok? && pos == old(pos) + |r.value| else r == Err(rc.error)
    {
      if pos >= |buf| {
        return Err(Trunc);
      }
      if buf[pos] == 0x30 {
        pos := pos + 1;
      } else if 0x31 <= buf[pos] <= 0x39 {
        SkipDigits();
      } else {
        return Err(Inval);
      }
      return Ok(());
    }

    /** The fraction, if there is one. */
    method ScanFraction() returns (rc: Result<bool>)
      requires Valid()
      modifies this`pos
      ensures Valid()
      ensures var r := ScanFrac(buf[old(pos)..]);
              if rc.Ok? then r.Ok? && pos == old(pos) + |r.value| && (rc.value <==> r.value != [])
              else r == Err(rc.error)
    {
      if pos < |buf| && buf[pos] == 0x2e {
        assert buf[pos..][1..] == buf[pos + 1..];
        pos := pos + 1;
        if pos >= |buf| || !Digit(buf[pos]) {
          return Err(Inval);
        }
        SkipDigits();
        return Ok(true);
      }
      return Ok(false);
    }

    /** The exponent, if there is one. */
    method ScanExponent() returns (rc: Result<bool>)
      requires Valid()
      modifies this`pos
      ensures Valid()
      ensures var r := ScanExp(buf[old(pos)..]);
              if rc.Ok? then r.Ok? && pos == old(pos) + |r.value| && (rc.value <==> r.value != [])
              else r == Err(rc.error)
    {
      if pos < |buf| && (buf[pos] == 0x65 || buf[pos] == 0x45) {
        assert buf[pos..][1..] == buf[pos + 1..] && (pos + 1 < |buf| ==> buf[pos..][2..] == buf[pos + 2..]);
        pos := pos + 1;
        if pos < |buf| && (buf[pos] == 0x2b || buf[pos] == 0x2d) {
          pos := pos + 1;
        }
        if pos >= |buf| || !Digit(buf[pos]) {
          return Err(Inval);
        }
        SkipDigits();
        return Ok(true);
      }
      return Ok(false);
    }

    /** The magnitude of a digit string, or the news that it exceeds 64 bits. */
    static method Magnitude(d: bytes) returns (mag: u64, overflow: bool)
      requires AllDigits(d)
      ensures overflow <==> DecValue(d) > UINT64_MAX
      ensures !overflow ==> mag == DecValue(d)
    {
      hide DecValue;
      mag, overflow := 0, false;
      NoDigits();
      assert d[..0] == [];
      var i := 0;
      while i < |d|
        invariant 0 <= i <= |d| && mag == DecValue(d[..i])
      {
        var v: nat := d[i] - 0x30;
        DecStep(d, i);
        if mag > (UINT64_MAX - v) / 10 {
          DecGrows(d, i + 1);
          return mag, true;
        }
        mag := Shift10(mag, v);
        i := i + 1;
      }
      assert d[..i] == d;
    }

    /** `scan_number` */
    method ScanNumber() returns (rc: Result<Event>)
      requires Valid()
      modifies this`pos
      ensures Valid()
      ensures rc.Ok? ==> TakeNumber(buf[old(pos)..]) == Ok((rc.value, buf[pos..]))
      ensures rc.Err? ==> TakeNumber(buf[old(pos)..]) == Err(rc.error)
    {
      hide ScanNum, NumText, IntegerOf, IsNum;
      ghost var s := buf[pos..];
      var p :- ScanParts();
      ghost var n := ScanNum(s).value;
      NumSound(s);
      assert s[|NumText(n)|..] == buf[pos..];
      var v := Integer(p.1, p.0, p.2, n);
      return Ok(if v.Some? then Number(true, v.value) else Number(false, 0));
    }

    /** The grammar half of `scan_number`: the sign, the digits, and whether there is nothing else. */
    method ScanParts() returns (rc: Result<(bool, bytes, bool)>)
      requires Valid()
      modifies this`pos
      ensures Valid()
      ensures var r := ScanNum(buf[old(pos)..]);
              if rc.Ok? then
                && r.Ok? && rc.value == (r.value.neg, r.value.whole, r.value.frac == [] && r.value.exp == [])
                && pos == old(pos) + |NumText(r.value)|
              else r == Err(rc.error)
    {
      hide ScanUnsigned, NumText;
      ghost var s := buf[pos..];
      var neg := false;
      if pos < |buf| && buf[pos] == 0x2d {
        neg := true;
        pos := pos + 1;
      }
      assert buf[pos..] == if neg then s[1..] else s;
      var p :- ScanUnsignedParts(neg);
      NumSize(ScanNum(s).value);
      return Ok((neg, p.0, p.1));
    }

    method ScanUnsignedParts(neg: bool) returns (rc: Result<(bytes, bool)>)
      requires Valid()
      modifies this`pos
      ensures Valid()
      ensures var r := ScanUnsigned(neg, buf[old(pos)..]);
              if rc.Ok? then
                && r.Ok? && r.value.neg == neg && rc.value == (r.value.whole, r.value.frac == [] && r.value.exp == [])
                && pos == old(pos) + |r.value.whole| + |r.value.frac| + |r.value.exp|
              else r == Err(rc.error)
    {
      hide ScanInt, ScanFrac, ScanExp;
      var start := pos;
      var _ :- ScanWhole();
      var end := pos;
      ghost var w := ScanInt(buf[start..]).value;
      assert buf[start..][|w|..] == buf[end..];
      var frac :- ScanFraction();
      ghost var f := ScanFrac(buf[end..]).value;
      assert buf[end..][|f|..] == buf[pos..];
      var exp :- ScanExponent();
      assert w == buf[start..][..|w|] == buf[start..end];
      return Ok((buf[start..end], !frac && !exp));
    }

    static lemma NumSize(n: Num)
      ensures |NumText(n)| == (if n.neg then 1 else 0) + |n.whole| + |n.frac| + |n.exp|
    {
    }

    /** The end of `scan_number`: the value, when the number is an integer that fits. */
    static method Integer(d: bytes, neg: bool, integral: bool, ghost n: Num) returns (v: Option<int>)
      requires IsNum(n) && d == n.whole && neg == n.neg && (integral <==> n.frac == [] && n.exp == [])
      ensures v == IntegerOf(n)
    {
      if !integral {
        return None;
      }
      var mag, overflow := Magnitude(d);
      var limit := if neg then INT64_MAX + 1 else INT64_MAX;
      if overflow || mag > limit {
        return None;
      }
      if !neg {
        return Some(mag);
      } else if mag == INT64_MAX + 1 {
        return Some(-1 - INT64_MAX);
      } else {
        return Some(0 - mag as int);
      }
    }

    // ---- the event loop ----

    /** `lit` */
    method Literal(word: bytes) returns (ok: bool)
      requires Valid()
      modifies this`pos
      ensures Valid() && (ok <==> word <= buf[old(pos)..])
      ensures ok ==> buf[pos..] == buf[old(pos)..][|word|..]
    {
      ok := |buf| - pos >= |word| && buf[pos..pos + |word|] == word;
      if ok {
        pos := pos + |word|;
      }
    }

    /** The scalars of `read_value`. */
    method ReadScalar() returns (rc: Result<Event>)
      requires Valid()
      modifies this`pos
      ensures Valid()
      ensures rc.Ok? ==> TakeScalar(buf[old(pos)..]) == Ok((rc.value, buf[pos..]))
      ensures rc.Err? ==> TakeScalar(buf[old(pos)..]) == Err(rc.error)
    {
      hide TakeString, TakeNumber;
      if pos >= |buf| {
        return Err(Trunc);
      }
      var c := buf[pos];
      if c == QUOTE {
        var b :- ScanString();
        return Ok(Str(b));
      } else if c == 0x74 {
        var ok := Literal(TRUE);
        return if ok then Ok(Bool(true)) else Err(Inval);
      } else if c == 0x66 {
        var ok := Literal(FALSE);
        return if ok then Ok(Bool(false)) else Err(Inval);
      } else if c == 0x6e {
        var ok := Literal(NULL);
        return if ok then Ok(Null) else Err(Inval);
      } else {
        rc := ScanNumber();
      }
    }

    /** `read_value` */
    method ReadValue() returns (rc: Result<Event>)
      requires Valid() && !done
      modifies this, inObject, seen
      ensures Valid()
      ensures rc.Ok? ==> TakeValue(old(Abs())) == Ok((rc.value, Abs()))
      ensures rc.Err? ==> TakeValue(old(Abs())) == Err(rc.error)
    {
      hide TakeScalar;
      ghost var st := Abs();
      if pos >= |buf| {
        return Err(Trunc);
      }
      var c := buf[pos];
      if c == Opener(true) || c == Opener(false) {
        var obj := c == Opener(true);
        if depth >= MAX_DEPTH {
          return Err(TooMany);
        }
        assert st.rest[1..] == buf[pos + 1..];
        pos := pos + 1;
        inObject[depth] := obj;
        seen[depth] := false;
        depth := depth + 1;
        assert Stack() == st.stack + [Level(obj, false)];
        return Ok(Begin(obj));
      }
      var ev :- ReadScalar();
      assert Stack() == st.stack;
      return Ok(ev);
    }

    /** `tc_json_next` */
    method NextEvent() returns (rc: Result<Event>)
      requires Valid()
      modifies this, inObject, seen
      ensures Valid()
      ensures rc.Ok? ==> Next(old(Abs())) == Ok((rc.value, Abs()))
      ensures rc.Err? ==> Next(old(Abs())) == Err(rc.error)
    {
      hide TakeTop, TakeClose, TakeInner, TakeComma, TakeKey, AfterWs;
      if done {
        return Ok(End);
      }
      ghost var st := Abs();
      SkipWs();
      assert Stack() == st.stack;
      assert Abs() == st.(rest := AfterWs(st.rest));
      if depth == 0 {
        if seen[0] {
          if pos < |buf| {
            return Err(Inval);
          }
          done := true;
          assert Stack() == [];
          return Ok(End);
        }
        rc := NextTop();
        return;
      }
      var obj := inObject[depth - 1];
      if pos >= |buf| {
        return Err(Trunc);
      }
      if buf[pos] == Closer(obj) {
        rc := NextClose();
        return;
      }
      if expectValue {
        expectValue := false;
        assert Abs() == st.(rest := AfterWs(st.rest), due := false);
        rc := NextInner();
        return;
      }
      var _ :- NextComma();
      assert Stack() == st.stack;
      assert Abs() == st.(rest := buf[pos..]);
      if obj {
        rc := NextKey();
      } else {
        rc := NextInner();
      }
    }

    /** `tc_json_next` at the outermost level, before the value. */
    method NextTop() returns (rc: Result<Event>)
      requires Valid() && !done && depth == 0 && !seen[0]
      modifies this, inObject, seen
      ensures Valid()
      ensures rc.Ok? ==> TakeTop(old(Abs())) == Ok((rc.value, Abs()))
      ensures rc.Err? ==> TakeTop(old(Abs())) == Err(rc.error)
    {
      hide TakeValue, AfterWs;
      ghost var st := Abs();
      seen[0] := true;
      assert Abs() == st.(started := true);
      var ev :- ReadValue();
      ghost var st' := Abs();
      if depth == 0 {
        SkipWs();
        if pos < |buf| {
          return Err(Inval);
        }
        done := true;
        assert Stack() == st'.stack == [];
      }
      return Ok(ev);
    }

    /** `tc_json_next` on the bracket that closes the innermost level. */
    method NextClose() returns (rc: Result<Event>)
      requires Valid() && !done && depth > 0 && pos < |buf|
      modifies this, inObject, seen
      ensures Valid()
      ensures rc.Ok? ==> TakeClose(old(Abs())) == Ok((rc.value, Abs()))
      ensures rc.Err? ==> TakeClose(old(Abs())) == Err(rc.error)
    {
      hide AfterWs;
      ghost var st := Abs();
      var obj := inObject[depth - 1];
      if expectValue {
        return Err(Inval);
      }
      assert st.rest[1..] == buf[pos + 1..];
      pos := pos + 1;
      depth := depth - 1;
      assert Stack() == st.stack[..|st.stack| - 1];
      if depth == 0 {
        SkipWs();
        if pos < |buf| {
          return Err(Inval);
        }
        done := true;
        assert Stack() == [];
      } else {
        ghost var outer := Stack();
        seen[depth - 1] := true;
        assert Stack() == MarkSeen(outer);
      }
      return Ok(Close(obj));
    }

    /** `tc_json_next` on a value inside a container. */
    method NextInner() returns (rc: Result<Event>)
      requires Valid() && !done && depth > 0
      modifies this, inObject, seen
      ensures Valid()
      ensures rc.Ok? ==> TakeInner(old(Abs())) == Ok((rc.value, Abs()))
      ensures rc.Err? ==> TakeInner(old(Abs())) == Err(rc.error)
    {
      hide TakeValue;
      ghost var st := Abs();
      var lvl := depth - 1;
      rc := ReadValue();
      if rc.Ok? && !rc.value.Begin? {
        ScalarKeepsStack(st);
        ghost var st' := Abs();
        assert |st'.stack| == depth;
        seen[lvl] := true;
        assert Stack() == MarkSeen(st.stack);
      }
    }

    static lemma ScalarKeepsStack(st: State)
      requires TakeValue(st).Ok? && !TakeValue(st).value.0.Begin?
      ensures TakeValue(st).value.1.stack == st.stack
    {
      hide TakeScalar;
    }

    /** The comma of `tc_json_next`. */
    method NextComma() returns (rc: Result<()>)
      requires Valid() && !done && depth > 0 && pos < |buf|
      modifies this`pos
      ensures Valid()
      ensures var lvl := Level(inObject[depth - 1], seen[depth - 1]);
              var r := TakeComma(buf[old(pos)..], lvl);
              if rc.Ok? then r == Ok(buf[pos..]) else r == Err(rc.error)
    {
      hide AfterWs;
      if seen[depth - 1] {
        if buf[pos] != 0x2c {
          return Err(Inval);
        }
        assert buf[pos..][1..] == buf[pos + 1..];
        pos := pos + 1;
        SkipWs();
        if pos >= |buf| {
          return Err(Trunc);
        }
        if buf[pos] == Closer(inObject[depth - 1]) {
          return Err(Inval);
        }
      }
      return Ok(());
    }

    /** `tc_json_next` on a member name. */
    method NextKey() returns (rc: Result<Event>)
      requires Valid() && !done
      modifies this
      ensures Valid()
      ensures rc.Ok? ==> TakeKey(old(Abs())) == Ok((rc.value, Abs()))
      ensures rc.Err? ==> TakeKey(old(Abs())) == Err(rc.error)
    {
      hide AfterWs, TakeString;
      ghost var st := Abs();
      var b :- ScanString();
      SkipWs();
      if pos >= |buf| {
        return Err(Trunc);
      }
      if buf[pos] != 0x3a {
        return Err(Inval);
      }
      assert buf[pos..][1..] == buf[pos + 1..];
      pos := pos + 1;
      expectValue := true;
      assert Stack() == st.stack;
      return Ok(Key(b));
    }

    /** `tc_json_skip_value` */
    method SkipValue() returns (rc: Result<()>)
      requires Valid()
      modifies this, inObject, seen
      ensures Valid()
      ensures rc.Ok? ==> SkipOne(old(Abs())) == Ok(Abs())
      ensures rc.Err? ==> SkipOne(old(Abs())) == Err(rc.error)
    {
      hide Next, SkipLoop;
      ghost var st := Abs();
      var ev :- NextEvent();
      if !ev.Begin? {
        return Ok(());
      }
      BeginOpens(st);
      var target := depth - 1;
      while depth > target
        invariant Valid() && SkipOne(st) == SkipLoop(Abs(), target)
        decreases |buf| - pos
      {
        ghost var before := Abs();
        SkipMore(before, target);
        ev :- NextEvent();
        if ev.End? {
          return Err(Trunc);
        }
        NextShrinks(before);
      }
      SkipEnds(Abs(), target);
      return Ok(());
    }

    static lemma BeginOpens(st: State)
      requires Next(st).Ok? && Next(st).value.0.Begin?
      ensures Next(st).value.1.stack != []
    {
      hide AfterWs, TakeString, ScanNum, IntegerOf, NumText, TakeComma;
    }

    static lemma SkipEnds(st: State, target: nat)
      requires |st.stack| <= target
      ensures SkipLoop(st, target) == Ok(st)
    {
      hide Next;
    }
  }

  const UINT64_MAX: nat := 0xffff_ffff_ffff_ffff

  function Shift10(v: int, d: int): int {
    v * 10 + d
  }

  lemma NoDigits()
    ensures DecValue([]) == 0
  {
  }

  lemma DigitsStep(s: bytes)
    requires s != []
    ensures DigitsLen(s) == if Digit(s[0]) then 1 + DigitsLen(s[1..]) else 0
  {
  }

  lemma DecStep(d: bytes, i: nat)
    requires i < |d|
    ensures DecValue(d[..i + 1]) == DecValue(d[..i]) * 10 + (d[i] as int - 0x30)
  {
    assert d[..i + 1][..i] == d[..i];
  }

  /** More digits never make a number smaller. */
  lemma {:induction false} DecGrows(d: bytes, i: nat)
    requires i <= |d| && AllDigits(d)
    ensures 0 <= DecValue(d[..i]) <= DecValue(d)
    decreases |d|
  {
    if i == |d| {
      assert d[..i] == d;
      if d != [] {
        DecGrows(d[..|d| - 1], |d| - 1);
      }
    } else {
      var d' := d[..|d| - 1];
      DecGrows(d', i);
      assert d'[..i] == d[..i];
    }
  }

  /** A position found k bytes further on. */
  function Later(r: Result<nat>, k: nat): Result<nat> {
    if r.Ok? then Ok(k + r.value) else r
  }
}
