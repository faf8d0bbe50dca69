/** The CBOR subset of tailcat addresses: a strict reader, an iterative skip, and a writer with a sticky error. */
module Cbor {
  import opened Words
  import opened Errors
  import Utf8

  datatype Kind = UInt | NInt | ByteString | Text | Array | Map | Simple

  datatype Item = Item(kind: Kind, val: u64, data: bytes)

  datatype Head = Head(major: nat, val: u64, size: nat)

  // ---- heads ----

  function BigEndian(s: bytes): nat {
    if s == [] then 0 else BigEndian(s[..|s| - 1]) * 0x100 + s[|s| - 1]
  }

  lemma {:induction false} BigEndianBound(s: bytes)
    ensures BigEndian(s) < Pow(0x100, |s|)
  {
    if s != [] {
      BigEndianBound(s[..|s| - 1]);
    }
  }

  lemma BigEndianFits(s: bytes)
    requires |s| <= 8
    ensures BigEndian(s) < 0x1_0000_0000_0000_0000
  {
    BigEndianBound(s);
    var n := |s|;
    assert Pow(0x100, 1) == 0x100 && Pow(0x100, 2) == 0x1_0000;
    assert Pow(0x100, 3) == 0x100_0000 && Pow(0x100, 4) == 0x1_0000_0000;
    assert Pow(0x100, 5) == 0x100_0000_0000 && Pow(0x100, 6) == 0x1_0000_0000_0000;
    assert Pow(0x100, 7) == 0x100_0000_0000_0000 && Pow(0x100, 8) == 0x1_0000_0000_0000_0000;
  }

  lemma BigEndianStep(s: bytes, b: u8)
    ensures BigEndian(s + [b]) == BigEndian(s) * 0x100 + b
  {
    assert (s + [b])[..|s|] == s;
  }

  /** Bytes of argument that follow an initial byte with additional information 24 to 27. */
  function ArgLen(ai: nat): nat
    requires 24 <= ai <= 27
  {
    if ai == 24 then 1 else if ai == 25 then 2 else if ai == 26 then 4 else 8
  }

  /** The head at the front of s, by section 3 of RFC 8949; definite lengths only. */
  function HeadOf(s: bytes): (r: Result<Head>)
    ensures r.Ok? ==> 1 <= r.value.size <= |s| && r.value.major < 8
  {
    if s == [] then Err(Trunc)
    else
      var major, ai := s[0] / 0x20, s[0] % 0x20;
      if ai < 24 then Ok(Head(major, ai, 1))
      else if ai <= 27 then
        if |s| < 1 + ArgLen(ai) then Err(Trunc)
        else
          var arg := s[1..1 + ArgLen(ai)];
          BigEndianFits(arg);
          Ok(Head(major, BigEndian(arg), 1 + ArgLen(ai)))
      else if ai == 31 then Err(Unsupported)
      else Err(Inval)
  }

  /** `read_head` */
  method ReadHead(buf: bytes, pos: nat) returns (rc: Result<Head>)
    requires pos <= |buf|
    ensures rc == HeadOf(buf[pos..])
  {
    ghost var s := buf[pos..];
    if pos >= |buf| {
      return Err(Trunc);
    }
    var ib := buf[pos];
    var p, mt, ai := pos + 1, ib / 0x20, ib % 0x20;
    var v: u64;
    if ai < 24 {
      v := ai;
    } else if ai <= 27 {
      var nbytes := ArgLen(ai);
      if |buf| - p < nbytes {
        return Err(Trunc);
      }
      v := 0;
      assert s[1..1] == [];
      var i := 0;
      while i < nbytes
        invariant 0 <= i <= nbytes && v == BigEndian(s[1..1 + i])
      {
        assert s[1..1 + i] + [buf[p + i]] == s[1..2 + i];
        BigEndianStep(s[1..1 + i], buf[p + i]);
        BigEndianFits(s[1..2 + i]);
        v := Shift8(v, buf[p + i]);
        i := i + 1;
      }
      p := p + nbytes;
    } else if ai == 31 {
      return Err(Unsupported);
    } else {
      return Err(Inval);
    }
    return Ok(Head(mt, v, p - pos));
  }

  /** `v << 8 | b`, where nothing is shifted out. */
  function Shift8(v: int, b: int): int {
    v * 0x100 + b
  }

  // ---- items ----

  /** The item at the front of s, and what follows it; for containers, only the head. */
  function NextItem(s: bytes): (r: Result<(Item, bytes)>)
    ensures r.Ok? ==> |r.value.1| < |s|
    ensures r.Ok? ==> Children(r.value.0) <= |r.value.1|
  {
    var h :- HeadOf(s);
    AfterHead(h, s[h.size..])
  }

  /** What a head means, given the bytes after it. */
  function AfterHead(h: Head, rest: bytes): (r: Result<(Item, bytes)>)
    ensures r.Ok? ==> |r.value.1| <= |rest|
    ensures r.Ok? ==> Children(r.value.0) <= |r.value.1|
  {
    if h.major == 0 then Ok((Item(UInt, h.val, []), rest))
    else if h.major == 1 then Ok((Item(NInt, h.val, []), rest))
    else if h.major == 2 || h.major == 3 then
      if h.val > |rest| then Err(Trunc)
      else if h.major == 3 && !Utf8.WellFormed(rest[..h.val]) then Err(Inval)
      else Ok((Item(if h.major == 2 then ByteString else Text, h.val, rest[..h.val]), rest[h.val..]))
    else if h.major == 4 then
      if h.val > |rest| then Err(Trunc) else Ok((Item(Array, h.val, []), rest))
    else if h.major == 5 then
      if h.val > |rest| / 2 then Err(Trunc) else Ok((Item(Map, h.val, []), rest))
    else if h.major == 6 then Err(Unsupported)
    else if h.val < 20 || h.val > 23 then Err(Unsupported)
    else Ok((Item(Simple, h.val, []), rest))
  }

  /** Items that still belong to a container after its head. */
  function Children(it: Item): nat {
    if it.kind == Array then it.val else if it.kind == Map then 2 * it.val as int else 0
  }

  // ---- typed items ----

  const FALSE: u64 := 20
  const TRUE: u64 := 21

  /** The 64-bit integer at the front of s. */
  function NextInt(s: bytes): (r: Result<(int, bytes)>)
    ensures r.Ok? ==> Int64(r.value.0) && |r.value.1| < |s|
  {
    var (it, rest) :- NextItem(s);
    if it.kind != UInt && it.kind != NInt then Err(Inval)
    else if it.val > INT64_MAX then Err(Range)
    else Ok((if it.kind == UInt then it.val else -1 - it.val as int, rest))
  }

  function NextBool(s: bytes): (r: Result<(bool, bytes)>)
    ensures r.Ok? ==> |r.value.1| < |s|
  {
    var (it, rest) :- NextItem(s);
    if it.kind == Simple && it.val == FALSE then Ok((false, rest))
    else if it.kind == Simple && it.val == TRUE then Ok((true, rest))
    else Err(Inval)
  }

  function NextBytes(s: bytes, n: nat): (r: Result<(bytes, bytes)>)
    ensures r.Ok? ==> |r.value.0| == n && |r.value.1| < |s|
  {
    var (it, rest) :- NextItem(s);
    if it.kind == ByteString && |it.data| == n then Ok((it.data, rest)) else Err(Inval)
  }

  /** A string that fits in a C buffer of cap bytes: UTF-8, no NUL inside. */
  predicate CString(t: bytes, cap: nat) {
    |t| < cap && 0 !in t && Utf8.WellFormed(t)
  }

  function NextText(s: bytes, cap: nat): (r: Result<(bytes, bytes)>)
    ensures r.Ok? ==> CString(r.value.0, cap) && |r.value.1| < |s|
  {
    var (it, rest) :- NextItem(s);
    if it.kind != Text then Err(Inval)
    else if |it.data| >= cap then Err(NoSpace)
    else if 0 in it.data then Err(Inval)
    else TextIsUtf8(s); Ok((it.data, rest))
  }

  lemma TextIsUtf8(s: bytes)
    requires NextItem(s).Ok? && NextItem(s).value.0.kind == Text
    ensures Utf8.WellFormed(NextItem(s).value.0.data)
  {
  }

  class Reader {
    const buf: bytes
    var pos: nat

    ghost predicate Valid()
      reads this
    {
      pos <= |buf|
    }

    constructor (b: bytes)
      ensures buf == b && Valid() && buf[pos..] == b
    {
      buf, pos := b, 0;
    }

    method Remaining() returns (n: nat)
      requires Valid()
      ensures n == |buf[pos..]|
    {
      n := |buf| - pos;
    }

    /** `read_item`: the item at pos and the position after it. */
    method ReadItem() returns (rc: Result<(Item, nat)>)
      requires Valid()
      ensures rc.Ok? ==> rc.value.1 <= |buf| && NextItem(buf[pos..]) == Ok((rc.value.0, buf[rc.value.1..]))
      ensures rc.Err? ==> NextItem(buf[pos..]) == Err(rc.error)
    {
      hide HeadOf, AfterHead;
      var h :- ReadHead(buf, pos);
      assert buf[pos..][h.size..] == buf[pos + h.size..];
      rc := ReadBody(h, pos + h.size);
    }

    /** The part of `read_item` that follows the head. */
    method ReadBody(h: Head, p: nat) returns (rc: Result<(Item, nat)>)
      requires p <= |buf|
      ensures rc.Ok? ==> rc.value.1 <= |buf| && AfterHead(h, buf[p..]) == Ok((rc.value.0, buf[rc.value.1..]))
      ensures rc.Err? ==> AfterHead(h, buf[p..]) == Err(rc.error)
    {
      hide Utf8.WellFormed;
      var remaining := |buf| - p;
      if h.major == 0 {
        return Ok((Item(UInt, h.val, []), p));
      } else if h.major == 1 {
        return Ok((Item(NInt, h.val, []), p));
      } else if h.major == 2 || h.major == 3 {
        if h.val > remaining {
          return Err(Trunc);
        }
        assert buf[p..][..h.val] == buf[p..p + h.val] && buf[p..][h.val..] == buf[p + h.val..];
        if h.major == 3 {
          var valid := Utf8.Utf8Valid(buf[p..p + h.val]);
          if !valid {
            return Err(Inval);
          }
        }
        return Ok((Item(if h.major == 2 then ByteString else Text, h.val, buf[p..p + h.val]), p + h.val));
      } else if h.major == 4 {
        if h.val > remaining {
          return Err(Trunc);
        }
        return Ok((Item(Array, h.val, []), p));
      } else if h.major == 5 {
        if h.val > remaining / 2 {
          return Err(Trunc);
        }
        return Ok((Item(Map, h.val, []), p));
      } else if h.major == 6 {
        return Err(Unsupported);
      } else {
        if h.val < 20 || h.val > 23 {
          return Err(Unsupported);
        }
        return Ok((Item(Simple, h.val, []), p));
      }
    }

    /** `tc_cbor_read` */
    method Read() returns (rc: Result<Item>)
      requires Valid()
      modifies this
      ensures Valid() && pos >= old(pos)
      ensures rc.Ok? ==> NextItem(old(buf[pos..])) == Ok((rc.value, buf[pos..]))
      ensures rc.Err? ==> NextItem(old(buf[pos..])) == Err(rc.error) && pos == old(pos)
    {
      var it :- ReadItem();
      assert |buf[it.1..]| < |buf[pos..]|;
      pos := it.1;
      return Ok(it.0);
    }

    /** `tc_cbor_peek` */
    method Peek() returns (rc: Result<Item>)
      requires Valid()
      ensures rc.Ok? ==> NextItem(buf[pos..]).Ok? && NextItem(buf[pos..]).value.0 == rc.value
      ensures rc.Err? ==> NextItem(buf[pos..]) == Err(rc.error)
    {
      var it :- ReadItem();
      return Ok(it.0);
    }

    /** `tc_cbor_read_int` */
    method ReadInt() returns (rc: Result<int>)
      requires Valid()
      modifies this
      ensures Valid() && pos >= old(pos)
      ensures rc.Ok? ==> NextInt(buf[old(pos)..]) == Ok((rc.value, buf[pos..]))
      ensures rc.Err? ==> NextInt(buf[old(pos)..]) == Err(rc.error)
    {
      hide NextItem;
      var it :- Read();
      if it.kind == UInt {
        if it.val > INT64_MAX {
          return Err(Range);
        }
        return Ok(it.val);
      }
      if it.kind == NInt {
        if it.val > INT64_MAX {
          return Err(Range);
        }
        return Ok(-1 - it.val as int);
      }
      return Err(Inval);
    }

    /** `tc_cbor_read_bool` */
    method ReadBool() returns (rc: Result<bool>)
      requires Valid()
      modifies this
      ensures Valid() && pos >= old(pos)
      ensures rc.Ok? ==> NextBool(buf[old(pos)..]) == Ok((rc.value, buf[pos..]))
      ensures rc.Err? ==> NextBool(buf[old(pos)..]) == Err(rc.error)
    {
      hide NextItem;
      var it :- Read();
      if it.kind != Simple || (it.val != FALSE && it.val != TRUE) {
        return Err(Inval);
      }
      return Ok(it.val == TRUE);
    }

    /** `tc_cbor_read_bytes_exact` */
    method ReadBytesExact(n: nat) returns (rc: Result<bytes>)
      requires Valid()
      modifies this
      ensures Valid() && pos >= old(pos)
      ensures rc.Ok? ==> NextBytes(buf[old(pos)..], n) == Ok((rc.value, buf[pos..]))
      ensures rc.Err? ==> NextBytes(buf[old(pos)..], n) == Err(rc.error)
    {
      hide NextItem;
      var it :- Read();
      if it.kind != ByteString {
        return Err(Inval);
      }
      if |it.data| != n {
        return Err(Inval);
      }
      return Ok(it.data);
    }

    /** `tc_cbor_read_text` into a buffer that also takes a NUL; the result is the length of the text. */
    method ReadText(out: array<u8>) returns (rc: Result<nat>)
      requires Valid()
      modifies this, out
      ensures Valid() && pos >= old(pos)
      ensures rc.Ok? ==> rc.value < out.Length && out[rc.value] == 0
      ensures rc.Ok? ==> NextText(buf[old(pos)..], out.Length) == Ok((out[..rc.value], buf[pos..]))
      ensures rc.Err? ==> NextText(buf[old(pos)..], out.Length) == Err(rc.error) && out[..] == old(out[..])
    {
      hide NextItem;
      var it :- Read();
      if it.kind != Text {
        return Err(Inval);
      }
      if out.Length == 0 || |it.data| > out.Length - 1 {
        return Err(NoSpace);
      }
      if 0 in it.data {
        return Err(Inval);
      }
      var n := |it.data|;
      forall i | 0 <= i < n {
        out[i] := it.data[i];
      }
      out[n] := 0;
      assert out[..n] == it.data;
      return Ok(n);
    }

    /** A text field of cap bytes, as a value. */
    method ReadField(cap: nat) returns (rc: Result<bytes>)
      requires Valid()
      modifies this
      ensures Valid() && pos >= old(pos)
      ensures rc.Ok? ==> NextText(buf[old(pos)..], cap) == Ok((rc.value, buf[pos..]))
      ensures rc.Err? ==> NextText(buf[old(pos)..], cap) == Err(rc.error)
    {
      hide NextText;
      var field := new u8[cap];
      var n :- ReadText(field);
      return Ok(field[..n]);
    }

    /** One turn of the loop in `tc_cbor_skip`: the items owed after the next head. */
    method SkipHead(pending: u64) returns (rc: Result<u64>)
      requires Valid() && pending > 0
      modifies this
      ensures Valid() && pos >= old(pos)
      ensures rc.Ok? ==>
                && NextItem(old(buf[pos..])).Ok? && NextItem(old(buf[pos..])).value.1 == buf[pos..]
                && rc.value == Wrap64(pending - 1 + Children(NextItem(old(buf[pos..])).value.0))
      ensures rc.Err? ==> NextItem(old(buf[pos..])) == Err(rc.error)
    {
      hide NextItem;
      var it :- Read();
      var p := pending - 1;
      if it.kind == Array {
        p := Wrap64(p + it.val as int);
      } else if it.kind == Map {
        p := Wrap64(p + it.val as int * 2);
      }
      return Ok(p);
    }

    /** `tc_cbor_skip`; `pending` wraps at 64 bits as it does in the source. */
    method Skip() returns (rc: Result<()>)
      requires Valid()
      modifies this
      ensures Valid() && pos >= old(pos)
      ensures rc.Ok? ==> SkipLoop(1, old(buf[pos..])) == Ok(buf[pos..])
      ensures rc.Err? ==> SkipLoop(1, old(buf[pos..])) == Err(rc.error)
      ensures |buf| < TWO64 && OneItem(old(buf[pos..])).Ok? ==> SkipLoop(1, old(buf[pos..])) == OneItem(old(buf[pos..]))
      ensures |buf| < BUFFER_MAX ==> SkipLoop(1, old(buf[pos..])) == OneItem(old(buf[pos..]))
    {
      hide NextItem, OneItem, SkipLoop, Wrap64, Children, Skipping;
      ghost var s := buf[pos..];
      SkipLoopResult(s);
      SkipStart(s);
      var pending: u64 := 1;
      while pending > 0
        invariant Valid() && pos >= old(pos) && Skipping(s, pending, buf[pos..])
        decreases |buf| - pos
      {
        SkipTurn(s, pending, buf[pos..]);
        pending :- SkipHead(pending);
      }
      SkipEnd(s, buf[pos..]);
      return Ok(());
    }
  }

  // ---- skipping ----

  const BUFFER_MAX: nat := 0x1_0000_0000

  /** One complete item, with everything inside it; the result is what follows. */
  function OneItem(s: bytes): (r: Result<bytes>)
    decreases |s|, 0
    ensures r.Ok? ==> |r.value| < |s|
  {
    var (it, rest) :- NextItem(s);
    Items(Children(it), rest)
  }

  /** k complete items in a row. */
  function Items(k: nat, s: bytes): (r: Result<bytes>)
    decreases |s|, k + 1
    ensures r.Ok? ==> |r.value| + k <= |s|
  {
    if k == 0 then Ok(s)
    else
      var rest :- OneItem(s);
      Items(k - 1, rest)
  }

  lemma OneOfOne(s: bytes)
    ensures Items(1, s) == OneItem(s)
    ensures SkipRun(s, 0) == Ok(SkipState(1, s))
  {
  }

  /** Reading a + b items is reading a and then b. */
  lemma {:induction false} ItemsSplit(a: nat, b: nat, s: bytes)
    ensures Items(a + b, s) == if Items(a, s).Ok? then Items(b, Items(a, s).value) else Items(a, s)
    decreases a
  {
    hide NextItem;
    if a > 0 {
      var one := OneItem(s);
      if one.Ok? {
        ItemsSplit(a - 1, b, one.value);
        assert Items(a + b, s) == Items(a - 1 + b, one.value);
      }
    }
  }

  /** A container's items may be read along with the items owed after it. */
  lemma SkipOne(p: nat, s: bytes)
    ensures var n := NextItem(s);
            Items(p + 1, s) == if n.Ok? then Items(p + Children(n.value.0), n.value.1) else n.PropagateFailure()
  {
    hide NextItem;
    var n := NextItem(s);
    if n.Ok? {
      ItemsSplit(Children(n.value.0), p, n.value.1);
    }
  }

  /** The loop's state: items owed, and the bytes not yet read. */
  datatype SkipState = SkipState(pending: nat, rest: bytes)

  /** One turn of the loop, without wrap-around; an error when there is nothing more to do or the read fails. */
  function SkipStep(c: SkipState): (r: Result<SkipState>) {
    if c.pending == 0 then Err(Range)
    else
      var (it, rest) :- NextItem(c.rest);
      Ok(SkipState(c.pending - 1 + Children(it), rest))
  }

  /** The state after n turns. */
  function SkipRun(s: bytes, n: nat): (r: Result<SkipState>) {
    if n == 0 then Ok(SkipState(1, s))
    else
      var c :- SkipRun(s, n - 1);
      SkipStep(c)
  }

  lemma SkipMore(s: bytes, n: nat)
    requires SkipRun(s, n).Ok?
    ensures SkipRun(s, n + 1) == SkipStep(SkipRun(s, n).value)
  {
    hide SkipStep;
  }

  /** Every turn consumes a byte, and what is owed is at most quadratic in the buffer. */
  lemma {:induction false} SkipBound(s: bytes, n: nat)
    ensures SkipRun(s, n).Ok? ==>
              var c := SkipRun(s, n).value;
              |c.rest| + n <= |s| && c.pending <= 1 + (|s| - |c.rest|) * |s|
  {
    hide NextItem;
    if n > 0 {
      SkipBound(s, n - 1);
      if SkipRun(s, n).Ok? {
        var c, c' := SkipRun(s, n - 1).value, SkipRun(s, n).value;
        assert c'.pending <= c.pending + |s|;
        Scaled(|s| - |c.rest|, |s| - |c'.rest|, |s|);
      }
    }
  }

  lemma Scaled(a: nat, b: nat, m: nat)
    requires a < b
    ensures a * m + m <= b * m
  {
    assert b * m == a * m + (b - a) * m;
    MulAtLeast(m, b - a);
  }

  /** The loop as it stands, its counter wrapping: the result is what follows. */
  function SkipLoop(pending: u64, s: bytes): (r: Result<bytes>)
    decreases |s|
  {
    if pending == 0 then Ok(s)
    else
      var (it, rest) :- NextItem(s);
      SkipLoop(Wrap64(pending - 1 + Children(it)), rest)
  }

  lemma SkipLoopNext(pending: u64, s: bytes)
    ensures var n := NextItem(s);
            SkipLoop(pending, s) == if pending == 0 then Ok(s)
                                    else if n.Ok? then SkipLoop(Wrap64(pending - 1 + Children(n.value.0)), n.value.1)
                                    else n.PropagateFailure()
  {
    hide NextItem, Wrap64;
  }

  /** The loop's invariant: what the whole comes to is what is still to be done. */
  ghost predicate Skipping(s: bytes, pending: u64, rest: bytes) {
    SkipLoop(1, s) == SkipLoop(pending, rest)
  }

  lemma SkipStart(s: bytes)
    ensures Skipping(s, 1, s)
  {
  }

  lemma SkipTurn(s: bytes, pending: u64, rest: bytes)
    requires pending > 0 && Skipping(s, pending, rest)
    ensures var next := NextItem(rest);
            if next.Ok? then Skipping(s, Wrap64(pending - 1 + Children(next.value.0)), next.value.1)
            else SkipLoop(1, s) == Err(next.error)
  {
    hide NextItem, SkipLoop, Wrap64;
    SkipLoopNext(pending, rest);
  }

  lemma SkipEnd(s: bytes, rest: bytes)
    requires Skipping(s, 0, rest)
    ensures SkipLoop(1, s) == Ok(rest)
  {
    hide SkipLoop;
    SkipLoopNext(0, rest);
  }

  /** Where there are as many items as are owed, the counter never wraps: each of them takes a byte. */
  lemma {:induction false} SkipLoopSucceeds(pending: u64, s: bytes)
    requires |s| < TWO64 && Items(pending, s).Ok?
    ensures SkipLoop(pending, s) == Items(pending, s)
    decreases |s|
  {
    hide NextItem, Items, SkipLoop, Wrap64;
    SkipLoopNext(pending, s);
    if pending == 0 {
      NoItems(s);
    } else {
      SkipOne(pending - 1, s);
      var (it, rest) := NextItem(s).value;
      var p := pending - 1 + Children(it);
      Unwrapped(p);
      SkipLoopSucceeds(p, rest);
    }
  }

  lemma NoItems(s: bytes)
    ensures Items(0, s) == Ok(s)
  {
  }

  lemma Unwrapped(v: nat)
    requires v < TWO64
    ensures Wrap64(v) == v
  {
  }

  /** Nor does it wrap where the square of the length still fits. */
  lemma {:induction false} SkipLoopShort(pending: u64, s: bytes)
    requires pending + |s| * |s| < TWO64
    ensures SkipLoop(pending, s) == Items(pending, s)
    decreases |s|
  {
    hide NextItem, Items, SkipLoop, Wrap64;
    SkipLoopNext(pending, s);
    if pending == 0 {
      NoItems(s);
    } else {
      SkipOne(pending - 1, s);
      if NextItem(s).Ok? {
        var (it, rest) := NextItem(s).value;
        var p := pending - 1 + Children(it);
        SquareStep(|rest|, |s|);
        Unwrapped(p);
        SkipLoopShort(p, rest);
      }
    }
  }

  lemma SquareStep(a: nat, b: nat)
    requires a < b
    ensures a * a + a <= b * b
  {
    MulBound(a, a + 1, b, b);
  }

  lemma SkipLoopResult(s: bytes)
    ensures |s| < TWO64 && OneItem(s).Ok? ==> SkipLoop(1, s) == OneItem(s)
    ensures |s| < BUFFER_MAX ==> SkipLoop(1, s) == OneItem(s)
  {
    hide NextItem, Items, SkipLoop, OneItem;
    OneOfOne(s);
    if |s| < TWO64 && OneItem(s).Ok? {
      SkipLoopSucceeds(1, s);
    }
    if |s| < BUFFER_MAX {
      MulBound(|s|, |s|, BUFFER_MAX - 1, BUFFER_MAX - 1);
      SkipLoopShort(1, s);
    }
  }

  /** On a run that ends well, what is owed never exceeds the bytes that are left. */
  lemma SuccessBound(s: bytes, n: nat)
    requires OneItem(s).Ok? && SkipRun(s, n).Ok?
    ensures SkipRun(s, n).value.pending <= |SkipRun(s, n).value.rest|
    ensures OneItem(s) == Items(SkipRun(s, n).value.pending, SkipRun(s, n).value.rest)
  {
    RunKeepsResult(s, n);
  }

  lemma {:induction false} RunKeepsResult(s: bytes, n: nat)
    requires SkipRun(s, n).Ok?
    ensures OneItem(s) == Items(SkipRun(s, n).value.pending, SkipRun(s, n).value.rest)
  {
    hide NextItem, Items, OneItem;
    if n == 0 {
      OneOfOne(s);
    } else {
      RunKeepsResult(s, n - 1);
      var c := SkipRun(s, n - 1).value;
      SkipOne(c.pending - 1, c.rest);
    }
  }

  lemma ShortArray(s: bytes, k: u64)
    requires k < 24 && s != [] && s[0] == 0x80 + k && k < |s|
    ensures NextItem(s) == Ok((Item(Array, k, []), s[1..]))
  {
    hide Utf8.WellFormed, BigEndian;
    assert HeadOf(s) == Ok(Head(4, k, 1));
    hide HeadOf;
  }

  /** On a run that fails, what is owed can exceed the whole buffer. */
  lemma OwedMoreThanBuffer()
    ensures var s: bytes := [0x84, 0x83, 0x82, 0x81, 0x00];
            && SkipRun(s, 2).Ok? && SkipRun(s, 2).value.pending == 6 > |s|
            && OneItem(s).Err?
  {
    var s: bytes := [0x84, 0x83, 0x82, 0x81, 0x00];
    ShortArray(s, 4);
    ShortArray(s[1..], 3);
    hide NextItem, Items, OneItem;
    assert s[1..][1..] == s[2..];
    assert SkipRun(s, 0) == Ok(SkipState(1, s));
    assert SkipRun(s, 1) == Ok(SkipState(4, s[1..]));
    assert SkipRun(s, 2) == Ok(SkipState(6, s[2..]));
    RunKeepsResult(s, 2);
  }

  // ---- writing ----

  /** `v >> 8 * k` */
  function Shift8Right(v: nat, k: nat): nat
    decreases k
  {
    if k == 0 then v else Shift8Right(v / 0x100, k - 1)
  }

  /** The low n bytes of v, most significant first. */
  function BigEndianBytes(v: nat, n: nat): bytes {
    seq(n, i requires 0 <= i < n => Shift8Right(v, n - 1 - i) % 0x100)
  }

  lemma {:induction false} BigEndianInverse(v: nat, n: nat)
    requires v < Pow(0x100, n)
    ensures BigEndian(BigEndianBytes(v, n)) == v
  {
    if n > 0 {
      var s := BigEndianBytes(v, n);
      BigEndianInverse(v / 0x100, n - 1);
      assert s[n - 1] == Shift8Right(v, 0) % 0x100;
      forall i | 0 <= i < n - 1 ensures s[i] == Shift8Right(v / 0x100, n - 2 - i) % 0x100 {
        assert Shift8Right(v, n - 1 - i) == Shift8Right(v / 0x100, n - 2 - i);
      }
      assert s[..n - 1] == BigEndianBytes(v / 0x100, n - 1);
    }
  }

  /** The shortest head for a major type and an argument. */
  function HeadBytes(major: nat, v: u64): (r: bytes)
    requires major < 8
    ensures 1 <= |r| <= 9
  {
    if v < 24 then [major * 0x20 + v]
    else if v <= 0xff then [major * 0x20 + 24] + BigEndianBytes(v, 1)
    else if v <= 0xffff then [major * 0x20 + 25] + BigEndianBytes(v, 2)
    else if v <= 0xffff_ffff then [major * 0x20 + 26] + BigEndianBytes(v, 4)
    else [major * 0x20 + 27] + BigEndianBytes(v, 8)
  }

  /** A written head reads back, whatever follows it. */
  lemma HeadRoundTrip(major: nat, v: u64, rest: bytes)
    requires major < 8
    ensures HeadOf(HeadBytes(major, v) + rest) == Ok(Head(major, v, |HeadBytes(major, v)|))
  {
    ArgPowers();
    hide Pow;
    if v >= 24 {
      var ai := if v <= 0xff then 24 else if v <= 0xffff then 25 else if v <= 0xffff_ffff then 26 else 27;
      LongHead(major, v, ai, rest);
    }
  }

  lemma ArgPowers()
    ensures Pow(0x100, 1) == 0x100 && Pow(0x100, 2) == 0x1_0000 && Pow(0x100, 4) == 0x1_0000_0000
    ensures Pow(0x100, 8) == TWO64
  {
    assert Pow(0x100, 1) == 0x100 && Pow(0x100, 2) == 0x1_0000;
    PowAdd(0x100, 2, 2);
    PowAdd(0x100, 4, 4);
  }

  lemma LongHead(major: nat, v: u64, ai: nat, rest: bytes)
    requires major < 8 && 24 <= ai <= 27 && v < Pow(0x100, ArgLen(ai))
    ensures var b: bytes := [major * 0x20 + ai] + BigEndianBytes(v, ArgLen(ai));
            HeadOf(b + rest) == Ok(Head(major, v, |b|))
  {
    var b: bytes := [major * 0x20 + ai] + BigEndianBytes(v, ArgLen(ai));
    BigEndianInverse(v, ArgLen(ai));
    assert (b + rest)[1..1 + ArgLen(ai)] == BigEndianBytes(v, ArgLen(ai));
  }

  /** No head that reads the same is shorter. */
  lemma HeadShortest(s: bytes)
    requires HeadOf(s).Ok?
    ensures |HeadBytes(HeadOf(s).value.major, HeadOf(s).value.val)| <= HeadOf(s).value.size
  {
    var h, ai := HeadOf(s).value, s[0] % 0x20;
    if ai >= 24 {
      BigEndianBound(s[1..1 + ArgLen(ai)]);
    }
  }

  lemma ShortArgs(v: nat)
    ensures v <= 0xff ==> BigEndianBytes(v, 1) == [v]
    ensures v <= 0xffff ==> BigEndianBytes(v, 2) == [v / 0x100, v % 0x100]
  {
    assert Shift8Right(v, 0) == v && Shift8Right(v, 1) == v / 0x100;
  }

  class Writer {
    const buf: array<u8>
    var len: nat
    var err: Option<Error>
    /** Everything the callers asked to write, written or not. */
    ghost var wanted: bytes

    /** Without an error all of it was written; an error means it could not all fit. */
    ghost predicate Valid()
      reads this, buf
    {
      && len <= buf.Length
      && (err.None? ==> buf[..len] == wanted)
      && (err.Some? ==> err.value == NoSpace && |wanted| > buf.Length)
    }

    constructor (b: array<u8>)
      ensures buf == b && Valid() && wanted == []
    {
      buf, len, err, wanted := b, 0, None, [];
    }

    /** `put` */
    method Put(p: bytes)
      requires Valid()
      modifies this, buf
      ensures Valid() && wanted == old(wanted) + p
    {
      wanted := wanted + p;
      if err.Some? {
        return;
      }
      if |p| > buf.Length - len {
        err := Some(NoSpace);
        return;
      }
      forall i | 0 <= i < |p| {
        buf[len + i] := p[i];
      }
      len := len + |p|;
    }

    /** `write_head` */
    method WriteHead(major: nat, v: u64)
      requires Valid() && major < 8
      modifies this, buf
      ensures Valid() && wanted == old(wanted) + HeadBytes(major, v)
    {
      var b: bytes;
      var mt := major * 0x20;
      if v < 24 {
        b := [mt + v as int];
      } else if v <= 0xff {
        b := [mt + 24, v as int];
      } else if v <= 0xffff {
        b := [mt + 25, v as int / 0x100, v as int % 0x100];
      } else if v <= 0xffff_ffff {
        b := ArgBytes(v, 4);
        b := [mt + 26] + b;
      } else {
        b := ArgBytes(v, 8);
        b := [mt + 27] + b;
      }
      ShortArgs(v);
      Put(b);
    }

    /** The loop of `write_head` over the argument's bytes. */
    static method ArgBytes(v: u64, n: nat) returns (b: bytes)
      ensures b == BigEndianBytes(v, n)
    {
      b := [];
      var i := 0;
      while i < n
        invariant 0 <= i <= n && b == BigEndianBytes(v, n)[..i]
      {
        b := b + [Shift8Right(v, n - 1 - i) % 0x100];
        i := i + 1;
      }
    }

    /** `tc_cbor_write_int` */
    method WriteInt(v: int)
      requires Valid() && Int64(v)
      modifies this, buf
      ensures Valid() && wanted == old(wanted) + IntBytes(v)
    {
      if v >= 0 {
        WriteHead(0, v);
      } else {
        WriteHead(1, -(v + 1));
      }
    }

    /** `tc_cbor_write_bool` */
    method WriteBool(v: bool)
      requires Valid()
      modifies this, buf
      ensures Valid() && wanted == old(wanted) + HeadBytes(7, if v then TRUE else FALSE)
    {
      WriteHead(7, if v then TRUE else FALSE);
    }

    /** `tc_cbor_write_bytes` and `tc_cbor_write_text` */
    method WriteString(major: nat, p: bytes)
      requires Valid() && (major == 2 || major == 3) && |p| < 0x1_0000_0000_0000_0000
      modifies this, buf
      ensures Valid() && wanted == old(wanted) + StringBytes(major, p)
    {
      WriteHead(major, |p|);
      Put(p);
    }

    /** `tc_cbor_writer_finish`: success exactly when everything fitted, and then it is all there. */
    method Finish() returns (rc: Result<nat>)
      requires Valid()
      ensures rc.Ok? <==> |wanted| <= buf.Length
      ensures rc.Ok? ==> rc.value == |wanted| && buf[..rc.value] == wanted
      ensures rc.Err? ==> rc.error == NoSpace
    {
      if err.Some? {
        return Err(err.value);
      }
      return Ok(len);
    }
  }

  function IntBytes(v: int): bytes
    requires Int64(v)
  {
    if v >= 0 then HeadBytes(0, v) else HeadBytes(1, -1 - v)
  }

  function StringBytes(major: nat, p: bytes): bytes
    requires (major == 2 || major == 3) && |p| < 0x1_0000_0000_0000_0000
  {
    HeadBytes(major, |p|) + p
  }

  lemma IntRoundTrip(v: int, rest: bytes)
    requires Int64(v)
    ensures NextInt(IntBytes(v) + rest) == Ok((v, rest))
  {
    var m, n := if v >= 0 then 0 else 1, if v >= 0 then v else -1 - v;
    HeadRoundTrip(m, n, rest);
    hide HeadOf, HeadBytes;
    assert (HeadBytes(m, n) + rest)[|HeadBytes(m, n)|..] == rest;
  }

  lemma BoolRoundTrip(v: bool, rest: bytes)
    ensures NextBool(HeadBytes(7, if v then TRUE else FALSE) + rest) == Ok((v, rest))
  {
    var n := if v then TRUE else FALSE;
    HeadRoundTrip(7, n, rest);
    hide HeadOf, HeadBytes;
    assert (HeadBytes(7, n) + rest)[|HeadBytes(7, n)|..] == rest;
  }

  lemma ContainerRoundTrip(kind: Kind, k: u64, rest: bytes)
    requires kind == Array || kind == Map
    requires k * (if kind == Array then 1 else 2) <= |rest|
    ensures NextItem(HeadBytes(if kind == Array then 4 else 5, k) + rest) == Ok((Item(kind, k, []), rest))
  {
    var m := if kind == Array then 4 else 5;
    HeadRoundTrip(m, k, rest);
    hide HeadOf, HeadBytes;
    assert (HeadBytes(m, k) + rest)[|HeadBytes(m, k)|..] == rest;
  }

  lemma StringRoundTrip(major: nat, p: bytes, rest: bytes)
    requires (major == 2 || major == 3) && |p| < 0x1_0000_0000_0000_0000
    requires major == 3 ==> Utf8.WellFormed(p)
    ensures NextItem(StringBytes(major, p) + rest)
         == Ok((Item(if major == 2 then ByteString else Text, |p|, p), rest))
  {
    hide HeadOf, HeadBytes, AfterHead, Utf8.WellFormed;
    var h := HeadBytes(major, |p|);
    HeadRoundTrip(major, |p|, p + rest);
    PayloadRoundTrip(Head(major, |p|, |h|), p, rest);
    assert StringBytes(major, p) + rest == h + (p + rest);
    assert (h + (p + rest))[|h|..] == p + rest;
  }

  lemma PayloadRoundTrip(h: Head, p: bytes, rest: bytes)
    requires (h.major == 2 || h.major == 3) && h.val == |p|
    requires h.major == 3 ==> Utf8.WellFormed(p)
    ensures AfterHead(h, p + rest) == Ok((Item(if h.major == 2 then ByteString else Text, |p|, p), rest))
  {
    hide Utf8.WellFormed;
    assert (p + rest)[..|p|] == p && (p + rest)[|p|..] == rest;
  }
}
