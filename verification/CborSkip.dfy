/** Exactly how long a buffer must be for the skip loop's counter to exceed its length, and to mislead the loop. */
module CborSkip {
  import opened Words
  import opened Errors
  import opened Cbor

  predicate HeadSize(h: nat) {
    h == 1 || h == 2 || h == 3 || h == 5 || h == 9
  }

  /** The largest argument a head of h bytes holds. */
  function MaxArg(h: nat): nat
    requires HeadSize(h)
  {
    if h == 1 then 23 else if h == 2 then 0xff else if h == 3 then 0xffff
    else if h == 5 then 0xffff_ffff else 0xffff_ffff_ffff_ffff
  }

  /** The most items a head of h bytes can owe with `left` bytes after it: an array's, or twice a map's. */
  function MostChildren(h: nat, left: nat): (c: nat)
    requires HeadSize(h)
    ensures c <= left && (left > 0 ==> c > 0)
    ensures c <= MaxArg(h) || (c % 2 == 0 && c / 2 <= MaxArg(h))
  {
    if left <= MaxArg(h) then left else if left / 2 <= MaxArg(h) then 2 * (left / 2) else 2 * MaxArg(h)
  }

  /** What a run can add to the counter over r bytes if its next head takes h of them. */
  function Gain(h: nat, r: nat): int
    requires HeadSize(h) && h <= r
    decreases r, 0
  {
    MostChildren(h, r - h) - 1 + Most(r - h)
  }

  function Max(a: int, b: int): int {
    if a >= b then a else b
  }

  function GainIfFits(h: nat, r: nat): int
    requires HeadSize(h)
    decreases r, 1
  {
    if h <= r then Gain(h, r) else 0
  }

  /** The most a run can add to the counter over r bytes. */
  function Most(r: nat): (m: int)
    ensures m >= 0
    decreases r, 2
  {
    Max(0, Max(GainIfFits(1, r), Max(GainIfFits(2, r), Max(GainIfFits(3, r), Max(GainIfFits(5, r), GainIfFits(9, r))))))
  }

  lemma GainAtMost(h: nat, r: nat)
    requires HeadSize(h) && h <= r
    ensures Gain(h, r) <= Most(r)
  {
    hide Gain;
  }

  lemma MostIsGain(r: nat) returns (h: nat)
    requires Most(r) > 0
    ensures HeadSize(h) && h <= r && Most(r) == Gain(h, r)
  {
    hide Gain;
    h := if Most(r) == GainIfFits(1, r) && 1 <= r then 1 else if Most(r) == GainIfFits(2, r) && 2 <= r then 2
         else if Most(r) == GainIfFits(3, r) && 3 <= r then 3
         else if Most(r) == GainIfFits(5, r) && 5 <= r then 5 else 9;
  }

  lemma {:induction false} MostMonotone(r: nat, r': nat)
    requires r <= r'
    ensures Most(r) <= Most(r')
    decreases r
  {
    hide Most, MostChildren;
    if Most(r) > 0 {
      var h := MostIsGain(r);
      MostMonotone(r - h, r' - h);
      MoreChildren(h, r - h, r' - h);
      GainAtMost(h, r');
    }
  }

  lemma MoreChildren(h: nat, a: nat, b: nat)
    requires HeadSize(h) && a <= b
    ensures MostChildren(h, a) <= MostChildren(h, b)
  {
  }

  // ---- no run adds more ----

  lemma HeadFits(s: bytes)
    requires HeadOf(s).Ok?
    ensures HeadSize(HeadOf(s).value.size) && HeadOf(s).value.val <= MaxArg(HeadOf(s).value.size)
  {
    var ai := s[0] % 0x20;
    if ai >= 24 {
      BigEndianBound(s[1..1 + ArgLen(ai)]);
      ArgPowers();
    }
  }

  lemma ChildrenAtMost(s: bytes)
    requires NextItem(s).Ok?
    ensures HeadOf(s).Ok?
    ensures var h := HeadOf(s).value.size;
            var (it, rest) := NextItem(s).value;
            HeadSize(h) && |rest| <= |s| - h && (Children(it) > 0 ==> |rest| == |s| - h)
            && Children(it) <= MostChildren(h, |s| - h)
  {
    HeadFits(s);
    hide HeadOf, Utf8.WellFormed;
  }

  lemma ItemGain(s: bytes)
    requires NextItem(s).Ok?
    ensures var (it, rest) := NextItem(s).value; Children(it) - 1 + Most(|rest|) <= Most(|s|)
  {
    hide NextItem, Most, MostChildren, Children;
    ChildrenAtMost(s);
    var h := HeadOf(s).value.size;
    MostMonotone(|NextItem(s).value.1|, |s| - h);
    GainAtMost(h, |s|);
  }

  /** Where no run can reach 2^64, the loop does what it should. */
  lemma {:induction false} LoopWithin(pending: u64, s: bytes)
    requires pending + Most(|s|) < TWO64
    ensures SkipLoop(pending, s) == Items(pending, s)
    decreases |s|
  {
    hide NextItem, Items, SkipLoop, Wrap64, Most;
    SkipLoopNext(pending, s);
    if pending == 0 {
      NoItems(s);
    } else {
      SkipOne(pending - 1, s);
      if NextItem(s).Ok? {
        var (it, rest) := NextItem(s).value;
        ItemGain(s);
        Unwrapped(pending - 1 + Children(it));
        LoopWithin(pending - 1 + Children(it), rest);
      }
    }
  }

  // ---- some run adds that much ----

  /** A head of h bytes that owes c items. */
  function Owing(h: nat, c: nat): (b: bytes)
    requires HeadSize(h) && (c <= MaxArg(h) || c / 2 <= MaxArg(h))
    ensures |b| == h
  {
    var major, v := if c <= MaxArg(h) then 4 else 5, if c <= MaxArg(h) then c else c / 2;
    if h == 1 then [major * 0x20 + v]
    else [major * 0x20 + (if h == 2 then 24 else if h == 3 then 25 else if h == 5 then 26 else 27)]
         + BigEndianBytes(v, h - 1)
  }

  lemma OwingReads(h: nat, c: nat, t: bytes)
    requires HeadSize(h) && (c <= MaxArg(h) || (c % 2 == 0 && c / 2 <= MaxArg(h))) && c <= |t|
    ensures NextItem(Owing(h, c) + t).Ok?
    ensures NextItem(Owing(h, c) + t).value.1 == t && Children(NextItem(Owing(h, c) + t).value.0) == c
  {
    var major, v := if c <= MaxArg(h) then 4 else 5, if c <= MaxArg(h) then c else c / 2;
    var b := Owing(h, c);
    assert HeadOf(b + t) == Ok(Head(major, v, h)) by {
      ArgPowers();
      if h > 1 {
        LongHead(major, v, if h == 2 then 24 else if h == 3 then 25 else if h == 5 then 26 else 27, t);
      }
    }
    assert (b + t)[h..] == t;
    hide HeadOf, Owing;
  }

  /** The loop takes t for whole items and it is not. */
  ghost predicate Misled(pending: u64, t: bytes) {
    SkipLoop(pending, t).Ok? && Items(pending, t).Err?
  }

  /** A head that brings the counter to 2^64 exactly ends the loop. */
  lemma WrapsToZero(q: u64, h: nat, c: nat, t: bytes)
    requires q > 0 && HeadSize(h) && (c <= MaxArg(h) || (c % 2 == 0 && c / 2 <= MaxArg(h))) && c <= |t| < TWO64
    requires q - 1 + c == TWO64
    ensures Misled(q, Owing(h, c) + t)
  {
    hide NextItem, Items, SkipLoop, Owing;
    OwingReads(h, c, t);
    SkipLoopNext(q, Owing(h, c) + t);
    SkipLoopNext(0, t);
    SkipOne(q - 1, Owing(h, c) + t);
  }

  /** A head that keeps it below 2^64 passes the question on. */
  lemma PassesOn(q: u64, h: nat, c: nat, t: bytes)
    requires q > 0 && HeadSize(h) && (c <= MaxArg(h) || (c % 2 == 0 && c / 2 <= MaxArg(h))) && c <= |t|
    requires q - 1 + c < TWO64 && Misled(q - 1 + c, t)
    ensures Misled(q, Owing(h, c) + t)
  {
    hide NextItem, Items, SkipLoop, Owing, Wrap64;
    OwingReads(h, c, t);
    SkipLoopNext(q, Owing(h, c) + t);
    SkipOne(q - 1, Owing(h, c) + t);
    Unwrapped(q - 1 + c);
  }

  /** The last head of a misleading run: it may have to leave one item to a second head. */
  lemma LastHead(q: u64, h: nat, left: nat) returns (t: bytes)
    requires q > 0 && HeadSize(h) && left < TWO64 && q - 1 + MostChildren(h, left) >= TWO64
    ensures |t| == h + left && Misled(q, t)
  {
    hide Misled, Owing;
    var c := TWO64 - q + 1;
    if c <= MaxArg(h) || c % 2 == 0 {
      t := Owing(h, c) + Zeros(left);
      WrapsToZero(q, h, c, Zeros(left));
    } else {
      var t' := Owing(1, 2) + Zeros(left - 1);
      WrapsToZero(TWO64 - 1, 1, 2, Zeros(left - 1));
      t := Owing(h, c - 1) + t';
      PassesOn(q, h, c - 1, t');
    }
  }

  lemma {:induction false} MisleadingRun(q: u64, r: nat) returns (t: bytes)
    requires q > 0 && r < TWO64 && q + Most(r) >= TWO64
    ensures |t| == r && Misled(q, t)
    decreases r
  {
    hide Most, MostChildren, Misled, Owing;
    var h := MostIsGain(r);
    var left := r - h;
    var c := MostChildren(h, left);
    if q - 1 + c >= TWO64 {
      t := LastHead(q, h, left);
    } else {
      NothingLeft();
      var t' := MisleadingRun(q - 1 + c, left);
      t := Owing(h, c) + t';
      PassesOn(q, h, c, t');
    }
  }

  lemma NothingLeft()
    ensures Most(0) == 0
  {
  }

  /** The loop is right about every buffer of n bytes exactly when no run over n bytes can count to 2^64. */
  lemma SkipExact(n: nat)
    requires n < TWO64
    ensures (forall s: bytes :: |s| == n ==> SkipLoop(1, s) == OneItem(s)) <==> 1 + Most(n) < TWO64
  {
    hide Most, SkipLoop, OneItem, Items;
    if 1 + Most(n) < TWO64 {
      forall s: bytes | |s| == n ensures SkipLoop(1, s) == OneItem(s) {
        LoopWithin(1, s);
        OneOfOne(s);
      }
    } else {
      var t := MisleadingRun(1, n);
      OneOfOne(t);
    }
  }

  // ---- where that is ----

  lemma {:induction false} MostQuadratic(r: nat)
    ensures Most(r) <= r * r
  {
    hide Most, MostChildren;
    if Most(r) > 0 {
      var h := MostIsGain(r);
      MostQuadratic(r - h);
      SquareStep(r - h, r);
    }
  }

  /** j array heads of nine bytes, each owing everything that follows it. */
  lemma {:induction false} NineByteHeads(r: nat, j: nat)
    requires 9 * j <= r < TWO64
    ensures 2 * Most(r) >= j * (2 * r - 9 * j - 11)
    decreases j
  {
    hide Most;
    if j > 0 {
      NineByteHeads(r - 9, j - 1);
      GainAtMost(9, r);
      Series(r, j);
    }
  }

  lemma Series(r: int, j: int)
    ensures 2 * (r - 10) + (j - 1) * (2 * (r - 9) - 9 * (j - 1) - 11) == j * (2 * r - 9 * j - 11)
  {
  }

  /** The loop is right about every buffer below 4 GiB, and wrong about some buffer of 17 GiB. */
  lemma SkipLimits()
    ensures forall s: bytes :: |s| < 0x1_0000_0000 ==> SkipLoop(1, s) == OneItem(s)
    ensures exists s: bytes :: |s| == 0x4_4000_0000 && SkipLoop(1, s).Ok? && OneItem(s).Err?
  {
    hide Most, SkipLoop, OneItem, Items;
    forall s: bytes | |s| < 0x1_0000_0000 ensures SkipLoop(1, s) == OneItem(s) {
      MostQuadratic(|s|);
      MulBound(|s|, |s|, 0xffff_ffff, 0xffff_ffff);
      LoopWithin(1, s);
      OneOfOne(s);
    }
    NineByteHeads(0x4_4000_0000, 2028179000);
    var t := MisleadingRun(1, 0x4_4000_0000);
    OneOfOne(t);
  }

  // ---- where the counter can exceed the length of the buffer ----

  /** What is owed, and what the bytes left can still add to it, never grows. */
  lemma {:induction false} RunWithin(s: bytes, n: nat)
    requires SkipRun(s, n).Ok?
    ensures SkipRun(s, n).value.pending + Most(|SkipRun(s, n).value.rest|) <= 1 + Most(|s|)
  {
    hide Most, NextItem, Children;
    if n > 0 {
      RunWithin(s, n - 1);
      ItemGain(SkipRun(s, n - 1).value.rest);
    }
  }

  lemma {:induction false} MostOfFour(n: nat)
    requires n <= 4
    ensures Most(n) <= if n <= 2 then 0 else 2 * n - 5
  {
    hide Most, MostChildren;
    if Most(n) > 0 {
      var h := MostIsGain(n);
      MostOfFour(n - h);
    }
  }

  /** A head that owes everything after it, and one more for which that is too much. */
  lemma TwoHeads(n: nat, h: nat) returns (s: bytes)
    requires HeadSize(h) && 3 * h + 2 <= n && n - h <= MaxArg(h)
    ensures |s| == n && SkipRun(s, 2).Ok? && SkipRun(s, 2).value.pending == n + 1
  {
    hide NextItem, Children, Owing;
    var t := Owing(h, h + 2) + Zeros(n - 2 * h);
    s := Owing(h, n - h) + t;
    OwingReads(h, n - h, t);
    OwingReads(h, h + 2, Zeros(n - 2 * h));
    assert SkipRun(s, 0) == Ok(SkipState(1, s));
    SkipMore(s, 0);
    SkipMore(s, 1);
  }

  /** What is owed stays within the length of every buffer of n bytes exactly when n is 1, 2, 3 or 4. */
  lemma OwedExact(n: nat)
    requires n < TWO64
    ensures (forall s: bytes, k: nat :: |s| == n && SkipRun(s, k).Ok? ==> SkipRun(s, k).value.pending <= n)
            <==> 1 <= n <= 4
  {
    hide Most, SkipStep;
    if n == 0 {
      assert SkipRun([], 0).value.pending == 1;
    } else if n <= 4 {
      forall s: bytes, k: nat | |s| == n && SkipRun(s, k).Ok? ensures SkipRun(s, k).value.pending <= n {
        RunWithin(s, k);
        MostOfFour(n);
      }
    } else {
      var s := TwoHeads(n, if n <= 24 then 1 else if n <= 0x101 then 2 else if n <= 0x1_0002 then 3
                           else if n <= 0x1_0000_0004 then 5 else 9);
    }
  }
}
