/** The reader accepts exactly the documents of the grammar, and skipping passes exactly one value. */
module JsonTheorems {
  import opened Words
  import opened Errors
  import opened JsonText
  import opened Json
  import opened JsonGrammar
  import JsonComplete
  import JsonSound

  // ---- acceptance ----

  /** Calling until the end gives these events and no error. */
  ghost predicate Delivers(buf: bytes, evs: seq<Event>) {
    End !in evs && exists st :: Runs(Start(buf), evs + [End], st)
  }

  /** The buffer is this document, and these are its events. */
  ghost predicate IsDocument(buf: bytes, evs: seq<Event>) {
    exists d :: DocOk(d) && DocText(d) == buf && Events(d.value) == evs
  }

  lemma {:induction false} EventsNoEnd(v: Value)
    ensures End !in Events(v) && Events(v) != []
    decreases v, 0
  {
    if v.Container? {
      ItemsNoEnd(v.items);
    }
  }

  lemma {:induction false} ItemsNoEnd(it: Items)
    ensures End !in ItemsEvents(it)
    decreases it, 1
  {
    if it.Items? {
      ItemsNoEnd(it.front);
      EventsNoEnd(it.value);
    }
  }

  lemma {:induction false} FramesNoEnd(fs: seq<JsonSound.Frame>)
    ensures End !in JsonSound.FramesEvents(fs)
  {
    if fs != [] {
      FramesNoEnd(fs[..|fs| - 1]);
      FrameNoEnd(fs[|fs| - 1]);
    }
  }

  lemma FrameNoEnd(f: JsonSound.Frame)
    ensures End !in JsonSound.FrameEvents(f)
  {
    ItemsNoEnd(f.items);
    hide ItemsEvents;
  }

  lemma Sound(buf: bytes, evs: seq<Event>)
    requires Delivers(buf, evs)
    ensures IsDocument(buf, evs)
  {
    var st :| Runs(Start(buf), evs + [End], st);
    hide Runs, Next;
    var all := evs + [End];
    assert all[|evs|] == End && End in all;
    var p := JsonSound.RunSound(buf, Start(buf), [], JsonSound.Fresh, all, st);
    assert [] + all == all;
    if p.Open? {
      FramesNoEnd(p.outer);
      FrameNoEnd(p.top);
      OpenEvents(buf, st, all, p);
      assert false;
    }
    var e := Events(p.doc.value);
    EventsNoEnd(p.doc.value);
    Whole(e, evs, all);
  }

  lemma OpenEvents(buf: bytes, st: State, all: seq<Event>, p: JsonSound.Progress)
    requires p.Open? && JsonSound.Inv(buf, st, all, p)
    ensures all == JsonSound.FramesEvents(p.outer) + JsonSound.FrameEvents(p.top)
  {
    hide JsonSound.FramesEvents, JsonSound.FrameEvents, JsonSound.FramesText, JsonSound.FrameText, JsonSound.OuterOk,
         JsonSound.FrameOk;
  }

  lemma Whole(e: seq<Event>, evs: seq<Event>, all: seq<Event>)
    requires all == evs + [End] && End !in evs && End !in e && e <= all
    requires forall i :: |e| <= i < |all| ==> all[i] == End
    ensures e == evs
  {
    InSeq(e, |evs|);
    InSeq(evs, |e|);
    InSeq(all, |e|);
  }

  /** The i-th event, or the end where there is none. */
  function At(s: seq<Event>, i: nat): Event {
    if i < |s| then s[i] else End
  }

  lemma InSeq(s: seq<Event>, i: nat)
    ensures i < |s| ==> At(s, i) in s
  {
  }

  /** The event stream reaches the end without error exactly on documents of the grammar, and is their traversal. */
  lemma Acceptance(buf: bytes, evs: seq<Event>)
    ensures Delivers(buf, evs) <==> IsDocument(buf, evs)
  {
    if Delivers(buf, evs) {
      Sound(buf, evs);
    }
    if IsDocument(buf, evs) {
      var d :| DocOk(d) && DocText(d) == buf && Events(d.value) == evs;
      hide DocOk, DocText, Next, Runs;
      var end := JsonComplete.DocComplete(d);
      EventsNoEnd(d.value);
      RunsOne(end, End, end);
      RunsJoin(Start(buf), evs, end, [End], end);
    }
  }

  // ---- skipping ----

  /** How an event changes the number of open levels. */
  function Delta(e: Event): int {
    if e.Begin? then 1 else if e.Close? then -1 else 0
  }

  function Height(evs: seq<Event>): int {
    if evs == [] then 0 else Height(evs[..|evs| - 1]) + Delta(evs[|evs| - 1])
  }

  lemma {:induction false} HeightJoin(a: seq<Event>, b: seq<Event>)
    ensures Height(a + b) == Height(a) + Height(b)
  {
    if b == [] {
      assert a + b == a;
    } else {
      var b' := b[..|b| - 1];
      HeightJoin(a, b');
      assert (a + b)[..|a + b| - 1] == a + b';
    }
  }

  /** Prefixes of a + b are prefixes of a, or a and a prefix of b. */
  lemma PrefixHeight(a: seq<Event>, b: seq<Event>, k: nat)
    requires k <= |a| + |b|
    ensures Height((a + b)[..k]) == if k <= |a| then Height(a[..k]) else Height(a) + Height(b[..k - |a|])
  {
    if k <= |a| {
      assert (a + b)[..k] == a[..k];
    } else {
      assert (a + b)[..k] == a + b[..k - |a|];
      HeightJoin(a, b[..k - |a|]);
    }
  }

  /** Every prefix stays at or above the level it started on. */
  ghost predicate Balanced(evs: seq<Event>) {
    Height(evs) == 0 && forall k :: 0 <= k <= |evs| ==> Height(evs[..k]) >= 0
  }

  lemma BalancedJoin(a: seq<Event>, b: seq<Event>)
    requires Balanced(a) && Balanced(b)
    ensures Balanced(a + b)
  {
    hide Height;
    HeightJoin(a, b);
    forall k | 0 <= k <= |a + b| ensures Height((a + b)[..k]) >= 0 {
      PrefixHeight(a, b, k);
    }
  }

  lemma BalancedOne(e: Event)
    requires Delta(e) == 0
    ensures Balanced([e])
  {
    assert [e][..0] == [] && [e][..1] == [e];
  }

  lemma {:induction false} EventsBalanced(v: Value)
    ensures Balanced(Events(v))
    decreases v, 0
  {
    hide Balanced;
    if v.Leaf? {
      BalancedOne(ScalarEvent(v.tok));
    } else {
      ItemsBalanced(v.items);
      hide ItemsEvents;
      Wrapped(v.obj, ItemsEvents(v.items));
    }
  }

  /** Inside its brackets a container stays above the level outside. */
  lemma Wrapped(obj: bool, mid: seq<Event>)
    requires Balanced(mid)
    ensures Balanced([Begin(obj)] + mid + [Close(obj)])
    ensures forall k :: 1 <= k <= |mid| + 1 ==> Height(([Begin(obj)] + mid + [Close(obj)])[..k]) >= 1
  {
    OneHeight(Begin(obj));
    OneHeight(Close(obj));
    NoHeight();
    hide Height;
    var front := [Begin(obj)] + mid;
    var all := front + [Close(obj)];
    HeightJoin([Begin(obj)], mid);
    HeightJoin(front, [Close(obj)]);
    forall k | 0 <= k <= |all| ensures Height(all[..k]) >= if 1 <= k <= |mid| + 1 then 1 else 0 {
      WrappedAt(obj, mid, k);
    }
  }

  lemma WrappedAt(obj: bool, mid: seq<Event>, k: nat)
    requires Balanced(mid) && k <= |mid| + 2
    ensures Height(([Begin(obj)] + mid + [Close(obj)])[..k]) >= if 1 <= k <= |mid| + 1 then 1 else 0
  {
    OneHeight(Begin(obj));
    OneHeight(Close(obj));
    NoHeight();
    hide Height;
    var front := [Begin(obj)] + mid;
    var all := front + [Close(obj)];
    if k == 0 {
      assert all[..0] == [];
    } else if k == |all| {
      assert all[..k] == all;
      HeightJoin([Begin(obj)], mid);
      HeightJoin(front, [Close(obj)]);
    } else {
      PrefixHeight(front, [Close(obj)], k);
      assert front[..k] == [Begin(obj)] + mid[..k - 1];
      HeightJoin([Begin(obj)], mid[..k - 1]);
    }
  }

  lemma {:induction false} ItemsBalanced(it: Items)
    ensures Balanced(ItemsEvents(it))
    decreases it, 1
  {
    hide Balanced;
    if it.Items? {
      ItemsBalanced(it.front);
      EventsBalanced(it.value);
      NoneBalanced();
      if it.name.Label? {
        BalancedOne(Key(it.name.key));
      }
      BalancedJoin(LabelEvents(it.name), Events(it.value));
      BalancedJoin(ItemsEvents(it.front), LabelEvents(it.name) + Events(it.value));
    } else {
      NoneBalanced();
    }
  }

  lemma NoneBalanced()
    ensures Balanced([])
  {
  }

  lemma NextHeight(st: State)
    requires Next(st).Ok?
    ensures |Next(st).value.1.stack| == |st.stack| + Delta(Next(st).value.0)
  {
    hide AfterWs, TakeString, ScanNum, IntegerOf, NumText;
  }

  /** A run that stays above the target until its last event is exactly what skipping passes. */
  lemma {:induction false} SkipRuns(st: State, evs: seq<Event>, st': State, target: nat)
    requires Runs(st, evs, st') && End !in evs && |st.stack| + Height(evs) == target
    requires forall k :: 0 <= k < |evs| ==> |st.stack| + Height(evs[..k]) > target
    ensures SkipLoop(st, target) == Ok(st')
    decreases |evs|
  {
    hide Next, Height;
    if evs == [] {
      NoHeight();
      SkipNothing(st, target);
    } else {
      var e, more, st1 := evs[0], evs[1..], Next(st).value.1;
      assert evs == [e] + more;
      assert evs[..0] == [];
      NoHeight();
      NextHeight(st);
      OneHeight(e);
      HeightJoin([e], more);
      assert |st.stack| + Height(evs[..0]) > target;
      forall k | 0 <= k < |more| ensures |st1.stack| + Height(more[..k]) > target {
        assert evs[..k + 1] == [e] + more[..k];
        HeightJoin([e], more[..k]);
      }
      SkipMore(st, target);
      hide SkipLoop;
      SkipRuns(st1, more, st', target);
    }
  }

  lemma NoHeight()
    ensures Height([]) == 0
  {
  }

  lemma OneHeight(e: Event)
    ensures Height([e]) == Delta(e)
  {
    assert [e][..0] == [];
  }

  lemma SkipNothing(st: State, target: nat)
    requires |st.stack| <= target
    ensures SkipLoop(st, target) == Ok(st)
  {
    hide Next;
  }

  /** When the next call would take the value v, skipping passes all of v and nothing more. */
  lemma SkipExact(st: State, p: State, v: Value, tail: bytes)
    requires ValueOk(v) && p == JsonComplete.Between(ValueText(v) + tail, p.stack) && p.stack != []
    requires |p.stack| + Depth(v) <= MAX_DEPTH && Follow(tail)
    requires Next(st) == TakeInner(p)
    ensures SkipOne(st) == Ok(JsonComplete.Between(tail, MarkSeen(p.stack)))
  {
    hide Next, TakeInner, Follow, ValueText, ValueOk, Depth, Height;
    JsonComplete.InnerRun(p, v, tail);
    var evs := Events(v);
    EventsNoEnd(v);
    if v.Leaf? {
      LeafEvents(v);
    } else {
      ItemsBalanced(v.items);
      Wrapped(v.obj, ItemsEvents(v.items));
      OneHeight(evs[0]);
      HeightJoin([evs[0]], evs[1..]);
      assert evs == [evs[0]] + evs[1..];
      var st1 := TakeInner(p).value.1;
      BeginGrows(p);
      forall k | 0 <= k < |evs[1..]| ensures |st1.stack| + Height(evs[1..][..k]) > |p.stack| {
        assert evs[..k + 1] == [evs[0]] + evs[1..][..k];
        HeightJoin([evs[0]], evs[1..][..k]);
      }
      SkipRuns(st1, evs[1..], JsonComplete.Between(tail, MarkSeen(p.stack)), |p.stack|);
    }
  }

  lemma LeafEvents(v: Value)
    requires v.Leaf?
    ensures Events(v)[1..] == [] && !Events(v)[0].Begin?
  {
  }

  lemma BeginGrows(p: State)
    requires p.stack != [] && TakeInner(p).Ok? && TakeInner(p).value.0.Begin?
    ensures |TakeInner(p).value.1.stack| == |p.stack| + 1
  {
    hide TakeString, ScanNum, IntegerOf, NumText;
  }

  /** Right after a name, skipping passes exactly that member's value. */
  lemma SkipMember(st: State, gap: bytes, v: Value, tail: bytes)
    requires ValueOk(v) && AllWs(gap) && st.due && !st.done && !st.started && st.stack != []
    requires st.rest == gap + (ValueText(v) + tail) && |st.stack| + Depth(v) <= MAX_DEPTH && Follow(tail)
    ensures SkipOne(st) == Ok(JsonComplete.Between(tail, MarkSeen(st.stack)))
  {
    hide Next, ValueOk, ValueText, AllWs, Follow, Depth, SkipOne, TakeInner;
    var p := st.(rest := ValueText(v) + tail, due := false);
    JsonComplete.ValueStart(v, tail);
    JsonComplete.DueTaken(st, gap, ValueText(v) + tail);
    SkipExact(st, p, v, tail);
  }

  // ---- what is skipped is a value ----

  /** From the n-th level outside on, a value has been read and nothing more. */
  ghost predicate Passed(buf: bytes, p: JsonSound.Progress, n: nat, v: Value, st: State)
    requires p.Open? && 0 < n <= |p.outer|
  {
    && ValueOk(v) && n + Depth(v) <= MAX_DEPTH
    && st == JsonComplete.Between(st.rest, MarkSeen(JsonSound.Levels(p.outer[..n])))
    && buf == (p.before + JsonSound.FramesText(p.outer[..n - 1]))
              + (JsonSound.FrameText(p.outer[n - 1]) + (ValueText(v) + st.rest))
  }

  lemma LastPassed(buf: bytes, st: State, evs: seq<Event>, p: JsonSound.Progress, p': JsonSound.Progress)
    requires p.Open? && JsonSound.OuterOk(p.outer) && JsonSound.Closes(p, p') && JsonSound.Inv(buf, st, evs, p')
    ensures Passed(buf, p, |p.outer|, p'.top.items.value, st)
  {
    hide JsonSound.OuterOk, JsonSound.FrameOk, JsonSound.FrameText, JsonSound.FramesText, JsonSound.FrameEvents,
         JsonSound.FramesEvents, JsonSound.Levels, ValueOk, ValueText, Depth, Events, AllWs;
    JsonSound.PopFrames(p.outer);
    var n := |p.outer|;
    var f, v := p.outer[n - 1], p'.top.items.value;
    JsonSound.AttachGrows(f, v, n - 1);
    JsonSound.Regroup(p.before + JsonSound.FramesText(p'.outer), JsonSound.FrameText(f), ValueText(v), st.rest);
    assert p.outer[..n] == p.outer;
  }

  /** A skip that ends has passed a value. */
  lemma {:induction false} SkipLoopSound(buf: bytes, st: State, evs: seq<Event>, p: JsonSound.Progress, n: nat)
    returns (v: Value)
    requires p.Open? && JsonSound.Inv(buf, st, evs, p) && 0 < n <= |p.outer| && SkipLoop(st, n).Ok?
    ensures Passed(buf, p, n, v, SkipLoop(st, n).value)
    decreases |st.rest|
  {
    hide Next, SkipLoop, Passed, JsonSound.Inv;
    OpenLevels(buf, st, evs, p);
    SkipMore(st, n);
    NextShrinks(st);
    var (ev, st1) := Next(st).value;
    var p1 := JsonSound.OpenStep(buf, st, evs, p);
    OpenLevels(buf, st1, evs + [ev], p1);
    if ev.Close? && |p.outer| == n {
      SkipNothing(st1, n);
      LastPassed(buf, st1, evs + [ev], p, p1);
      v := p1.top.items.value;
    } else {
      v := SkipLoopSound(buf, st1, evs + [ev], p1, n);
      SamePassed(buf, p, p1, n, v, SkipLoop(st1, n).value);
    }
  }

  lemma OpenLevels(buf: bytes, st: State, evs: seq<Event>, p: JsonSound.Progress)
    requires p.Open? && JsonSound.Inv(buf, st, evs, p)
    ensures |st.stack| == |p.outer| + 1 && JsonSound.OuterOk(p.outer)
  {
    hide JsonSound.OuterOk, JsonSound.FrameOk, JsonSound.FrameText, JsonSound.FramesText, JsonSound.FrameEvents,
         JsonSound.FramesEvents, AllWs;
  }

  lemma SamePassed(buf: bytes, p: JsonSound.Progress, p1: JsonSound.Progress, n: nat, v: Value, st: State)
    requires p.Open? && p1.Open? && 0 < n <= |p.outer| && n <= |p1.outer|
    requires p.before == p1.before && p.outer[..n] == p1.outer[..n] && Passed(buf, p1, n, v, st)
    ensures Passed(buf, p, n, v, st)
  {
    hide JsonSound.FrameText, JsonSound.FramesText, JsonSound.Levels, ValueOk, ValueText, Depth;
    assert p.outer[..n][n - 1] == p.outer[n - 1] && p1.outer[..n][n - 1] == p1.outer[n - 1];
    assert p.outer[..n][..n - 1] == p.outer[..n - 1] && p1.outer[..n][..n - 1] == p1.outer[..n - 1];
  }

  /** After white space, a value of the grammar, and nothing more. */
  ghost predicate Skipped(st: State, gap: bytes, v: Value, st': State) {
    && AllWs(gap) && ValueOk(v) && st.stack != [] && |st.stack| + Depth(v) <= MAX_DEPTH
    && st.rest == gap + (ValueText(v) + st'.rest) && st' == JsonComplete.Between(st'.rest, MarkSeen(st.stack))
  }

  lemma DueNext(st: State)
    requires st.due && !st.done && st.stack != [] && Next(st).Ok?
    ensures Next(st) == TakeInner(st.(rest := AfterWs(st.rest), due := false))
  {
    hide AfterWs, TakeInner;
  }

  lemma DueIsOpen(buf: bytes, st: State, evs: seq<Event>, p: JsonSound.Progress)
    requires JsonSound.Inv(buf, st, evs, p) && st.due
    ensures p.Open? && !st.done && !st.started && |st.stack| == |p.outer| + 1 <= MAX_DEPTH
    ensures st.stack == JsonSound.Levels(p.outer + [p.top])
    ensures buf == (p.before + JsonSound.FramesText(p.outer)) + (JsonSound.FrameText(p.top) + st.rest)
  {
    hide JsonSound.OuterOk, JsonSound.FrameOk, JsonSound.FrameText, JsonSound.FramesText, JsonSound.FrameEvents,
         JsonSound.FramesEvents, JsonSound.Levels, DocOk, DocText, Events, AllWs;
    JsonSound.PushFrames(p.outer, p.top);
    JsonSound.DepthRoom(p.top, |p.outer|);
  }

  lemma SkipScalar(st: State, s: bytes, gap: bytes) returns (v: Value)
    requires st.stack != [] && |st.stack| <= MAX_DEPTH && !st.done && !st.started && AllWs(gap) && st.rest == gap + s
    requires var r := TakeInner(st.(rest := s, due := false)); r.Ok? && !r.value.0.Begin?
    ensures Skipped(st, gap, v, TakeInner(st.(rest := s, due := false)).value.1)
  {
    hide AllWs, TakeScalar;
    var t := ScalarSound(s);
    hide ScalarOk, ScalarText;
    v := Leaf(t);
  }

  /** The same text twice, each after the same beginning. */
  lemma SameEnd(b: bytes, f: bytes, gap: bytes, r: bytes, r': bytes)
    requires b + (f + r) == b + ((f + gap) + r')
    ensures r == gap + r'
  {
    assert (f + gap) + r' == f + (gap + r');
    assert f + r == (b + (f + r))[|b|..] == f + (gap + r');
    assert r == (f + r)[|f|..] == gap + r';
  }

  lemma BeginTaken(st: State)
    requires st.stack != [] && TakeInner(st).Ok? && TakeInner(st).value.0.Begin?
    ensures st.rest != [] && (st.rest[0] == Opener(true) || st.rest[0] == Opener(false))
  {
    hide TakeScalar;
    if st.rest[0] != Opener(true) && st.rest[0] != Opener(false) {
      var t := ScalarSound(st.rest);
      JsonSound.ScalarNotBegin(t);
    }
  }

  lemma SkipContainer(buf: bytes, st: State, evs: seq<Event>, p: JsonSound.Progress, s: bytes, gap: bytes)
    returns (v: Value)
    requires JsonSound.Inv(buf, st, evs, p) && st.due && st.stack != [] && AllWs(gap) && st.rest == gap + s
    requires var r := TakeInner(st.(rest := s, due := false));
             r.Ok? && r.value.0.Begin? && SkipLoop(r.value.1, |st.stack|).Ok?
    ensures Skipped(st, gap, v, SkipLoop(TakeInner(st.(rest := s, due := false)).value.1, |st.stack|).value)
  {
    hide JsonSound.Inv, JsonSound.Body, JsonSound.FrameText, JsonSound.FramesText, JsonSound.Levels, JsonSound.LevelOf,
         SkipLoop, AllWs, ValueOk, ValueText, Depth, TakeScalar;
    DueIsOpen(buf, st, evs, p);
    var q, obj := st.(rest := s, due := false), s[0] == Opener(true);
    var p1 := JsonSound.GapGrows(buf, st, evs, p, gap, s);
    JsonSound.BodyDue(buf, st.(rest := s), evs, p1);
    BeginTaken(q);
    var p2 := JsonSound.BeginStep(buf, q, evs, p1, obj);
    var n := |st.stack|;
    var st1 := TakeInner(q).value.1;
    v := SkipLoopSound(buf, st1, evs + [Begin(obj)], p2, n);
    assert p2.outer[..n] == p.outer + [p1.top] && p2.outer[..n - 1] == p.outer;
    JsonSound.PushFrames(p.outer, p.top);
    JsonSound.PushFrames(p.outer, p1.top);
    SameEnd(p.before + JsonSound.FramesText(p.outer), JsonSound.FrameText(p.top), gap, st.rest,
            ValueText(v) + SkipLoop(st1, n).value.rest);
  }

  /** Right after a name, a skip that succeeds has passed white space and one value of the grammar. */
  lemma SkipSound(buf: bytes, evs: seq<Event>, st: State) returns (gap: bytes, v: Value)
    requires Runs(Start(buf), evs, st) && st.due && SkipOne(st).Ok?
    ensures Skipped(st, gap, v, SkipOne(st).value)
  {
    hide Runs, Next, SkipLoop, AfterWs, AllWs, Skipped, TakeInner;
    assert JsonSound.Inv(buf, Start(buf), [], JsonSound.Fresh);
    var p := JsonSound.RunSound(buf, Start(buf), [], JsonSound.Fresh, evs, st);
    assert [] + evs == evs;
    hide JsonSound.Inv;
    DueIsOpen(buf, st, evs, p);
    DueNext(st);
    WsSplit(st.rest);
    gap := st.rest[..WsLen(st.rest)];
    var s := AfterWs(st.rest);
    if Next(st).value.0.Begin? {
      BeginGrows(st.(rest := s, due := false));
      v := SkipContainer(buf, st, evs, p, s, gap);
    } else {
      v := SkipScalar(st, s, gap);
    }
  }
}
