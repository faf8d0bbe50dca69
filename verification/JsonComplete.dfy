/** Every document of the grammar is read to its end, with its events in order. */
module JsonComplete {
  import opened Words
  import opened Errors
  import opened JsonText
  import opened Json
  import opened JsonGrammar

  /** First characters that cannot be taken for anything but a value. */
  predicate Starts(s: bytes) {
    s != [] && !Ws(s[0]) && s[0] !in {0x5d, 0x7d, 0x2c, 0x3a}
  }

  lemma ScalarStart(k: Scalar, t: bytes)
    requires ScalarOk(k)
    ensures var s := ScalarText(k) + t; Starts(s) && s[0] != Opener(true) && s[0] != Opener(false)
  {
    hide Chars, NumText, IsNum;
    if k.NumTok? {
      NumStart(k.n, t);
    }
  }

  lemma ValueStart(v: Value, t: bytes)
    requires ValueOk(v)
    ensures Starts(ValueText(v) + t)
  {
    hide ScalarOk, ScalarText, ItemsOk, AllWs;
    if v.Leaf? {
      ScalarStart(v.tok, t);
    }
  }

  /** The reader between two elements of a level. */
  function Between(s: bytes, stack: seq<Level>): State {
    State(s, stack, false, false, false)
  }

  lemma SkipTo(w: bytes, s: bytes)
    requires AllWs(w) && s != [] && !Ws(s[0])
    ensures AfterWs(w + s) == s
  {
    WsSkipped(w, s);
  }

  /** Reaching the first character of an element that is not the first of its level. */
  lemma CommaTaken(comma: bytes, pre: bytes, s: bytes, obj: bool)
    requires AllWs(comma) && AllWs(pre) && Starts(s)
    ensures AfterWs((comma + [0x2c]) + (pre + s)) == [0x2c] + (pre + s)
    ensures TakeComma([0x2c] + (pre + s), Level(obj, true)) == Ok(s)
  {
    hide AllWs, AfterWs;
    assert (comma + [0x2c]) + (pre + s) == comma + ([0x2c] + (pre + s));
    SkipTo(comma, [0x2c] + (pre + s));
    assert ([0x2c] + (pre + s))[1..] == pre + s;
    SkipTo(pre, s);
  }

  /** White space and commas lead to the element itself. */
  lemma LeadTaken(stack: seq<Level>, obj: bool, first: bool, comma: bytes, pre: bytes, s: bytes)
    requires AllWs(comma) && AllWs(pre) && Starts(s)
    ensures var q := Between((if first then [] else comma + [0x2c]) + (pre + s), stack + [Level(obj, !first)]);
            Next(q) == if obj then TakeKey(q.(rest := s)) else TakeInner(q.(rest := s))
  {
    hide AllWs, AfterWs, TakeKey, TakeInner;
    if first {
      assert [] + (pre + s) == pre + s;
      SkipTo(pre, s);
    } else {
      CommaTaken(comma, pre, s, obj);
      hide TakeComma;
    }
  }

  lemma KeyTaken(q: State, l: Label, s: bytes)
    requires LabelOk(l) && l.Label? && q.rest == LabelText(l) + s
    ensures TakeKey(q) == Ok((Key(l.key), q.(rest := l.gap + s, due := true)))
  {
    hide Chars, AllWs, AfterWs, TakeString, Quoted;
    var after := l.colon + ([0x3a] + (l.gap + s));
    assert q.rest == Quoted(l.key) + after;
    StringTaken(l.key, after);
    SkipTo(l.colon, [0x3a] + (l.gap + s));
    assert ([0x3a] + (l.gap + s))[1..] == l.gap + s;
  }

  lemma DueTaken(q: State, gap: bytes, s: bytes)
    requires AllWs(gap) && Starts(s) && q.rest == gap + s && q.due && !q.done && q.stack != []
    ensures Next(q) == TakeInner(q.(rest := s, due := false))
  {
    hide AllWs, AfterWs, TakeInner;
    SkipTo(gap, s);
  }

  lemma CloseTaken(stack: seq<Level>, obj: bool, seen: bool, close: bytes, tail: bytes)
    requires stack != [] && AllWs(close)
    ensures Next(Between((close + [Closer(obj)]) + tail, stack + [Level(obj, seen)]))
         == Ok((Close(obj), Between(tail, MarkSeen(stack))))
  {
    hide AllWs, AfterWs;
    var s := [Closer(obj)] + tail;
    assert (close + [Closer(obj)]) + tail == close + s;
    SkipTo(close, s);
    assert s[1..] == tail;
    assert (stack + [Level(obj, seen)])[..|stack|] == stack;
  }

  /** The value of an element is read to its end; then the level has been seen to hold something. */
  ghost predicate Reads(st: State, v: Value, tail: bytes)
    requires st.stack != []
  {
    var r := TakeInner(st);
    && r.Ok? && Events(v) != [] && r.value.0 == Events(v)[0]
    && Runs(r.value.1, Events(v)[1..], Between(tail, MarkSeen(st.stack)))
  }

  lemma {:induction false} InnerRun(st: State, v: Value, tail: bytes)
    requires ValueOk(v) && st == Between(ValueText(v) + tail, st.stack) && st.stack != []
    requires |st.stack| + Depth(v) <= MAX_DEPTH && Follow(tail)
    ensures Reads(st, v, tail)
    decreases v, 0
  {
    hide Reads;
    if v.Leaf? {
      LeafRun(st, v, tail);
    } else {
      hide AllWs, Follow, ItemsText, ValueText;
      FollowClose(v.close, v.obj, tail);
      ItemsRun(st.stack, v.obj, v.items, (v.close + [Closer(v.obj)]) + tail);
      ContainerRun(st, v, tail);
    }
  }

  lemma LeafRun(st: State, v: Value, tail: bytes)
    requires v.Leaf? && ValueOk(v) && st == Between(ValueText(v) + tail, st.stack) && st.stack != [] && Follow(tail)
    ensures Reads(st, v, tail)
  {
    ScalarStart(v.tok, tail);
    ScalarComplete(v.tok, tail);
    hide TakeScalar, ScalarText, ScalarOk, ScalarEvent;
    EventIsScalar(v.tok);
    assert Events(v)[1..] == [];
  }

  lemma ContainerRun(st: State, v: Value, tail: bytes)
    requires v.Container? && AllWs(v.close) && st == Between(ValueText(v) + tail, st.stack)
    requires 0 < |st.stack| < MAX_DEPTH
    requires var tail' := (v.close + [Closer(v.obj)]) + tail;
             Runs(Between(ItemsText(v.items) + tail', st.stack + [Level(v.obj, false)]), ItemsEvents(v.items),
                  Between(tail', st.stack + [Level(v.obj, v.items.Items?)]))
    ensures Reads(st, v, tail)
  {
    hide Next, TakeInner, TakeValue, AllWs, ItemsText, ItemsEvents, Runs;
    var obj, items := v.obj, v.items;
    var tail', end := (v.close + [Closer(obj)]) + tail, Between(tail, MarkSeen(st.stack));
    var q := Between(ItemsText(items) + tail', st.stack + [Level(obj, false)]);
    var q' := Between(tail', st.stack + [Level(obj, items.Items?)]);
    OpenTaken(st, v, tail);
    CloseTaken(st.stack, obj, items.Items?, v.close, tail);
    RunsOne(q', Close(obj), end);
    RunsJoin(q, ItemsEvents(items), q', [Close(obj)], end);
    assert Events(v)[1..] == ItemsEvents(items) + [Close(obj)];
  }

  lemma EventIsScalar(k: Scalar)
    ensures !ScalarEvent(k).Begin?
  {
  }

  lemma OpenTaken(st: State, v: Value, tail: bytes)
    requires v.Container? && st.rest == ValueText(v) + tail && st == Between(st.rest, st.stack)
    requires |st.stack| < MAX_DEPTH
    ensures TakeValue(st)
         == Ok((Begin(v.obj), Between(ItemsText(v.items) + ((v.close + [Closer(v.obj)]) + tail),
                                      st.stack + [Level(v.obj, false)])))
    ensures st.stack != [] ==> TakeInner(st) == TakeValue(st)
  {
    hide TakeScalar, ItemsText;
    assert st.rest[1..] == ItemsText(v.items) + ((v.close + [Closer(v.obj)]) + tail);
  }

  lemma FollowClose(close: bytes, obj: bool, tail: bytes)
    requires AllWs(close)
    ensures Follow((close + [Closer(obj)]) + tail)
  {
    var s := (close + [Closer(obj)]) + tail;
    if close != [] {
      assert s[0] == close[0];
    }
  }

  lemma FollowLead(comma: bytes, s: bytes)
    requires AllWs(comma)
    ensures Follow((comma + [0x2c]) + s)
  {
    if comma != [] {
      assert ((comma + [0x2c]) + s)[0] == comma[0];
    }
  }

  /** All elements of a level, in order. */
  lemma {:induction false} ItemsRun(stack: seq<Level>, obj: bool, items: Items, tail: bytes)
    requires ItemsOk(items, obj) && |stack| + 1 + ItemsDepth(items) <= MAX_DEPTH && Follow(tail)
    ensures Runs(Between(ItemsText(items) + tail, stack + [Level(obj, false)]), ItemsEvents(items),
                 Between(tail, stack + [Level(obj, items.Items?)]))
    decreases items, 2
  {
    hide Next, ValueOk, AllWs, LabelOk, Follow, ValueText, Events, LabelText;
    match items {
      case Empty =>
        assert [] + tail == tail;
      case Items(front, comma, pre, l, v) =>
        var lead := LeadText(front.Empty?, comma, pre, l);
        var rest := lead + (ValueText(v) + tail);
        assert ItemsText(items) + tail == ItemsText(front) + rest;
        var q := Between(rest, stack + [Level(obj, front.Items?)]);
        if !front.Empty? {
          assert rest == (comma + [0x2c]) + ((pre + LabelText(l)) + (ValueText(v) + tail));
          FollowLead(comma, (pre + LabelText(l)) + (ValueText(v) + tail));
          ItemsRun(stack, obj, front, rest);
        } else {
          assert [] + rest == rest;
        }
        ElementRun(stack, obj, front.Empty?, comma, pre, l, v, tail);
        RunsJoin(Between(ItemsText(front) + rest, stack + [Level(obj, false)]), ItemsEvents(front), q,
                 LabelEvents(l) + Events(v), Between(tail, stack + [Level(obj, true)]));
    }
  }

  /** One element: its lead, its name if it has one, and its value. */
  lemma {:induction false} ElementRun(stack: seq<Level>, obj: bool, first: bool, comma: bytes, pre: bytes, l: Label,
                                      v: Value, tail: bytes)
    requires LeadOk(first, obj, comma, pre, l) && ValueOk(v) && |stack| + 1 + Depth(v) <= MAX_DEPTH && Follow(tail)
    ensures Runs(Between(LeadText(first, comma, pre, l) + (ValueText(v) + tail), stack + [Level(obj, !first)]),
                 LabelEvents(l) + Events(v), Between(tail, stack + [Level(obj, true)]))
    decreases v, 1
  {
    hide ValueOk, AllWs, LabelOk, Follow, ValueText, Events, Runs, LabelText, Depth, Reads;
    var levels, s := stack + [Level(obj, !first)], ValueText(v) + tail;
    var sep := if first then [] else comma + [0x2c];
    assert LeadText(first, comma, pre, l) + s == sep + (pre + (LabelText(l) + s));
    ValueStart(v, tail);
    InnerRun(Between(s, levels), v, tail);
    assert MarkSeen(levels) == stack + [Level(obj, true)];
    if obj {
      MemberRun(stack, first, comma, pre, l, v, tail);
    } else {
      PlainRun(stack, first, comma, pre, v, tail);
      assert LabelEvents(l) + Events(v) == Events(v);
      NoLabelText(l, s);
    }
  }

  lemma NoLabelText(l: Label, s: bytes)
    requires l.NoLabel?
    ensures LabelText(l) + s == s
  {
  }

  lemma MemberRun(stack: seq<Level>, first: bool, comma: bytes, pre: bytes, l: Label, v: Value, tail: bytes)
    requires AllWs(comma) && AllWs(pre) && LabelOk(l) && l.Label?
    requires var s, levels := ValueText(v) + tail, stack + [Level(true, !first)];
             Starts(s) && Reads(Between(s, levels), v, tail)
    ensures var s, levels := ValueText(v) + tail, stack + [Level(true, !first)];
            Runs(Between((if first then [] else comma + [0x2c]) + (pre + (LabelText(l) + s)), levels),
                 [Key(l.key)] + Events(v), Between(tail, MarkSeen(levels)))
  {
    hide AllWs, Next, TakeInner, TakeKey, ValueText, Events, Runs, LabelText, Starts;
    var s, levels := ValueText(v) + tail, stack + [Level(true, !first)];
    var q := Between((if first then [] else comma + [0x2c]) + (pre + (LabelText(l) + s)), levels);
    var end := Between(tail, MarkSeen(levels));
    LabelStart(l, s);
    LeadTaken(stack, true, first, comma, pre, LabelText(l) + s);
    KeyTaken(q.(rest := LabelText(l) + s), l, s);
    var q1 := q.(rest := l.gap + s, due := true);
    DueTaken(q1, l.gap, s);
    RunsFrom(q1, Events(v), end);
    RunsOne(q, Key(l.key), q1);
    RunsJoin(q, [Key(l.key)], q1, Events(v), end);
  }

  lemma PlainRun(stack: seq<Level>, first: bool, comma: bytes, pre: bytes, v: Value, tail: bytes)
    requires AllWs(comma) && AllWs(pre)
    requires var s, levels := ValueText(v) + tail, stack + [Level(false, !first)];
             Starts(s) && Reads(Between(s, levels), v, tail)
    ensures var s, levels := ValueText(v) + tail, stack + [Level(false, !first)];
            Runs(Between((if first then [] else comma + [0x2c]) + (pre + s), levels), Events(v),
                Between(tail, MarkSeen(levels)))
  {
    hide AllWs, Next, TakeInner, ValueText, Events, Runs, Starts;
    var s, levels := ValueText(v) + tail, stack + [Level(false, !first)];
    LeadTaken(stack, false, first, comma, pre, s);
    RunsFrom(Between((if first then [] else comma + [0x2c]) + (pre + s), levels), Events(v),
        Between(tail, MarkSeen(levels)));
  }

  lemma LabelStart(l: Label, s: bytes)
    requires l.Label?
    ensures Starts(LabelText(l) + s)
  {
  }

  lemma RunsFrom(q: State, evs: seq<Event>, st': State)
    requires evs != [] && Next(q).Ok? && Next(q).value.0 == evs[0] && Runs(Next(q).value.1, evs[1..], st')
    ensures Runs(q, evs, st')
  {
    hide Next;
  }

  // ---- documents ----

  /** A reader that has delivered the whole document. */
  predicate Finished(st: State) {
    st.done && st.rest == [] && st.stack == []
  }

  lemma NoWsLeft(w: bytes)
    requires AllWs(w)
    ensures AfterWs(w) == []
  {
    WsSkipped(w, []);
    assert w + [] == w;
  }

  lemma TopLeaf(d: Doc) returns (end: State)
    requires DocOk(d) && d.value.Leaf?
    ensures Finished(end) && Runs(Start(DocText(d)), Events(d.value), end)
  {
    hide AllWs, AfterWs, TakeScalar, ScalarText, ScalarOk, ScalarEvent;
    var v := d.value;
    var s := ScalarText(v.tok) + d.after;
    assert DocText(d) == d.before + s;
    ScalarStart(v.tok, d.after);
    SkipTo(d.before, s);
    FollowWs(d.after);
    ScalarComplete(v.tok, d.after);
    NoWsLeft(d.after);
    EventIsScalar(v.tok);
    end := State([], [], true, false, true);
    hide AllWs;
    assert TakeTop(Start(s)) == Ok((ScalarEvent(v.tok), end));
    assert Next(Start(DocText(d))) == TakeTop(Start(s));
    hide Next, Runs;
    RunsOne(Start(DocText(d)), ScalarEvent(v.tok), end);
  }

  lemma FollowWs(w: bytes)
    requires AllWs(w)
    ensures Follow(w)
  {
  }

  lemma TopClose(obj: bool, seen: bool, close: bytes, after: bytes)
    requires AllWs(close) && AllWs(after)
    ensures Next(Between((close + [Closer(obj)]) + after, [Level(obj, seen)]))
         == Ok((Close(obj), State([], [], seen, false, true)))
  {
    hide AllWs, AfterWs;
    var s := [Closer(obj)] + after;
    assert (close + [Closer(obj)]) + after == close + s;
    SkipTo(close, s);
    assert s[1..] == after;
    NoWsLeft(after);
  }

  lemma TopOpen(d: Doc)
    requires DocOk(d) && d.value.Container?
    ensures Next(Start(DocText(d)))
         == Ok((Begin(d.value.obj),
                Between(ItemsText(d.value.items) + ((d.value.close + [Closer(d.value.obj)]) + d.after),
                        [Level(d.value.obj, false)])))
  {
    hide AllWs, AfterWs, TakeScalar, ItemsText;
    var v := d.value;
    var s := ValueText(v) + d.after;
    assert DocText(d) == d.before + s;
    SkipTo(d.before, s);
    assert s[1..] == ItemsText(v.items) + ((v.close + [Closer(v.obj)]) + d.after);
    assert [] + [Level(v.obj, false)] == [Level(v.obj, false)];
  }

  /** A document of the grammar gives its events and then the end, for ever. */
  lemma DocComplete(d: Doc) returns (end: State)
    requires DocOk(d)
    ensures Finished(end) && Runs(Start(DocText(d)), Events(d.value), end) && Next(end) == Ok((End, end))
  {
    if d.value.Leaf? {
      end := TopLeaf(d);
    } else {
      hide AllWs, ItemsText, DocText, Next, Runs;
      var v := d.value;
      var tail, evs := (v.close + [Closer(v.obj)]) + d.after, ItemsEvents(v.items);
      FollowClose(v.close, v.obj, d.after);
      ItemsRun([], v.obj, v.items, tail);
      TopOpen(d);
      var q := Between(ItemsText(v.items) + tail, [Level(v.obj, false)]);
      var q' := Between(tail, [Level(v.obj, v.items.Items?)]);
      assert [] + [Level(v.obj, false)] == q.stack && [] + [Level(v.obj, v.items.Items?)] == q'.stack;
      end := State([], [], v.items.Items?, false, true);
      TopClose(v.obj, v.items.Items?, v.close, d.after);
      RunsOne(Start(DocText(d)), Begin(v.obj), q);
      RunsOne(q', Close(v.obj), end);
      RunsJoin(Start(DocText(d)), [Begin(v.obj)], q, evs, q');
      RunsJoin(Start(DocText(d)), [Begin(v.obj)] + evs, q', [Close(v.obj)], end);
    }
    EndStays(end);
  }

  lemma EndStays(st: State)
    requires st.done
    ensures Next(st) == Ok((End, st))
  {
  }
}
