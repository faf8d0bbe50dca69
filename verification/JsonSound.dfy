/** Whatever the reader delivers without an error is the beginning of a document of the grammar. */
module JsonSound {
  import opened Words
  import opened Errors
  import opened JsonText
  import opened Json
  import opened JsonGrammar

  // ---- a document half read ----

  datatype Lead = NoLead | Lead(comma: bytes, pre: bytes, name: Label)

  /** An open level: its finished elements, and the lead of the one being read. */
  datatype Frame = Frame(obj: bool, items: Items, lead: Lead)

  /** Nothing yet; inside some levels; or the whole document. */
  datatype Progress =
    | Fresh
    | Open(before: bytes, outer: seq<Frame>, top: Frame)
    | Complete(doc: Doc)

  function FrameText(f: Frame): bytes {
    ([Opener(f.obj)] + ItemsText(f.items)) +
    (if f.lead.NoLead? then [] else LeadText(f.items.Empty?, f.lead.comma, f.lead.pre, f.lead.name))
  }

  function FramesText(fs: seq<Frame>): bytes {
    if fs == [] then [] else FramesText(fs[..|fs| - 1]) + FrameText(fs[|fs| - 1])
  }

  function FrameEvents(f: Frame): seq<Event> {
    ([Begin(f.obj)] + ItemsEvents(f.items)) + (if f.lead.NoLead? then [] else LabelEvents(f.lead.name))
  }

  function FramesEvents(fs: seq<Frame>): seq<Event> {
    if fs == [] then [] else FramesEvents(fs[..|fs| - 1]) + FrameEvents(fs[|fs| - 1])
  }

  function LevelOf(f: Frame): Level {
    Level(f.obj, f.items.Items?)
  }

  function Levels(fs: seq<Frame>): (r: seq<Level>)
    ensures |r| == |fs|
  {
    if fs == [] then [] else Levels(fs[..|fs| - 1]) + [LevelOf(fs[|fs| - 1])]
  }

  /** A well-formed level with d levels outside it. */
  predicate FrameOk(f: Frame, d: nat) {
    && ItemsOk(f.items, f.obj) && d + 1 + ItemsDepth(f.items) <= MAX_DEPTH
    && (f.lead.Lead? ==> LeadOk(f.items.Empty?, f.obj, f.lead.comma, f.lead.pre, f.lead.name))
  }

  /** Every outer level is waiting for the value inside it. */
  predicate OuterOk(fs: seq<Frame>) {
    fs != [] ==> OuterOk(fs[..|fs| - 1]) && FrameOk(fs[|fs| - 1], |fs| - 1) && fs[|fs| - 1].lead.Lead?
  }

  /** What has been read, as text and as events, and the open levels agree with the reader's state. */
  predicate Body(buf: bytes, st: State, evs: seq<Event>, p: Progress)
    requires p.Open?
  {
    && !st.done && !st.started && st.stack == Levels(p.outer) + [LevelOf(p.top)]
    && AllWs(p.before) && OuterOk(p.outer) && FrameOk(p.top, |p.outer|)
    && buf == (p.before + FramesText(p.outer)) + (FrameText(p.top) + st.rest)
    && evs == FramesEvents(p.outer) + FrameEvents(p.top)
  }

  /** A value is due exactly after a name, whose gap has not been read yet. */
  predicate DueOk(st: State, top: Frame) {
    if st.due then top.lead.Lead? && top.lead.name.Label? && top.lead.name.gap == [] else top.lead.NoLead?
  }

  predicate Inv(buf: bytes, st: State, evs: seq<Event>, p: Progress) {
    match p
    case Fresh => st == Start(buf) && evs == []
    case Open(_, _, _) => Body(buf, st, evs, p) && DueOk(st, p.top)
    case Complete(doc) =>
      st.done && !st.due && DocOk(doc) && DocText(doc) == buf && Events(doc.value) <= evs
      && forall i :: |Events(doc.value)| <= i < |evs| ==> evs[i] == End
  }

  /** The reader stands on a value whose lead has been read. */
  predicate Ready(buf: bytes, st: State, evs: seq<Event>, p: Progress) {
    p.Open? && Body(buf, st, evs, p) && !st.due && p.top.lead.Lead?
  }

  /** The level after the value being read is complete. */
  function Attach(f: Frame, v: Value): Frame
    requires f.lead.Lead?
  {
    Frame(f.obj, Items(f.items, f.lead.comma, f.lead.pre, f.lead.name, v), NoLead)
  }

  /** The levels outside stay as they are; there may be one more. */
  predicate Keeps(p: Progress, p': Progress) {
    p.Open? && p'.Open? && p'.before == p.before && p.outer <= p'.outer
  }

  /** The innermost level has become a value of the one outside it. */
  predicate Closes(p: Progress, p': Progress) {
    && p.Open? && p.outer != [] && p'.Open? && p'.before == p.before && p'.outer == p.outer[..|p.outer| - 1]
    && p.outer[|p.outer| - 1].lead.Lead? && p'.top.items.Items?
    && (var v := p'.top.items.value;
        p'.top == Attach(p.outer[|p.outer| - 1], v) && ValueOk(v) && |p.outer| + Depth(v) <= MAX_DEPTH)
  }

  // ---- the top level ----

  lemma TopScalar(buf: bytes, t: Scalar, s: bytes, rest: bytes) returns (p: Progress)
    requires ScalarOk(t) && AfterWs(buf) == s == ScalarText(t) + rest && AfterWs(rest) == []
    ensures p.Complete? && Inv(buf, State([], [], true, false, true), [ScalarEvent(t)], p)
  {
    var before := buf[..WsLen(buf)];
    WsSplit(buf);
    WsSplit(rest);
    hide AfterWs, AllWs, ScalarText, ScalarOk;
    var doc := Doc(before, Leaf(t), rest);
    assert rest == rest[..WsLen(rest)] + [] == rest[..WsLen(rest)];
    assert DocText(doc) == before + s;
    p := Complete(doc);
  }

  lemma TopBegin(buf: bytes, obj: bool, s: bytes) returns (p: Progress)
    requires AfterWs(buf) == s && s != [] && s[0] == Opener(obj)
    ensures Inv(buf, State(s[1..], [Level(obj, false)], false, false, false), [Begin(obj)], p)
  {
    WsSplit(buf);
    hide AfterWs, AllWs;
    p := Open(buf[..WsLen(buf)], [], Frame(obj, Empty, NoLead));
    assert FrameText(p.top) == [Opener(obj)] && FrameEvents(p.top) == [Begin(obj)];
    assert s == [Opener(obj)] + s[1..];
    assert p.before + FramesText([]) == p.before;
    assert [] + [Level(obj, false)] == [Level(obj, false)];
  }

  lemma TopStep(buf: bytes) returns (p: Progress)
    requires Next(Start(buf)).Ok?
    ensures var (ev, st') := Next(Start(buf)).value; Inv(buf, st', [ev], p)
  {
    var s := AfterWs(buf);
    hide AfterWs, TakeScalar, Inv;
    if s[0] == Opener(true) || s[0] == Opener(false) {
      p := TopBegin(buf, s[0] == Opener(true), s);
      assert [] + [Level(s[0] == Opener(true), false)] == [Level(s[0] == Opener(true), false)];
    } else {
      var t := ScalarSound(s);
      p := TopScalar(buf, t, s, TakeScalar(s).value.1);
    }
  }

  // ---- inside a level ----

  lemma AttachGrows(f: Frame, v: Value, d: nat)
    requires f.lead.Lead? && FrameOk(f, d) && ValueOk(v) && d + 1 + Depth(v) <= MAX_DEPTH
    ensures FrameText(Attach(f, v)) == FrameText(f) + ValueText(v)
    ensures FrameEvents(Attach(f, v)) == FrameEvents(f) + Events(v)
    ensures FrameOk(Attach(f, v), d)
  {
    hide ItemsOk, LeadOk, ValueOk, ValueText, Events, LeadText, LabelEvents;
    var lead := LeadText(f.items.Empty?, f.lead.comma, f.lead.pre, f.lead.name);
    var l := LabelEvents(f.lead.name);
    var f' := Attach(f, v);
    assert ItemsText(f'.items) == ItemsText(f.items) + (lead + ValueText(v));
    assert ItemsEvents(f'.items) == ItemsEvents(f.items) + (l + Events(v));
    AttachOk(f, v, d);
  }

  lemma AttachOk(f: Frame, v: Value, d: nat)
    requires f.lead.Lead? && FrameOk(f, d) && ValueOk(v) && d + 1 + Depth(v) <= MAX_DEPTH
    ensures FrameOk(Attach(f, v), d)
  {
    hide LeadOk, ValueOk;
  }

  /** More text after the same frames. */
  lemma Regroup(b: bytes, f: bytes, x: bytes, r: bytes)
    ensures b + (f + (x + r)) == b + ((f + x) + r)
  {
    assert f + (x + r) == (f + x) + r;
  }

  lemma ScalarStep(buf: bytes, st: State, evs: seq<Event>, p: Progress, t: Scalar, rest: bytes) returns (p': Progress)
    requires Ready(buf, st, evs, p) && ScalarOk(t) && st.rest == ScalarText(t) + rest
    ensures Inv(buf, st.(rest := rest, stack := MarkSeen(st.stack)), evs + [ScalarEvent(t)], p') && Keeps(p, p')
  {
    hide OuterOk, FrameOk, AllWs, ScalarOk, ScalarText, FrameText, FrameEvents, FramesText, FramesEvents;
    var v := Leaf(t);
    p' := p.(top := Attach(p.top, v));
    AttachScalar(p.top, t, |p.outer|);
    Regroup(p.before + FramesText(p.outer), FrameText(p.top), ScalarText(t), rest);
    assert evs + [ScalarEvent(t)] == FramesEvents(p.outer) + (FrameEvents(p.top) + [ScalarEvent(t)]);
    assert MarkSeen(st.stack) == Levels(p.outer) + [LevelOf(p'.top)];
  }

  lemma AttachScalar(f: Frame, t: Scalar, d: nat)
    requires f.lead.Lead? && FrameOk(f, d) && ScalarOk(t)
    ensures FrameText(Attach(f, Leaf(t))) == FrameText(f) + ScalarText(t)
    ensures FrameEvents(Attach(f, Leaf(t))) == FrameEvents(f) + [ScalarEvent(t)]
    ensures FrameOk(Attach(f, Leaf(t)), d)
  {
    hide ScalarOk, ScalarText, ScalarEvent, FrameText, FrameEvents;
    DepthRoom(f, d);
    AttachGrows(f, Leaf(t), d);
  }

  lemma DepthRoom(f: Frame, d: nat)
    requires FrameOk(f, d)
    ensures d + 1 <= MAX_DEPTH
  {
  }

  lemma PushFrames(outer: seq<Frame>, top: Frame)
    ensures FramesText(outer + [top]) == FramesText(outer) + FrameText(top)
    ensures FramesEvents(outer + [top]) == FramesEvents(outer) + FrameEvents(top)
    ensures Levels(outer + [top]) == Levels(outer) + [LevelOf(top)]
    ensures OuterOk(outer) && FrameOk(top, |outer|) && top.lead.Lead? ==> OuterOk(outer + [top])
  {
    hide FrameText, FrameEvents, FrameOk;
    assert (outer + [top])[..|outer|] == outer;
  }

  lemma NewFrame(obj: bool)
    ensures var f := Frame(obj, Empty, NoLead);
            FrameText(f) == [Opener(obj)] && FrameEvents(f) == [Begin(obj)] && LevelOf(f) == Level(obj, false)
    ensures forall d: nat :: d + 1 <= MAX_DEPTH ==> FrameOk(Frame(obj, Empty, NoLead), d)
  {
  }

  lemma BeginStep(buf: bytes, st: State, evs: seq<Event>, p: Progress, obj: bool) returns (p': Progress)
    requires Ready(buf, st, evs, p) && st.rest != [] && st.rest[0] == Opener(obj) && |st.stack| < MAX_DEPTH
    ensures Inv(buf, State(st.rest[1..], st.stack + [Level(obj, false)], false, false, false), evs + [Begin(obj)], p')
    ensures p' == Open(p.before, p.outer + [p.top], Frame(obj, Empty, NoLead))
  {
    hide OuterOk, FrameOk, AllWs, FrameText, FrameEvents, FramesText, FramesEvents, Levels;
    var outer' := p.outer + [p.top];
    p' := Open(p.before, outer', Frame(obj, Empty, NoLead));
    PushFrames(p.outer, p.top);
    NewFrame(obj);
    assert FrameOk(p'.top, |outer'|);
    assert st.rest == [Opener(obj)] + st.rest[1..];
    assert (p.before + FramesText(p.outer)) + (FrameText(p.top) + st.rest)
        == (p.before + (FramesText(p.outer) + FrameText(p.top))) + st.rest;
  }

  /** Taking a value keeps what has been read a prefix of a document. */
  lemma InnerStep(buf: bytes, st: State, evs: seq<Event>, p: Progress) returns (p': Progress)
    requires Ready(buf, st, evs, p) && TakeInner(st).Ok?
    ensures var (ev, st') := TakeInner(st).value; Inv(buf, st', evs + [ev], p') && !ev.Close? && Keeps(p, p')
  {
    hide TakeScalar, Inv, Ready, Body;
    ReadyFlags(buf, st, evs, p);
    if st.rest[0] == Opener(true) || st.rest[0] == Opener(false) {
      p' := BeginStep(buf, st, evs, p, st.rest[0] == Opener(true));
    } else {
      var t := ScalarSound(st.rest);
      ScalarNotBegin(t);
      hide ScalarText, ScalarOk, ScalarEvent;
      p' := ScalarStep(buf, st, evs, p, t, TakeScalar(st.rest).value.1);
    }
  }

  lemma ScalarNotBegin(t: Scalar)
    ensures !ScalarEvent(t).Begin? && !ScalarEvent(t).Close?
  {
  }

  lemma ReadyFlags(buf: bytes, st: State, evs: seq<Event>, p: Progress)
    requires Ready(buf, st, evs, p)
    ensures p.Open? && !st.done && !st.started && !st.due && st.stack != []
  {
  }

  // ---- leads ----

  /** Reading the lead of the next element. */
  lemma LeadGrows(buf: bytes, st: State, evs: seq<Event>, p: Progress, lead: Lead, rest: bytes) returns (p': Progress)
    requires p.Open? && Body(buf, st, evs, p) && p.top.lead.NoLead? && lead.Lead?
    requires LeadOk(p.top.items.Empty?, p.top.obj, lead.comma, lead.pre, lead.name)
    requires st.rest == LeadText(p.top.items.Empty?, lead.comma, lead.pre, lead.name) + rest
    ensures p' == p.(top := p.top.(lead := lead))
    ensures Body(buf, st.(rest := rest), evs + LabelEvents(lead.name), p')
  {
    hide OuterOk, AllWs, FramesText, FramesEvents, LeadText, ItemsText, ItemsEvents, ItemsOk, LabelOk, LabelEvents;
    var text := LeadText(p.top.items.Empty?, lead.comma, lead.pre, lead.name);
    p' := p.(top := p.top.(lead := lead));
    assert FrameText(p'.top) == FrameText(p.top) + text;
    assert FrameEvents(p'.top) == FrameEvents(p.top) + LabelEvents(lead.name);
    Regroup(p.before + FramesText(p.outer), FrameText(p.top), text, rest);
    assert evs + LabelEvents(lead.name) == FramesEvents(p.outer) + (FrameEvents(p.top) + LabelEvents(lead.name));
  }

  /** The commas and white space in front of an element. */
  lemma CommaSplit(rest: bytes, lvl: Level, s': bytes) returns (comma: bytes, pre: bytes)
    requires AfterWs(rest) != [] && TakeComma(AfterWs(rest), lvl) == Ok(s')
    ensures AllWs(comma) && AllWs(pre) && (!lvl.seen ==> comma == [])
    ensures rest == (if lvl.seen then comma + [0x2c] else []) + (pre + s')
  {
    WsSplit(rest);
    var w, s := rest[..WsLen(rest)], AfterWs(rest);
    if lvl.seen {
      WsSplit(s[1..]);
      hide AllWs, AfterWs;
      comma, pre := w, s[1..][..WsLen(s[1..])];
      assert s == [0x2c] + s[1..];
      assert w + ([0x2c] + (pre + s')) == (w + [0x2c]) + (pre + s');
    } else {
      hide AllWs, AfterWs;
      comma, pre := [], w;
      assert [] + (pre + s') == pre + s';
    }
  }

  lemma PlainLead(first: bool, comma: bytes, pre: bytes, s: bytes)
    ensures LeadText(first, comma, pre, NoLabel) + s == (if first then [] else comma + [0x2c]) + (pre + s)
  {
    assert pre + [] == pre;
  }

  lemma NamedLead(first: bool, comma: bytes, pre: bytes, l: Label, s: bytes)
    requires l.Label? && l.gap == []
    ensures LeadText(first, comma, pre, l) + s
         == (if first then [] else comma + [0x2c]) + (pre + (Quoted(l.key) + (l.colon + ([0x3a] + s))))
  {
    hide Quoted;
    assert LabelText(l) + s == Quoted(l.key) + (l.colon + ([0x3a] + s));
    assert (pre + LabelText(l)) + s == pre + (LabelText(l) + s);
  }

  /** An element of an array. */
  lemma ElementStep(buf: bytes, st: State, evs: seq<Event>, p: Progress, s': bytes) returns (p': Progress)
    requires p.Open? && Inv(buf, st, evs, p) && !st.due && !p.top.obj && AfterWs(st.rest) != []
    requires TakeComma(AfterWs(st.rest), LevelOf(p.top)) == Ok(s') && TakeInner(st.(rest := s')).Ok?
    ensures var (ev, st') := TakeInner(st.(rest := s')).value;
            Inv(buf, st', evs + [ev], p') && !ev.Close? && Keeps(p, p')
  {
    hide AfterWs, AllWs, TakeComma, TakeInner, Body;
    var comma, pre := CommaSplit(st.rest, LevelOf(p.top), s');
    PlainLead(p.top.items.Empty?, comma, pre, s');
    hide LeadText;
    var p1 := LeadGrows(buf, st, evs, p, Lead(comma, pre, NoLabel), s');
    assert evs + [] == evs;
    p' := InnerStep(buf, st.(rest := s'), evs, p1);
  }

  /** The name of a member. */
  lemma NameStep(buf: bytes, st: State, evs: seq<Event>, p: Progress, s': bytes) returns (p': Progress)
    requires p.Open? && Inv(buf, st, evs, p) && !st.due && p.top.obj && AfterWs(st.rest) != []
    requires TakeComma(AfterWs(st.rest), LevelOf(p.top)) == Ok(s') && TakeKey(st.(rest := s')).Ok?
    ensures var (ev, st') := TakeKey(st.(rest := s')).value; Inv(buf, st', evs + [ev], p') && !ev.Close? && Keeps(p, p')
  {
    var b, colon, r := KeySplit(st, s');
    hide AfterWs, AllWs, TakeComma, TakeKey, Body, Chars, Quoted;
    var comma, pre := CommaSplit(st.rest, LevelOf(p.top), s');
    var l := Label(b, colon, []);
    NamedLead(p.top.items.Empty?, comma, pre, l, r);
    hide LeadText;
    NoWs();
    p' := LeadGrows(buf, st, evs, p, Lead(comma, pre, l), r);
    BodyDue(buf, st.(rest := r), evs + [Key(b)], p');
  }

  lemma NoWs()
    ensures AllWs([])
  {
  }

  lemma BodyDue(buf: bytes, st: State, evs: seq<Event>, p: Progress)
    requires p.Open? && Body(buf, st, evs, p)
    ensures Body(buf, st.(due := true), evs, p) && Body(buf, st.(due := false), evs, p)
  {
    hide OuterOk, FrameOk, AllWs, FrameText, FrameEvents, FramesText, FramesEvents, Levels;
  }

  lemma KeySplit(st: State, s: bytes) returns (b: bytes, colon: bytes, r: bytes)
    requires TakeKey(st.(rest := s)).Ok?
    ensures Chars(b) && AllWs(colon) && s == Quoted(b) + (colon + ([0x3a] + r))
    ensures TakeKey(st.(rest := s)) == Ok((Key(b), st.(rest := r, due := true)))
  {
    hide AfterWs, AllWs;
    var k := TakeString(s).value;
    b := k.0;
    StringSound(s[1..]);
    assert s[1..][..StringEnd(s[1..]).value] == b;
    hide TakeString, Chars, StringEnd;
    WsSplit(k.1);
    colon, r := k.1[..WsLen(k.1)], AfterWs(k.1)[1..];
    assert AfterWs(k.1) == [0x3a] + r;
  }

  /** The value after a name. */
  lemma DueStep(buf: bytes, st: State, evs: seq<Event>, p: Progress) returns (p': Progress)
    requires p.Open? && Inv(buf, st, evs, p) && st.due && TakeInner(st.(rest := AfterWs(st.rest), due := false)).Ok?
    ensures var (ev, st') := TakeInner(st.(rest := AfterWs(st.rest), due := false)).value;
            Inv(buf, st', evs + [ev], p') && !ev.Close? && Keeps(p, p')
  {
    hide TakeInner;
    WsSplit(st.rest);
    var gap, s := st.rest[..WsLen(st.rest)], AfterWs(st.rest);
    var p1 := GapGrows(buf, st, evs, p, gap, s);
    hide AfterWs, AllWs, Body;
    BodyDue(buf, st.(rest := s), evs, p1);
    p' := InnerStep(buf, st.(rest := s, due := false), evs, p1);
  }

  lemma GapGrows(buf: bytes, st: State, evs: seq<Event>, p: Progress, gap: bytes, s: bytes) returns (p1: Progress)
    requires p.Open? && Inv(buf, st, evs, p) && st.due && AllWs(gap) && st.rest == gap + s
    ensures p1.Open? && p1 == p.(top := p1.top) && p1.top.lead.Lead? && Body(buf, st.(rest := s), evs, p1)
    ensures FrameText(p1.top) == FrameText(p.top) + gap && LevelOf(p1.top) == LevelOf(p.top)
  {
    hide OuterOk, AllWs, FramesText, FramesEvents, FrameText, FrameEvents, FrameOk, Levels;
    var lead := p.top.lead;
    var top' := p.top.(lead := Lead(lead.comma, lead.pre, Label(lead.name.key, lead.name.colon, gap)));
    p1 := p.(top := top');
    GapFrame(p.top, top', gap, |p.outer|);
    Regroup(p.before + FramesText(p.outer), FrameText(p.top), gap, s);
  }

  lemma GapFrame(f: Frame, f': Frame, gap: bytes, d: nat)
    requires f.lead.Lead? && f.lead.name.Label? && f.lead.name.gap == [] && FrameOk(f, d) && AllWs(gap)
    requires f' == f.(lead := Lead(f.lead.comma, f.lead.pre, Label(f.lead.name.key, f.lead.name.colon, gap)))
    ensures FrameText(f') == FrameText(f) + gap && FrameEvents(f') == FrameEvents(f) && FrameOk(f', d)
    ensures LevelOf(f') == LevelOf(f)
  {
    hide LeadText, ItemsText, ItemsEvents, ItemsOk, AllWs, Chars;
    GapText(f.items.Empty?, f.lead.comma, f.lead.pre, f.lead.name, f'.lead.name);
  }

  lemma GapText(first: bool, comma: bytes, pre: bytes, l: Label, l': Label)
    requires l.Label? && l.gap == [] && l'.Label? && l' == l.(gap := l'.gap)
    ensures LeadText(first, comma, pre, l') == LeadText(first, comma, pre, l) + l'.gap
  {
    hide Quoted;
    assert LabelText(l') == LabelText(l) + l'.gap;
    assert pre + LabelText(l') == (pre + LabelText(l)) + l'.gap;
  }

  // ---- closing ----

  lemma CloseText(f: Frame, close: bytes)
    requires f.lead.NoLead?
    ensures FrameText(f) + (close + [Closer(f.obj)]) == ValueText(Container(f.obj, f.items, close))
    ensures FrameEvents(f) + [Close(f.obj)] == Events(Container(f.obj, f.items, close))
  {
    hide ItemsText, ItemsEvents;
    assert FrameText(f) == [Opener(f.obj)] + ItemsText(f.items);
    assert FrameEvents(f) == [Begin(f.obj)] + ItemsEvents(f.items);
  }

  lemma CloseOk(f: Frame, close: bytes, d: nat)
    requires f.lead.NoLead? && FrameOk(f, d) && AllWs(close)
    ensures var v := Container(f.obj, f.items, close); ValueOk(v) && d + Depth(v) <= MAX_DEPTH
  {
    hide ItemsOk, AllWs;
  }

  /** The last level closes and only white space follows. */
  lemma LastClose(buf: bytes, st: State, evs: seq<Event>, p: Progress, close: bytes, after: bytes)
    returns (p': Progress)
    requires p.Open? && Inv(buf, st, evs, p) && !st.due && p.outer == []
    requires AllWs(close) && AllWs(after) && st.rest == close + ([Closer(p.top.obj)] + after)
    ensures p'.Complete? && Inv(buf, State([], [], p.top.items.Items?, false, true), evs + [Close(p.top.obj)], p')
  {
    hide AllWs, FrameText, FrameEvents, FrameOk, OuterOk, ValueText, Events, ValueOk, Depth;
    var v := Container(p.top.obj, p.top.items, close);
    CloseText(p.top, close);
    CloseOk(p.top, close, 0);
    p' := Complete(Doc(p.before, v, after));
    assert FramesText([]) == [] && FramesEvents([]) == [];
    assert p.before + [] == p.before && [] + FrameEvents(p.top) == FrameEvents(p.top);
    assert FrameText(p.top) + st.rest == (FrameText(p.top) + (close + [Closer(p.top.obj)])) + after;
  }

  lemma PopFrames(outer: seq<Frame>)
    requires outer != [] && OuterOk(outer)
    ensures var (rest, f) := (outer[..|outer| - 1], outer[|outer| - 1]);
            && FramesText(outer) == FramesText(rest) + FrameText(f)
            && FramesEvents(outer) == FramesEvents(rest) + FrameEvents(f)
            && Levels(outer) == Levels(rest) + [LevelOf(f)]
            && OuterOk(rest) && FrameOk(f, |rest|) && f.lead.Lead?
  {
    hide FrameText, FrameEvents, FrameOk;
  }

  /** An inner level closes and becomes a value of the one outside it. */
  lemma InnerClose(buf: bytes, st: State, evs: seq<Event>, p: Progress, close: bytes, rest: bytes)
    returns (p': Progress)
    requires p.Open? && Inv(buf, st, evs, p) && !st.due && p.outer != []
    requires AllWs(close) && st.rest == close + ([Closer(p.top.obj)] + rest)
    ensures var next := State(rest, MarkSeen(st.stack[..|st.stack| - 1]), false, false, false);
            Inv(buf, next, evs + [Close(p.top.obj)], p') && Closes(p, p')
  {
    hide AllWs, FrameText, FrameEvents, FramesText, FramesEvents, FrameOk, OuterOk, ValueText, Events, ValueOk, Depth,
         Levels;
    var outer, f := p.outer[..|p.outer| - 1], p.outer[|p.outer| - 1];
    var v := Container(p.top.obj, p.top.items, close);
    PopFrames(p.outer);
    CloseText(p.top, close);
    CloseOk(p.top, close, |p.outer|);
    AttachGrows(f, v, |outer|);
    p' := Open(p.before, outer, Attach(f, v));
    assert st.stack[..|st.stack| - 1] == Levels(p.outer);
    assert MarkSeen(Levels(p.outer)) == Levels(outer) + [LevelOf(p'.top)];
    CloseBytes(p.before, FramesText(outer), FrameText(f), FrameText(p.top), close + [Closer(p.top.obj)], rest);
    assert st.rest == (close + [Closer(p.top.obj)]) + rest;
    assert evs + [Close(p.top.obj)]
        == FramesEvents(outer) + (FrameEvents(f) + (FrameEvents(p.top) + [Close(p.top.obj)]));
  }

  lemma CloseBytes(b: bytes, o: bytes, f: bytes, t: bytes, c: bytes, r: bytes)
    ensures (b + (o + f)) + (t + (c + r)) == (b + o) + ((f + (t + c)) + r)
  {
    assert t + (c + r) == (t + c) + r;
    assert f + ((t + c) + r) == (f + (t + c)) + r;
    assert (b + (o + f)) + ((t + c) + r) == (b + o) + (f + ((t + c) + r));
  }

  lemma CloseStep(buf: bytes, st: State, evs: seq<Event>, p: Progress) returns (p': Progress)
    requires p.Open? && Inv(buf, st, evs, p)
    requires var s := AfterWs(st.rest); s != [] && s[0] == Closer(p.top.obj) && TakeClose(st.(rest := s)).Ok?
    ensures var (ev, st') := TakeClose(st.(rest := AfterWs(st.rest))).value; ev.Close? && Inv(buf, st', evs + [ev], p')
    ensures p.outer != [] ==> Closes(p, p')
  {
    var s := AfterWs(st.rest);
    var close := st.rest[..WsLen(st.rest)];
    WsSplit(st.rest);
    assert s == [Closer(p.top.obj)] + s[1..];
    TopLevel(buf, st, evs, p);
    if p.outer == [] {
      WsSplit(s[1..]);
      hide AllWs, AfterWs, Inv;
      assert s[1..] == s[1..][..WsLen(s[1..])] + [] == s[1..][..WsLen(s[1..])];
      p' := LastClose(buf, st, evs, p, close, s[1..]);
    } else {
      hide AllWs, AfterWs, Inv;
      p' := InnerClose(buf, st, evs, p, close, s[1..]);
    }
  }

  lemma TopLevel(buf: bytes, st: State, evs: seq<Event>, p: Progress)
    requires p.Open? && Inv(buf, st, evs, p)
    ensures |st.stack| == |p.outer| + 1 && st.stack[|p.outer|] == LevelOf(p.top) && !st.done
    ensures st.due ==> p.top.lead.Lead?
  {
    hide AllWs, FrameText, FrameEvents, FramesText, FramesEvents, FrameOk, OuterOk;
  }

  // ---- every call ----

  /** One call inside a level closes it, or keeps the levels outside it. */
  lemma OpenStep(buf: bytes, st: State, evs: seq<Event>, p: Progress) returns (p': Progress)
    requires p.Open? && Inv(buf, st, evs, p) && Next(st).Ok?
    ensures var (ev, st') := Next(st).value; Inv(buf, st', evs + [ev], p')
    ensures p.outer != [] ==> if Next(st).value.0.Close? then Closes(p, p') else Keeps(p, p')
  {
    TopLevel(buf, st, evs, p);
    hide AfterWs, TakeClose, TakeInner, TakeKey, TakeComma, Inv, Keeps, Closes;
    var s := AfterWs(st.rest);
    if s[0] == Closer(p.top.obj) {
      p' := CloseStep(buf, st, evs, p);
    } else if st.due {
      p' := DueStep(buf, st, evs, p);
    } else {
      var s' := TakeComma(s, LevelOf(p.top)).value;
      if p.top.obj {
        p' := NameStep(buf, st, evs, p, s');
      } else {
        p' := ElementStep(buf, st, evs, p, s');
      }
    }
  }

  /** One call keeps what has been read the beginning of a document, or completes one. */
  lemma StepSound(buf: bytes, st: State, evs: seq<Event>, p: Progress) returns (p': Progress)
    requires Inv(buf, st, evs, p) && Next(st).Ok?
    ensures var (ev, st') := Next(st).value; Inv(buf, st', evs + [ev], p')
  {
    match p {
      case Fresh =>
        hide Next;
        p' := TopStep(buf);
        assert [] + [Next(st).value.0] == [Next(st).value.0];
      case Complete(doc) =>
        hide DocOk, DocText, Events;
        p' := p;
      case Open(_, _, _) =>
        hide Next, Inv;
        p' := OpenStep(buf, st, evs, p);
    }
  }

  lemma {:induction false} RunSound(buf: bytes, st: State, evs: seq<Event>, p: Progress, more: seq<Event>, st': State)
    returns (p': Progress)
    requires Inv(buf, st, evs, p) && Runs(st, more, st')
    ensures Inv(buf, st', evs + more, p')
    decreases |more|
  {
    hide Inv, Next;
    if more == [] {
      p' := p;
      assert evs + more == evs;
    } else {
      var p1 := StepSound(buf, st, evs, p);
      p' := RunSound(buf, Next(st).value.1, evs + [more[0]], p1, more[1..], st');
      assert (evs + [more[0]]) + more[1..] == evs + more;
    }
  }
}
