/** Documents as concrete syntax trees: the grammar of section 2 of RFC 8259, its text and its events. */
module JsonGrammar {
  import opened Words
  import opened Errors
  import opened JsonText
  import opened Json

  datatype Scalar = StrTok(body: bytes) | NumTok(n: Num) | TrueTok | FalseTok | NullTok

  /** A member's name, with the white space before and after its colon. */
  datatype Label = NoLabel | Label(key: bytes, colon: bytes, gap: bytes)

  datatype Value =
    | Leaf(tok: Scalar)
    | Container(obj: bool, items: Items, close: bytes)

  /** Elements or members from the left, each with the white space before its comma and before itself. */
  datatype Items =
    | Empty
    | Items(front: Items, comma: bytes, pre: bytes, name: Label, value: Value)

  datatype Doc = Doc(before: bytes, value: Value, after: bytes)

  // ---- well-formedness ----

  predicate ScalarOk(t: Scalar) {
    match t
    case StrTok(b) => Chars(b)
    case NumTok(n) => IsNum(n)
    case _ => true
  }

  predicate LabelOk(l: Label) {
    l.Label? ==> Chars(l.key) && AllWs(l.colon) && AllWs(l.gap)
  }

  /** White space, and a comma exactly when something stands before. */
  predicate LeadOk(first: bool, obj: bool, comma: bytes, pre: bytes, l: Label) {
    AllWs(comma) && AllWs(pre) && LabelOk(l) && (l.Label? <==> obj) && (first ==> comma == [])
  }

  predicate ValueOk(v: Value) {
    match v
    case Leaf(t) => ScalarOk(t)
    case Container(obj, items, close) => ItemsOk(items, obj) && AllWs(close)
  }

  predicate ItemsOk(it: Items, obj: bool) {
    match it
    case Empty => true
    case Items(front, comma, pre, l, v) => ItemsOk(front, obj) && LeadOk(front.Empty?, obj, comma, pre, l) && ValueOk(v)
  }

  function Max(a: nat, b: nat): nat {
    if a < b then b else a
  }

  function Depth(v: Value): nat {
    match v
    case Leaf(_) => 0
    case Container(_, items, _) => 1 + ItemsDepth(items)
  }

  function ItemsDepth(it: Items): nat {
    match it
    case Empty => 0
    case Items(front, _, _, _, v) => Max(ItemsDepth(front), Depth(v))
  }

  predicate DocOk(d: Doc) {
    AllWs(d.before) && AllWs(d.after) && ValueOk(d.value) && Depth(d.value) <= MAX_DEPTH
  }

  // ---- text ----

  function Quoted(b: bytes): bytes {
    [QUOTE] + b + [QUOTE]
  }

  function ScalarText(t: Scalar): bytes {
    match t
    case StrTok(b) => Quoted(b)
    case NumTok(n) => NumText(n)
    case TrueTok => TRUE
    case FalseTok => FALSE
    case NullTok => NULL
  }

  function LabelText(l: Label): bytes {
    if l.NoLabel? then [] else Quoted(l.key) + (l.colon + [0x3a] + l.gap)
  }

  /** What stands before an element's value. */
  function LeadText(first: bool, comma: bytes, pre: bytes, l: Label): bytes {
    (if first then [] else comma + [0x2c]) + (pre + LabelText(l))
  }

  function ValueText(v: Value): bytes {
    match v
    case Leaf(t) => ScalarText(t)
    case Container(obj, items, close) => [Opener(obj)] + ItemsText(items) + (close + [Closer(obj)])
  }

  function ItemsText(it: Items): bytes {
    match it
    case Empty => []
    case Items(front, comma, pre, l, v) => ItemsText(front) + (LeadText(front.Empty?, comma, pre, l) + ValueText(v))
  }

  function DocText(d: Doc): bytes {
    d.before + ValueText(d.value) + d.after
  }

  // ---- events ----

  function ScalarEvent(t: Scalar): Event {
    match t
    case StrTok(b) => Str(b)
    case NumTok(n) => NumberEvent(n)
    case TrueTok => Bool(true)
    case FalseTok => Bool(false)
    case NullTok => Null
  }

  function LabelEvents(l: Label): seq<Event> {
    if l.NoLabel? then [] else [Key(l.key)]
  }

  /** A value's events in order. */
  function Events(v: Value): seq<Event> {
    match v
    case Leaf(t) => [ScalarEvent(t)]
    case Container(obj, items, _) => [Begin(obj)] + ItemsEvents(items) + [Close(obj)]
  }

  function ItemsEvents(it: Items): seq<Event> {
    match it
    case Empty => []
    case Items(front, _, _, l, v) => ItemsEvents(front) + (LabelEvents(l) + Events(v))
  }

  // ---- runs ----

  /** The calls from st give these events, one each, and leave the reader in st'. */
  predicate Runs(st: State, evs: seq<Event>, st': State)
    decreases |evs|
  {
    if evs == [] then st == st'
    else
      var r := Next(st);
      r.Ok? && r.value.0 == evs[0] && Runs(r.value.1, evs[1..], st')
  }

  lemma {:induction false} RunsJoin(a: State, e1: seq<Event>, b: State, e2: seq<Event>, c: State)
    requires Runs(a, e1, b) && Runs(b, e2, c)
    ensures Runs(a, e1 + e2, c)
    decreases |e1|
  {
    hide Next;
    if e1 == [] {
      assert e1 + e2 == e2;
    } else {
      RunsJoin(Next(a).value.1, e1[1..], b, e2, c);
      assert (e1 + e2)[1..] == e1[1..] + e2;
    }
  }

  lemma RunsOne(st: State, ev: Event, st': State)
    requires Next(st) == Ok((ev, st'))
    ensures Runs(st, [ev], st')
  {
    hide Next;
    assert [ev][1..] == [];
  }

  // ---- scalars ----

  /** A scalar the reader takes is a token of the grammar. */
  lemma ScalarSound(s: bytes) returns (t: Scalar)
    requires TakeScalar(s).Ok?
    ensures ScalarOk(t) && s == ScalarText(t) + TakeScalar(s).value.1 && TakeScalar(s).value.0 == ScalarEvent(t)
  {
    hide NumText, IsNum, ScanNum, Chars;
    if s[0] == QUOTE {
      var b := TakeString(s).value.0;
      StringSound(s[1..]);
      assert s[1..][..StringEnd(s[1..]).value] == b;
      hide TakeString;
      t := StrTok(b);
    } else if s[0] == 0x74 {
      t := TrueTok;
    } else if s[0] == 0x66 {
      t := FalseTok;
    } else if s[0] == 0x6e {
      t := NullTok;
    } else {
      NumSound(s);
      t := NumTok(ScanNum(s).value);
      PrefixSplit(NumText(t.n), s);
    }
  }

  /** What may follow a value. */
  predicate Follow(t: bytes) {
    t == [] || Ws(t[0]) || t[0] == 0x2c || t[0] == 0x5d || t[0] == 0x7d
  }

  lemma StringTaken(b: bytes, t: bytes)
    requires Chars(b)
    ensures TakeString(Quoted(b) + t) == Ok((b, t))
  {
    hide StringEnd, Chars;
    StringComplete(b, t);
    var s := Quoted(b) + t;
    var s1 := b + [QUOTE] + t;
    assert s[1..] == s1;
    assert s1[..|b|] == b && s1[|b| + 1..] == t;
    assert s[1..1 + |b|] == s1[..|b|] && s[2 + |b|..] == s1[|b| + 1..];
  }

  lemma NumStart(n: Num, t: bytes)
    requires IsNum(n)
    ensures var s := NumText(n) + t; s != [] && (Digit(s[0]) || s[0] == 0x2d)
  {
  }

  lemma ScalarComplete(k: Scalar, t: bytes)
    requires ScalarOk(k) && Follow(t)
    ensures TakeScalar(ScalarText(k) + t) == Ok((ScalarEvent(k), t))
  {
    hide NumText, IsNum, ScanNum, Chars, NumberEvent;
    var s := ScalarText(k) + t;
    match k {
      case StrTok(b) =>
        StringTaken(b, t);
        hide TakeString;
        assert s[0] == QUOTE;
      case NumTok(n) =>
        NumComplete(n, t);
        NumStart(n, t);
        assert s[|NumText(n)|..] == t;
      case TrueTok =>
        assert s[0] == 0x74 && s[4..] == t;
      case FalseTok =>
        assert s[0] == 0x66 && s[5..] == t;
      case NullTok =>
        assert s[0] == 0x6e && s[4..] == t;
    }
  }
}
