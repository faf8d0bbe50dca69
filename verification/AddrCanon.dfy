/** Which addresses encoding reproduces: a test on the text, and the proof that it is the right one. */
module AddrCanon {
  import opened Words
  import opened Errors
  import opened Cbor
  import opened Addr
  import opened AddrLaws
  import Utf8
  import Base64Url

  // ---- the test ----

  /** Bytes of argument the shortest head for v has. */
  function ShortestArg(v: u64): nat {
    if v < 24 then 0 else if v <= 0xff then 1 else if v <= 0xffff then 2 else if v <= 0xffff_ffff then 4 else 8
  }

  /** The item at the front of s, if its head is the shortest there is. */
  function ShortItem(s: bytes): Option<(Item, bytes)> {
    if HeadOf(s).Err? || HeadOf(s).value.size != 1 + ShortestArg(HeadOf(s).value.val) || NextItem(s).Err? then None
    else Some(NextItem(s).value)
  }

  /** What follows a value that is written at all: a text that is not empty, ... */
  function TextValue(s: bytes): Option<bytes> {
    var it := ShortItem(s);
    if it.Some? && it.value.0.kind == Text && it.value.0.data != [] then Some(it.value.1) else None
  }

  /** ... a number that is not 0, ... */
  function IntValue(s: bytes): Option<bytes> {
    var it := ShortItem(s);
    if it.Some? && (it.value.0.kind == NInt || (it.value.0.kind == UInt && it.value.0.val != 0)) then Some(it.value.1)
    else None
  }

  /** ... true, ... */
  function TrueValue(s: bytes): Option<bytes> {
    var it := ShortItem(s);
    if it.Some? && it.value.0.kind == Simple && it.value.0.val == TRUE then Some(it.value.1) else None
  }

  /** ... and a key. */
  function KeyValue(s: bytes): Option<bytes> {
    var it := ShortItem(s);
    if it.Some? && it.value.0.kind == ByteString && |it.value.0.data| == KEY_LEN then Some(it.value.1) else None
  }

  function ContainerValue(kind: Kind, s: bytes): Option<(nat, bytes)> {
    var it := ShortItem(s);
    if it.Some? && it.value.0.kind == kind then Some((it.value.0.val, it.value.1)) else None
  }

  /** The one-byte key at the front of s, or 0. */
  function KeyAt(s: bytes): u8 {
    if |s| >= 2 && s[0] == 0x61 then s[1] else 0
  }

  const NODE_KEYS: bytes := [0x6e, 0x68, 0x74, 0x34, 0x36, 0x73, 0x64, 0x78]
  const INFO_KEYS: bytes := [0x70, 0x6b, 0x71, 0x72, 0x69]

  /** The place of a key in the order of writing; past the end if it is never written. */
  function Place(keys: bytes, k: u8): (j: nat)
    ensures j <= |keys| && (j < |keys| ==> keys[j] == k)
  {
    if keys == [] || keys[0] == k then 0 else 1 + Place(keys[1..], k)
  }

  function NodeValue(j: nat, s: bytes): Option<bytes> {
    if j < 5 then TextValue(s) else if j < 7 then IntValue(s) else TrueValue(s)
  }

  /** Fields of a node in the order of writing, from the i-th on; none twice, and no hostname after a name. */
  function NodeRest(i: nat, pairs: nat, s: bytes): Option<bytes>
    decreases pairs
  {
    if pairs == 0 then Some(s)
    else
      var j := Place(NODE_KEYS, KeyAt(s));
      if j < i || j >= 8 || |s| < 2 || NodeValue(j, s[2..]).None? then None
      else NodeRest(if j == 0 then 2 else j + 1, pairs - 1, NodeValue(j, s[2..]).value)
  }

  function NodeEnd(s: bytes): Option<bytes> {
    var m := ContainerValue(Map, s);
    if m.None? then None else NodeRest(0, m.value.0, m.value.1)
  }

  function NodesEnd(k: nat, s: bytes): Option<bytes> {
    if k == 0 then Some(s)
    else if NodesEnd(k - 1, s).None? then None
    else NodeEnd(NodesEnd(k - 1, s).value)
  }

  /** A region is written with its nodes only, and with no pair at all when it has none. */
  function RegionEnd(s: bytes): Option<bytes> {
    var m := ContainerValue(Map, s);
    if m.None? then None
    else if m.value.0 == 0 then Some(m.value.1)
    else if m.value.0 != 1 || KeyAt(m.value.1) != 0x4e then None
    else
      var a := ContainerValue(Array, m.value.1[2..]);
      if a.None? || a.value.0 == 0 then None else NodesEnd(a.value.0, a.value.1)
  }

  function RegionsEnd(k: nat, s: bytes): Option<bytes> {
    if k == 0 then Some(s)
    else if RegionsEnd(k - 1, s).None? then None
    else RegionEnd(RegionsEnd(k - 1, s).value)
  }

  function InfoValue(j: nat, s: bytes): Option<bytes> {
    if j < 3 then KeyValue(s)
    else if j == 3 then
      var a := ContainerValue(Array, s);
      if a.None? || a.value.0 == 0 then None else RegionsEnd(a.value.0, a.value.1)
    else IntValue(s)
  }

  function InfoRest(i: nat, pairs: nat, s: bytes): Option<bytes>
    decreases pairs
  {
    if pairs == 0 then Some(s)
    else
      var j := Place(INFO_KEYS, KeyAt(s));
      if j < i || j >= 5 || |s| < 2 || InfoValue(j, s[2..]).None? then None
      else InfoRest(j + 1, pairs - 1, InfoValue(j, s[2..]).value)
  }

  predicate CanonicalInfo(s: bytes) {
    var m := ContainerValue(Map, s);
    m.Some? && InfoRest(0, m.value.0, m.value.1) == Some([])
  }

  /** Shortest heads, fields in order and none twice, nothing that is elided, no line breaks and no spare bits. */
  predicate Canonical(a: bytes) {
    && |a| >= 2 && a[..2] == PREFIX && Base64Url.Canonical(a[2..])
    && Base64Url.Decode(a[2..]).Ok? && CanonicalInfo(Base64Url.Decode(a[2..]).value)
  }

  // ---- heads ----

  lemma {:induction false} BigEndianWritten(t: bytes)
    ensures BigEndianBytes(BigEndian(t), |t|) == t
  {
    if t != [] {
      var front, v := t[..|t| - 1], BigEndian(t);
      BigEndianWritten(front);
      assert v / 0x100 == BigEndian(front) && v % 0x100 == t[|t| - 1];
      var b := BigEndianBytes(v, |t|);
      forall i | 0 <= i < |t| ensures b[i] == t[i] {
        if i < |t| - 1 {
          assert Shift8Right(v, |t| - 1 - i) == Shift8Right(v / 0x100, |t| - 2 - i);
          assert BigEndianBytes(BigEndian(front), |t| - 1)[i] == front[i];
        }
      }
    }
  }

  /** A head of the shortest size is the head that is written. */
  lemma HeadWritten(s: bytes)
    requires HeadOf(s).Ok? && HeadOf(s).value.size == 1 + ShortestArg(HeadOf(s).value.val)
    ensures var h := HeadOf(s).value; s == HeadBytes(h.major, h.val) + s[h.size..]
  {
    var h := HeadOf(s).value;
    if h.size > 1 {
      BigEndianWritten(s[1..h.size]);
    }
    hide BigEndianBytes, BigEndian;
    assert s == [s[0]] + s[1..h.size] + s[h.size..];
  }

  lemma HeadIsShort(major: nat, v: u64)
    requires major < 8
    ensures |HeadBytes(major, v)| == 1 + ShortestArg(v)
  {
  }

  // ---- values: what passes the test is what is written, and what is written passes it ----

  function Major(kind: Kind): (m: nat)
    ensures m < 8
  {
    match kind
    case UInt => 0
    case NInt => 1
    case ByteString => 2
    case Text => 3
    case Array => 4
    case Map => 5
    case Simple => 7
  }

  lemma ItemWritten(s: bytes)
    requires ShortItem(s).Some?
    ensures var (it, rest) := ShortItem(s).value;
            && NextItem(s) == Ok((it, rest)) && s == HeadBytes(Major(it.kind), it.val) + (it.data + rest)
            && (if it.kind == ByteString || it.kind == Text then |it.data| == it.val else it.data == [])
  {
    hide HeadBytes, HeadOf, AfterHead;
    HeadWritten(s);
    AfterHeadData(HeadOf(s).value, s[HeadOf(s).value.size..]);
  }

  lemma AfterHeadData(h: Head, s: bytes)
    requires AfterHead(h, s).Ok? && h.major < 8
    ensures var (it, rest) := AfterHead(h, s).value;
            && h.major == Major(it.kind) && h.val == it.val && s == it.data + rest
            && (if it.kind == ByteString || it.kind == Text then |it.data| == it.val else it.data == [])
  {
    hide Utf8.WellFormed;
    var (it, rest) := AfterHead(h, s).value;
    if h.major == 2 || h.major == 3 {
      assert s == s[..h.val] + s[h.val..];
    } else {
      assert s == [] + s;
    }
  }

  lemma TextWritten(s: bytes, cap: nat)
    requires NextText(s, cap).Ok? && TextValue(s).Some?
    ensures var (t, rest) := NextText(s, cap).value;
            TextValue(s) == Some(rest) && t != [] && |t| < cap && s == StringBytes(3, t) + rest
  {
    hide NextItem, HeadBytes, ShortItem, Utf8.WellFormed;
    ItemWritten(s);
    var (t, rest) := NextText(s, cap).value;
    assert HeadBytes(3, |t|) + (t + rest) == StringBytes(3, t) + rest;
  }

  lemma IntWritten(s: bytes)
    requires NextInt(s).Ok? && IntValue(s).Some?
    ensures var (v, rest) := NextInt(s).value;
            IntValue(s) == Some(rest) && v != 0 && s == IntBytes(v) + rest
  {
    hide NextItem, HeadBytes, ShortItem;
    ItemWritten(s);
    assert [] + NextInt(s).value.1 == NextInt(s).value.1;
  }

  lemma TrueWritten(s: bytes)
    requires NextBool(s).Ok? && TrueValue(s).Some?
    ensures var (v, rest) := NextBool(s).value;
            TrueValue(s) == Some(rest) && v && s == HeadBytes(7, TRUE) + rest
  {
    hide NextItem, HeadBytes, ShortItem;
    ItemWritten(s);
    assert [] + NextBool(s).value.1 == NextBool(s).value.1;
  }

  lemma KeyWritten(s: bytes)
    requires NextBytes(s, KEY_LEN).Ok? && KeyValue(s).Some?
    ensures var (k, rest) := NextBytes(s, KEY_LEN).value;
            KeyValue(s) == Some(rest) && s == StringBytes(2, k) + rest
  {
    hide NextItem, HeadBytes, ShortItem;
    ItemWritten(s);
    var (k, rest) := NextBytes(s, KEY_LEN).value;
    assert HeadBytes(2, |k|) + (k + rest) == StringBytes(2, k) + rest;
  }

  lemma ContainerWritten(kind: Kind, s: bytes)
    requires (kind == Array || kind == Map) && ContainerValue(kind, s).Some?
    ensures var (k, rest) := ContainerValue(kind, s).value;
            NextItem(s) == Ok((Item(kind, k, []), rest)) && s == HeadBytes(Major(kind), k) + rest
  {
    hide NextItem, HeadBytes, ShortItem;
    ItemWritten(s);
    var (k, rest) := ContainerValue(kind, s).value;
    assert [] + rest == rest;
  }

  lemma HeadShort(major: nat, v: u64, rest: bytes, next: Result<(Item, bytes)>)
    requires major < 8 && NextItem(HeadBytes(major, v) + rest) == next && next.Ok?
    ensures ShortItem(HeadBytes(major, v) + rest) == Some(next.value)
  {
    HeadRoundTrip(major, v, rest);
    HeadIsShort(major, v);
    hide HeadBytes, HeadOf, NextItem;
  }

  lemma StringShort(major: nat, p: bytes, rest: bytes)
    requires (major == 2 || major == 3) && |p| < DNS_NAME_MAX && (major == 3 ==> Utf8.WellFormed(p))
    ensures ShortItem(StringBytes(major, p) + rest)
         == Some((Item(if major == 2 then ByteString else Text, |p|, p), rest))
  {
    hide HeadBytes, NextItem, ShortItem, Utf8.WellFormed;
    StringRoundTrip(major, p, rest);
    assert StringBytes(major, p) + rest == HeadBytes(major, |p|) + (p + rest);
    hide StringBytes;
    HeadShort(major, |p|, p + rest, NextItem(StringBytes(major, p) + rest));
  }

  lemma IntShort(v: int, rest: bytes)
    requires Int64(v) && v != 0
    ensures IntValue(IntBytes(v) + rest) == Some(rest)
  {
    hide HeadBytes, NextItem, ShortItem;
    IntRoundTrip(v, rest);
    if v >= 0 {
      HeadShort(0, v, rest, NextItem(IntBytes(v) + rest));
    } else {
      HeadShort(1, -1 - v, rest, NextItem(IntBytes(v) + rest));
    }
  }

  lemma TrueShort(rest: bytes)
    ensures TrueValue(HeadBytes(7, TRUE) + rest) == Some(rest)
  {
    hide HeadBytes, NextItem, ShortItem;
    BoolRoundTrip(true, rest);
    HeadShort(7, TRUE, rest, NextItem(HeadBytes(7, TRUE) + rest));
  }

  lemma ContainerShort(kind: Kind, k: u64, rest: bytes)
    requires (kind == Array || kind == Map) && k * (if kind == Array then 1 else 2) <= |rest|
    ensures ContainerValue(kind, HeadBytes(Major(kind), k) + rest) == Some((k, rest))
  {
    hide HeadBytes, NextItem, ShortItem;
    ContainerRoundTrip(kind, k, rest);
    HeadShort(Major(kind), k, rest, NextItem(HeadBytes(Major(kind), k) + rest));
  }

  lemma KeyBytes(k: u8, s: bytes)
    ensures Key(k) == [0x61, k]
    ensures KeyAt(Key(k) + s) == k && (Key(k) + s)[2..] == s
    ensures |s| >= 2 && s[0] == 0x61 ==> s == Key(KeyAt(s)) + s[2..]
  {
    assert HeadBytes(3, 1) == [0x61];
  }

  // ---- nodes ----

  lemma {:induction false} JoinSkip(fs: seq<bytes>, i: nat, j: nat)
    requires i <= j <= |fs| && forall m :: i <= m < j ==> fs[m] == []
    ensures Join(fs[i..]) == Join(fs[j..]) && Present(fs[i..]) == Present(fs[j..])
    decreases j - i
  {
    if i < j {
      JoinSkip(fs, i + 1, j);
      assert fs[i..][1..] == fs[i + 1..];
    }
  }

  /** The bytes of one field, before any elision. */
  function RawField(n: Node, j: nat): bytes
    requires NodeOk(n) && j < 8
  {
    [TextField(0x6e, n.name), TextField(0x68, n.hostname), TextField(0x74, n.certName),
     TextField(0x34, n.ipv4), TextField(0x36, n.ipv6),
     IntField(0x73, n.stunPort), IntField(0x64, n.derpPort), BoolField(0x78, n.insecure)][j]
  }

  /** The fields from the i-th on are not set. */
  predicate Open(n: Node, i: nat) {
    && n.regionId == 0
    && (i <= 0 ==> n.name == []) && (i <= 1 ==> n.hostname == []) && (i <= 2 ==> n.certName == [])
    && (i <= 3 ==> n.ipv4 == []) && (i <= 4 ==> n.ipv6 == [])
    && (i <= 5 ==> n.stunPort == 0) && (i <= 6 ==> n.derpPort == 0) && (i <= 7 ==> !n.insecure)
  }

  /** The fields before the i-th are the same. */
  predicate Agree(n: Node, m: Node, i: nat) {
    && (i > 0 ==> n.name == m.name) && (i > 1 ==> n.hostname == m.hostname) && (i > 2 ==> n.certName == m.certName)
    && (i > 3 ==> n.ipv4 == m.ipv4) && (i > 4 ==> n.ipv6 == m.ipv6)
    && (i > 5 ==> n.stunPort == m.stunPort) && (i > 6 ==> n.derpPort == m.derpPort)
    && (i > 7 ==> n.insecure == m.insecure)
  }

  lemma TextSet(j: nat, s: bytes, n: Node)
    requires j < 5 && NodeOk(n) && Open(n, j) && NodeField(NODE_KEYS[j], s, n).Ok? && TextValue(s).Some?
    ensures SetAt(j, s, n)
  {
    var k := NODE_KEYS[j];
    TextWritten(s, TextCap(k));
    var (t, rest) := NextText(s, TextCap(k)).value;
    hide Utf8.WellFormed, NextText, TextValue, StringBytes, Key;
    assert Key(k) + s == (Key(k) + StringBytes(3, t)) + rest;
  }

  /** What reading the value of field j does: the field is set, and its bytes are the ones read. */
  predicate SetAt(j: nat, s: bytes, n: Node)
    requires j < 8 && NodeField(NODE_KEYS[j], s, n).Ok?
  {
    var (n', rest) := NodeField(NODE_KEYS[j], s, n).value;
    && NodeOk(n') && Agree(n', n, j) && Open(n', j + 1) && NodeValue(j, s) == Some(rest)
    && RawField(n', j) != [] && Key(NODE_KEYS[j]) + s == RawField(n', j) + rest
  }

  lemma PortSet(j: nat, s: bytes, n: Node)
    requires 5 <= j < 7 && NodeOk(n) && Open(n, j) && NodeField(NODE_KEYS[j], s, n).Ok? && IntValue(s).Some?
    ensures SetAt(j, s, n)
  {
    var k := NODE_KEYS[j];
    hide Utf8.WellFormed, NextInt, IntValue, IntBytes, Key;
    IntWritten(s);
    assert Key(k) + s == (Key(k) + IntBytes(NextInt(s).value.0)) + NextInt(s).value.1;
  }

  lemma BoolSet(s: bytes, n: Node)
    requires NodeOk(n) && Open(n, 7) && NodeField(NODE_KEYS[7], s, n).Ok? && TrueValue(s).Some?
    ensures SetAt(7, s, n)
  {
    hide Utf8.WellFormed, NextBool, TrueValue, HeadBytes, Key;
    TrueWritten(s);
    assert Key(0x78) + s == (Key(0x78) + HeadBytes(7, TRUE)) + NextBool(s).value.1;
  }

  lemma ValueSet(j: nat, s: bytes, n: Node)
    requires j < 8 && NodeOk(n) && Open(n, j) && NodeField(NODE_KEYS[j], s, n).Ok? && NodeValue(j, s).Some?
    ensures SetAt(j, s, n)
  {
    hide NodeOk, Open, NodeField, TextValue, IntValue, TrueValue, SetAt;
    if j < 5 {
      TextSet(j, s, n);
    } else if j < 7 {
      PortSet(j, s, n);
    } else {
      BoolSet(s, n);
    }
  }

  /** The entry at the front of s, when its key is the j-th. */
  lemma EntryKey(s: bytes)
    requires |s| >= 2 && s[0] == 0x61 && s[1] < 0x80
    ensures NextKey(s) == Ok((s[1], s[2..])) && s == Key(s[1]) + s[2..]
  {
    KeyBytes(s[1], s);
    KeyRead(s[1], [], s[2..]);
    hide NextKey, Key;
    assert Key(s[1]) + [] == Key(s[1]);
  }

  /** From the fields read so far, the bytes still to come are the fields still to be written. */
  ghost predicate WrittenFrom(i: nat, pairs: nat, s: bytes, n0: Node)
    requires i <= 8
  {
    NodeFields(pairs, s, n0).Ok? &&
    var (n, rest) := NodeFields(pairs, s, n0).value;
    && NodeOk(n) && Agree(n, n0, i) && NodeRest(i, pairs, s) == Some(rest)
    && Present(NodeFieldBytes(n)[i..]) == pairs && s == Join(NodeFieldBytes(n)[i..]) + rest
  }

  lemma NothingWritten(i: nat, s: bytes, n: Node)
    requires i <= 8 && NodeOk(n) && Open(n, i)
    ensures WrittenFrom(i, 0, s, n)
  {
    hide Utf8.WellFormed;
    var fs := NodeFieldBytes(n);
    JoinSkip(fs, i, 8);
    assert fs[8..] == [] && [] + s == s;
  }

  /** The next field to be looked for once field j has been read. */
  function After(j: nat): nat {
    if j == 0 then 2 else j + 1
  }

  /** The entry at the front of s sets field j. */
  predicate Enters(j: nat, s: bytes, n: Node) {
    && j < 8 && |s| >= 2 && s[0] == 0x61 && s[1] == NODE_KEYS[j]
    && NodeField(NODE_KEYS[j], s[2..], n).Ok? && NodeEntry(s, n) == NodeField(NODE_KEYS[j], s[2..], n)
    && SetAt(j, s[2..], n)
  }

  lemma EntryRead(i: nat, s: bytes, n: Node)
    requires NodeOk(n) && Open(n, i) && NodeEntry(s, n).Ok? && |s| >= 2
    requires var j := Place(NODE_KEYS, KeyAt(s)); i <= j < 8 && NodeValue(j, s[2..]).Some?
    ensures Enters(Place(NODE_KEYS, KeyAt(s)), s, n)
  {
    hide NodeOk, NodeField, NodeValue, SetAt;
    var j := Place(NODE_KEYS, KeyAt(s));
    assert KeyAt(s) == NODE_KEYS[j] != 0;
    EntryKey(s);
    hide NextKey;
    ValueSet(j, s[2..], n);
  }

  lemma EntryOpens(j: nat, s: bytes, n: Node)
    requires Enters(j, s, n) && Open(n, j)
    ensures NodeOk(NodeEntry(s, n).value.0) && Open(NodeEntry(s, n).value.0, After(j))
  {
    hide NodeOk, NodeField, NodeEntry, NodeValue, RawField, Key;
  }

  /** In the finished node m, field j is the one just read and the fields passed over are empty. */
  lemma FieldBytes(i: nat, j: nat, n: Node, n': Node, m: Node)
    requires i <= j < 8 && NodeOk(n') && NodeOk(m)
    requires Open(n, i) && Agree(n', n, j) && Open(n', j + 1) && Agree(m, n', After(j))
    ensures var fs := NodeFieldBytes(m);
            && fs[j] == RawField(n', j)
            && (forall x :: i <= x < j ==> fs[x] == []) && (forall x :: j < x < After(j) ==> fs[x] == [])
  {
    hide Utf8.WellFormed, Key, StringBytes, IntBytes, HeadBytes;
  }

  lemma FieldWritten(i: nat, j: nat, pairs: nat, s: bytes, n: Node, n': Node, rest: bytes)
    requires i <= j && Open(n, i) && pairs > 0 && Enters(j, s, n) && NodeEntry(s, n) == Ok((n', rest))
    requires NodeFields(pairs, s, n) == NodeFields(pairs - 1, rest, n')
    requires NodeRest(i, pairs, s) == NodeRest(After(j), pairs - 1, rest)
    requires WrittenFrom(After(j), pairs - 1, rest, n')
    ensures WrittenFrom(i, pairs, s, n)
  {
    hide NodeOk, NodeField, NodeEntry, NodeFields, NodeRest, NodeValue, Place, RawField, NodeFieldBytes;
    var (m, r) := NodeFields(pairs, s, n).value;
    EntryKey(s);
    hide Key, NextKey;
    var fs := NodeFieldBytes(m);
    FieldBytes(i, j, n, n', m);
    hide Open;
    AgreeBefore(m, n', n, i, j);
    hide Agree;
    JoinSkip(fs, i, j);
    JoinSplit(fs, j, r);
    JoinSkip(fs, j + 1, After(j));
  }

  lemma AgreeBefore(m: Node, n': Node, n: Node, i: nat, j: nat)
    requires i <= j && Agree(m, n', After(j)) && Agree(n', n, j)
    ensures Agree(m, n, i)
  {
  }

  lemma {:induction false} NodeRestWritten(i: nat, pairs: nat, s: bytes, n: Node)
    requires i <= 8 && NodeOk(n) && Open(n, i) && NodeFields(pairs, s, n).Ok? && NodeRest(i, pairs, s).Some?
    ensures WrittenFrom(i, pairs, s, n)
    decreases pairs
  {
    hide NodeOk, Open, NodeFields, NodeEntry, NodeValue, NodeRest, Place, KeyAt, WrittenFrom, Enters;
    if pairs == 0 {
      NothingWritten(i, s, n);
    } else {
      var j := Place(NODE_KEYS, KeyAt(s));
      NodeFieldsNext(pairs, s, n);
      RestTaken(i, pairs, s);
      EntryRead(i, s, n);
      OpenLater(n, i, j);
      EntryOpens(j, s, n);
      ReadOn(i, j, pairs, s, n);
      var (n', rest) := NodeEntry(s, n).value;
      NodeRestWritten(After(j), pairs - 1, rest, n');
      FieldWritten(i, j, pairs, s, n, n', rest);
    }
  }

  lemma RestTaken(i: nat, pairs: nat, s: bytes)
    requires pairs > 0 && NodeRest(i, pairs, s).Some?
    ensures |s| >= 2
    ensures var j := Place(NODE_KEYS, KeyAt(s)); i <= j < 8 && NodeValue(j, s[2..]).Some?
  {
    hide NodeValue, Place, KeyAt;
  }

  lemma OpenLater(n: Node, i: nat, j: nat)
    requires Open(n, i) && i <= j
    ensures Open(n, j)
  {
  }

  lemma ReadOn(i: nat, j: nat, pairs: nat, s: bytes, n: Node)
    requires pairs > 0 && NodeRest(i, pairs, s).Some? && j == Place(NODE_KEYS, KeyAt(s)) && Enters(j, s, n)
    ensures NodeRest(i, pairs, s) == NodeRest(After(j), pairs - 1, NodeEntry(s, n).value.1)
  {
    hide NodeField, NodeEntry, NodeValue, NodeOk, RawField, Key, NodeRest;
    RestTaken(i, pairs, s);
    RestTake(i, j, pairs, s, NodeEntry(s, n).value.1);
  }

  lemma NoNodeOk()
    ensures NodeOk(NO_NODE) && Open(NO_NODE, 0)
  {
    NoText();
  }

  /** A node that passes the test is written as it was read. */
  lemma NodeWritten(s: bytes)
    requires ParseNode(s).Ok? && NodeEnd(s).Some?
    ensures var (n, rest) := ParseNode(s).value;
            NodeOk(n) && NodeEnd(s) == Some(rest) && s == NodeBytes(n) + rest
  {
    hide NodeOk, ContainerValue, NextItem, NodeFields, NodeRest, HeadBytes, NodeFieldBytes, Open, Join, Present;
    var (pairs, t) := ContainerValue(Map, s).value;
    NoNodeOk();
    ContainerWritten(Map, s);
    NodeRestWritten(0, pairs, t, NO_NODE);
    var (n, rest) := NodeFields(pairs, t, NO_NODE).value;
    var fs := NodeFieldBytes(n);
    assert fs[0..] == fs;
    assert HeadBytes(5, pairs) + (Join(fs) + rest) == (HeadBytes(5, pairs) + Join(fs)) + rest;
  }

  lemma {:induction false} PlaceAt(keys: bytes, i: nat)
    requires i < |keys| && forall m :: 0 <= m < i ==> keys[m] != keys[i]
    ensures Place(keys, keys[i]) == i
  {
    if i > 0 {
      PlaceAt(keys[1..], i - 1);
    }
  }

  /** A field that is written passes the test for its place. */
  lemma TextFieldShort(k: u8, t: bytes, s: bytes)
    requires t != [] && |t| < DNS_NAME_MAX && Utf8.WellFormed(t)
    ensures var f := TextField(k, t); |f| >= 2 && f == Key(k) + f[2..] && TextValue(f[2..] + s) == Some(s)
  {
    hide Utf8.WellFormed, Key, StringBytes, ShortItem;
    KeySize(k);
    StringShort(3, t, s);
    assert (Key(k) + StringBytes(3, t))[2..] == StringBytes(3, t);
  }

  lemma IntFieldShort(k: u8, v: int, s: bytes)
    requires Int64(v) && v != 0
    ensures var f := IntField(k, v); |f| >= 2 && f == Key(k) + f[2..] && IntValue(f[2..] + s) == Some(s)
  {
    hide Key, IntBytes, IntValue;
    KeySize(k);
    IntShort(v, s);
    assert (Key(k) + IntBytes(v))[2..] == IntBytes(v);
  }

  lemma BoolFieldShort(k: u8, s: bytes)
    ensures var f := BoolField(k, true); |f| >= 2 && f == Key(k) + f[2..] && TrueValue(f[2..] + s) == Some(s)
  {
    hide Key, HeadBytes, TrueValue;
    KeySize(k);
    TrueShort(s);
    assert (Key(k) + HeadBytes(7, TRUE))[2..] == HeadBytes(7, TRUE);
  }

  lemma FieldShort(n: Node, i: nat, s: bytes)
    requires NodeOk(n) && i < 8 && NodeFieldBytes(n)[i] != []
    ensures var f := NodeFieldBytes(n)[i];
            |f| >= 2 && f == Key(NODE_KEYS[i]) + f[2..] && NodeValue(i, f[2..] + s) == Some(s)
  {
    hide Utf8.WellFormed, Key, StringBytes, IntBytes, HeadBytes, TextValue, IntValue, TrueValue;
    var k := NODE_KEYS[i];
    if i < 5 {
      var t := if i == 0 then ElideNode(n).name else if i == 1 then n.hostname else if i == 2 then n.certName
               else if i == 3 then n.ipv4 else n.ipv6;
      TextFieldShort(k, t, s);
    } else if i < 7 {
      IntFieldShort(k, if i == 5 then n.stunPort else n.derpPort, s);
    } else {
      BoolFieldShort(k, s);
    }
  }

  lemma RestSooner(i: nat, pairs: nat, s: bytes)
    requires NodeRest(i + 1, pairs, s).Some?
    ensures NodeRest(i, pairs, s) == NodeRest(i + 1, pairs, s)
  {
    hide NodeValue, Place, KeyAt;
  }

  lemma RestEnters(i: nat, f: bytes, c: nat, s: bytes)
    requires i < 8 && |f| >= 2 && f == Key(NODE_KEYS[i]) + f[2..] && NodeValue(i, f[2..] + s) == Some(s)
    ensures NodeRest(i, c + 1, f + s) == NodeRest(After(i), c, s)
  {
    hide NodeValue, Place, KeyAt, Key, NodeRest;
    var k := NODE_KEYS[i];
    KeyBytes(k, f[2..] + s);
    PlaceAt(NODE_KEYS, i);
    assert f + s == Key(k) + (f[2..] + s);
    RestTake(i, i, c + 1, f + s, s);
  }

  lemma RestTake(i: nat, j: nat, pairs: nat, s: bytes, rest: bytes)
    requires pairs > 0 && |s| >= 2 && j == Place(NODE_KEYS, KeyAt(s)) && i <= j < 8
    requires NodeValue(j, s[2..]) == Some(rest)
    ensures NodeRest(i, pairs, s) == NodeRest(After(j), pairs - 1, rest)
  {
    hide NodeValue, Place, KeyAt;
  }

  lemma HostAfterName(n: Node)
    requires NodeOk(n) && NodeFieldBytes(n)[0] != []
    ensures NodeFieldBytes(n)[1] == []
  {
    hide Utf8.WellFormed, Key, StringBytes;
  }

  /** The fields from the i-th on pass the test. */
  predicate PassesFrom(n: Node, i: nat, rest: bytes)
    requires NodeOk(n) && i <= 8
  {
    var fs := NodeFieldBytes(n)[i..];
    NodeRest(i, Present(fs), Join(fs) + rest) == Some(rest)
  }

  lemma PassEmpty(n: Node, i: nat, rest: bytes)
    requires NodeOk(n) && i < 8 && NodeFieldBytes(n)[i] == [] && PassesFrom(n, i + 1, rest)
    ensures PassesFrom(n, i, rest)
  {
    hide NodeOk, NodeFieldBytes, NodeRest, Join, Present;
    var fs := NodeFieldBytes(n);
    JoinSplit(fs, i, rest);
    var c, s := Present(fs[i + 1..]), Join(fs[i + 1..]) + rest;
    RestSooner(i, c, s);
    assert [] + s == s;
  }

  lemma PassField(n: Node, i: nat, rest: bytes)
    requires NodeOk(n) && i < 8 && NodeFieldBytes(n)[i] != [] && PassesFrom(n, After(i), rest)
    ensures PassesFrom(n, i, rest)
  {
    hide NodeOk, NodeFieldBytes, NodeRest, NodeValue, Join, Present, Key;
    var fs := NodeFieldBytes(n);
    var c, s := Present(fs[i + 1..]), Join(fs[i + 1..]) + rest;
    if i == 0 {
      HostAfterName(n);
      JoinSkip(fs, 1, 2);
    }
    assert NodeRest(After(i), c, s) == Some(rest);
    FieldShort(n, i, s);
    RestEnters(i, fs[i], c, s);
    hide After;
    JoinSplit(fs, i, rest);
  }

  lemma {:induction false} NodeRestShort(n: Node, i: nat, rest: bytes)
    requires NodeOk(n) && i <= 8
    ensures PassesFrom(n, i, rest)
    decreases 8 - i
  {
    hide NodeOk, PassesFrom, NodeFieldBytes;
    if i == 8 {
      NoneLeft(n, rest);
    } else if NodeFieldBytes(n)[i] == [] {
      NodeRestShort(n, i + 1, rest);
      PassEmpty(n, i, rest);
    } else {
      NodeRestShort(n, After(i), rest);
      PassField(n, i, rest);
    }
  }

  lemma NoneLeft(n: Node, rest: bytes)
    requires NodeOk(n)
    ensures PassesFrom(n, 8, rest)
  {
    hide NodeOk;
    assert NodeFieldBytes(n)[8..] == [] && [] + rest == rest;
  }

  /** What is written for a node passes the test. */
  lemma NodeShort(n: Node, rest: bytes)
    requires NodeOk(n)
    ensures NodeEnd(NodeBytes(n) + rest) == Some(rest)
  {
    var fs := NodeFieldBytes(n);
    forall i | 0 <= i < 8 ensures fs[i] == [] || |fs[i]| >= 2 {
      NodeFieldSizes(n, i);
    }
    NodeRestShort(n, 0, rest);
    assert fs[0..] == fs;
    hide NodeOk, NodeFieldBytes, NodeRest, ContainerValue, HeadBytes, Join, Present;
    PresentBound(fs);
    JoinLength(fs);
    assert MapBytes(fs) + rest == HeadBytes(5, Present(fs)) + (Join(fs) + rest);
    ContainerShort(Map, Present(fs), Join(fs) + rest);
  }

  lemma {:induction false} NodesWritten(k: nat, s: bytes)
    requires ParseNodes(k, s).Ok? && NodesEnd(k, s).Some?
    ensures var (ns, rest) := ParseNodes(k, s).value;
            && NodesOk(ns)
            && NodesEnd(k, s) == Some(rest) && s == NodesBytes(ns) + rest
  {
    hide NodeOk, NodeBytes, ParseNode, NodeEnd;
    if k == 0 {
      assert NodesBytes([]) == [] && [] + s == s;
    } else {
      NodesWritten(k - 1, s);
      var (front, t) := ParseNodes(k - 1, s).value;
      NodeWritten(t);
      var (last, rest) := ParseNode(t).value;
      NodesAppend(front, last);
      assert NodesBytes(front) + (NodeBytes(last) + rest) == (NodesBytes(front) + NodeBytes(last)) + rest;
    }
  }

  lemma NodesAppend(ns: seq<Node>, n: Node)
    requires NodeOk(n) && NodesOk(ns)
    ensures NodesBytes(ns + [n]) == NodesBytes(ns) + NodeBytes(n)
  {
    hide NodeOk, NodeBytes;
    var ms := ns + [n];
    var bs := seq(|ns|, i requires 0 <= i < |ns| => NodeBytes(ns[i]));
    assert seq(|ms|, i requires 0 <= i < |ms| => NodeBytes(ms[i])) == bs + [NodeBytes(n)];
    JoinAppend(bs, NodeBytes(n));
  }

  lemma {:induction false} NodesShort(ns: seq<Node>, i: nat, rest: bytes)
    requires i <= |ns| && NodesOk(ns)
    ensures var bs := seq(|ns|, j requires 0 <= j < |ns| => NodeBytes(ns[j]));
            NodesEnd(i, NodesBytes(ns) + rest) == Some(Join(bs[i..]) + rest)
  {
    hide NodeOk, NodeBytes, NodeEnd;
    var bs := seq(|ns|, j requires 0 <= j < |ns| => NodeBytes(ns[j]));
    if i == 0 {
      assert bs[0..] == bs;
    } else {
      NodesShort(ns, i - 1, rest);
      JoinSplit(bs, i - 1, rest);
      NodeShort(ns[i - 1], Join(bs[i..]) + rest);
    }
  }

  // ---- regions ----

  /** A region that passes the test is written as it was read. */
  lemma RegionWritten(s: bytes)
    requires ParseRegion(s).Ok? && RegionEnd(s).Some?
    ensures var (r, rest) := ParseRegion(s).value;
            RegionOk(r) && RegionEnd(s) == Some(rest) && s == RegionBytes(r) + rest
  {
    hide RegionOk, ContainerValue, NextItem, RegionFields, HeadBytes, NodesEnd;
    ContainerWritten(Map, s);
    var (pairs, t) := ContainerValue(Map, s).value;
    if pairs == 0 {
      BareRegion(t);
    } else {
      RegionNodes(t);
    }
  }

  lemma BareRegion(t: bytes)
    ensures RegionFields(0, t, NO_REGION) == Ok((NO_REGION, t)) && RegionOk(NO_REGION)
    ensures HeadBytes(5, 0) + t == RegionBytes(NO_REGION) + t
  {
    NoText();
    OneField([]);
  }

  lemma RegionNodes(t: bytes)
    requires RegionFields(1, t, NO_REGION).Ok? && KeyAt(t) == 0x4e
    requires var a := ContainerValue(Array, t[2..]); a.Some? && a.value.0 > 0 && NodesEnd(a.value.0, a.value.1).Some?
    ensures var a := ContainerValue(Array, t[2..]).value;
            var (r, rest) := RegionFields(1, t, NO_REGION).value;
            RegionOk(r) && NodesEnd(a.0, a.1) == Some(rest) && HeadBytes(5, 1) + t == RegionBytes(r) + rest
  {
    hide NodeOk, NextKey, NextItem, HeadBytes, Key, ContainerValue, NodesEnd, NodesBytes, ParseNodes, Utf8.WellFormed;
    EntryKey(t);
    ContainerWritten(Array, t[2..]);
    var (k, u) := ContainerValue(Array, t[2..]).value;
    RegionFieldsNext(1, t, NO_REGION);
    NodesWritten(k, u);
    NoText();
    var (ns, rest) := ParseNodes(k, u).value;
    var f := NodesField(ns);
    assert f == Key(0x4e) + HeadBytes(4, k) + NodesBytes(ns);
    KeySize(0x4e);
    OneField(f);
    assert t == f + rest;
    assert HeadBytes(5, 1) + (f + rest) == (HeadBytes(5, 1) + f) + rest;
  }

  /** What is written for a region passes the test. */
  lemma RegionShort(r: Region, rest: bytes)
    requires RegionOk(r)
    ensures RegionEnd(RegionBytes(r) + rest) == Some(rest)
  {
    hide NodeOk, Utf8.WellFormed, ContainerValue, HeadBytes, NodesEnd, NodesBytes, Key, KeyAt;
    var f := NodesField(r.nodes);
    KeySize(0x4e);
    OneField(f);
    assert RegionBytes(r) + rest == HeadBytes(5, Present([f])) + (f + rest);
    ContainerShort(Map, Present([f]), f + rest);
    if r.nodes == [] {
      assert [] + rest == rest;
    } else {
      NodesFieldShort(r.nodes, rest);
    }
  }

  lemma AllNodesShort(ns: seq<Node>, rest: bytes)
    requires NodesOk(ns)
    ensures NodesEnd(|ns|, NodesBytes(ns) + rest) == Some(rest)
  {
    hide NodeOk, NodeBytes, NodesEnd;
    var bs := seq(|ns|, j requires 0 <= j < |ns| => NodeBytes(ns[j]));
    NodesShort(ns, |ns|, rest);
    assert bs[|ns|..] == [] && Join([]) + rest == rest;
  }

  lemma NodesFieldShort(ns: seq<Node>, rest: bytes)
    requires 0 < |ns| <= MAX_NODES && NodesOk(ns)
    ensures var t := NodesField(ns) + rest;
            && KeyAt(t) == 0x4e && |t| >= 2
            && ContainerValue(Array, t[2..]) == Some((|ns|, NodesBytes(ns) + rest))
            && NodesEnd(|ns|, NodesBytes(ns) + rest) == Some(rest)
  {
    hide NodeOk, NodesBytes, ContainerValue, HeadBytes, NodesEnd, Key, KeyAt;
    AllNodesShort(ns, rest);
    AllPresent(ns);
    var u := HeadBytes(4, |ns|) + (NodesBytes(ns) + rest);
    ContainerShort(Array, |ns|, NodesBytes(ns) + rest);
    KeySize(0x4e);
    KeyBytes(0x4e, u);
    assert NodesField(ns) + rest == Key(0x4e) + u;
  }

  lemma {:induction false} RegionsWritten(k: nat, s: bytes)
    requires ParseRegions(k, s).Ok? && RegionsEnd(k, s).Some?
    ensures var (rs, rest) := ParseRegions(k, s).value;
            && RegionsOk(rs) && RegionsEnd(k, s) == Some(rest) && s == RegionsBytes(rs) + rest
  {
    hide RegionOk, RegionBytes, ParseRegion, RegionEnd;
    if k == 0 {
      assert RegionsBytes([]) == [] && [] + s == s;
    } else {
      RegionsWritten(k - 1, s);
      var (front, t) := ParseRegions(k - 1, s).value;
      RegionWritten(t);
      var (last, rest) := ParseRegion(t).value;
      RegionsAppend(front, last);
      assert RegionsBytes(front) + (RegionBytes(last) + rest) == (RegionsBytes(front) + RegionBytes(last)) + rest;
    }
  }

  function RegionsBytes(rs: seq<Region>): bytes
    requires RegionsOk(rs)
  {
    Join(seq(|rs|, i requires 0 <= i < |rs| => RegionBytes(rs[i])))
  }

  lemma RegionsAppend(rs: seq<Region>, r: Region)
    requires RegionsOk(rs) && RegionOk(r)
    ensures RegionsBytes(rs + [r]) == RegionsBytes(rs) + RegionBytes(r)
  {
    hide RegionOk, RegionBytes;
    var qs := rs + [r];
    var bs := seq(|rs|, i requires 0 <= i < |rs| => RegionBytes(rs[i]));
    assert seq(|qs|, i requires 0 <= i < |qs| => RegionBytes(qs[i])) == bs + [RegionBytes(r)];
    JoinAppend(bs, RegionBytes(r));
  }

  lemma {:induction false} RegionsShort(rs: seq<Region>, i: nat, rest: bytes)
    requires i <= |rs| && RegionsOk(rs)
    ensures var bs := seq(|rs|, j requires 0 <= j < |rs| => RegionBytes(rs[j]));
            RegionsEnd(i, RegionsBytes(rs) + rest) == Some(Join(bs[i..]) + rest)
  {
    hide RegionOk, RegionBytes, RegionEnd;
    var bs := seq(|rs|, j requires 0 <= j < |rs| => RegionBytes(rs[j]));
    if i == 0 {
      assert bs[0..] == bs;
    } else {
      RegionsShort(rs, i - 1, rest);
      JoinSplit(bs, i - 1, rest);
      RegionShort(rs[i - 1], Join(bs[i..]) + rest);
    }
  }

  // ---- the whole structure ----

  /** The fields from the i-th on are not set. */
  predicate OpenInfo(f: Filling, i: nat) {
    && (i <= 0 ==> !f.saw) && (i <= 1 ==> f.ci.disco.None?) && (i <= 2 ==> f.ci.psk.None?)
    && (i <= 3 ==> f.ci.regions == []) && (i <= 4 ==> f.ci.regionId == 0)
  }

  /** The fields before the i-th are the same. */
  predicate AgreeInfo(f: Filling, g: Filling, i: nat) {
    && (i > 0 ==> f.saw == g.saw && f.ci.serverPublic == g.ci.serverPublic)
    && (i > 1 ==> f.ci.disco == g.ci.disco) && (i > 2 ==> f.ci.psk == g.ci.psk)
    && (i > 3 ==> f.ci.regions == g.ci.regions) && (i > 4 ==> f.ci.regionId == g.ci.regionId)
  }

  /** What reading the value of field j does: the field is set, and its bytes are the ones read. */
  predicate InfoSetAt(j: nat, s: bytes, f: Filling)
    requires j < 5 && InfoField(INFO_KEYS[j], s, f).Ok?
  {
    var (f', rest) := InfoField(INFO_KEYS[j], s, f).value;
    && InfoOk(f'.ci) && AgreeInfo(f', f, j) && OpenInfo(f', j + 1) && (j == 0 ==> f'.saw)
    && InfoValue(j, s) == Some(rest)
    && InfoFieldBytes(f'.ci)[j] != [] && Key(INFO_KEYS[j]) + s == InfoFieldBytes(f'.ci)[j] + rest
  }

  lemma InfoKeySet(j: nat, s: bytes, f: Filling)
    requires j < 3 && InfoOk(f.ci) && OpenInfo(f, j) && InfoField(INFO_KEYS[j], s, f).Ok? && KeyValue(s).Some?
    ensures InfoSetAt(j, s, f)
  {
    hide RegionsOk, RegionsField, IntField, NextBytes, KeyValue, StringBytes, Key;
    KeyWritten(s);
    var k, v := INFO_KEYS[j], NextBytes(s, KEY_LEN).value;
    assert Key(k) + s == (Key(k) + StringBytes(2, v.0)) + v.1;
  }

  lemma InfoRegionsSet(s: bytes, f: Filling)
    requires InfoOk(f.ci) && OpenInfo(f, 3) && InfoField(INFO_KEYS[3], s, f).Ok? && InfoValue(3, s).Some?
    ensures InfoSetAt(3, s, f)
  {
    hide RegionOk, ParseRegions, RegionsEnd, NextItem, ContainerValue, HeadBytes, Key, KeyField, IntField,
         RegionBytes, Join;
    ContainerWritten(Array, s);
    var (k, u) := ContainerValue(Array, s).value;
    RegionsWritten(k, u);
    var (rs, rest) := ParseRegions(k, u).value;
    assert RegionsField(rs) == Key(0x72) + HeadBytes(4, k) + RegionsBytes(rs);
    KeySize(0x72);
    assert Key(0x72) + s == RegionsField(rs) + rest;
  }

  lemma InfoIdSet(s: bytes, f: Filling)
    requires InfoOk(f.ci) && OpenInfo(f, 4) && InfoField(INFO_KEYS[4], s, f).Ok? && IntValue(s).Some?
    ensures InfoSetAt(4, s, f)
  {
    hide RegionsOk, RegionsField, KeyField, NextInt, IntValue, IntBytes, Key;
    IntWritten(s);
    var v := NextInt(s).value;
    KeySize(0x69);
    assert Key(0x69) + s == (Key(0x69) + IntBytes(v.0)) + v.1;
  }

  lemma InfoValueSet(j: nat, s: bytes, f: Filling)
    requires j < 5 && InfoOk(f.ci) && OpenInfo(f, j) && InfoField(INFO_KEYS[j], s, f).Ok? && InfoValue(j, s).Some?
    ensures InfoSetAt(j, s, f)
  {
    hide InfoOk, OpenInfo, InfoField, InfoSetAt;
    if j < 3 {
      InfoKeySet(j, s, f);
    } else if j == 3 {
      InfoRegionsSet(s, f);
    } else {
      InfoIdSet(s, f);
    }
  }

  /** The entry at the front of s sets field j. */
  predicate InfoEnters(j: nat, s: bytes, f: Filling) {
    && j < 5 && |s| >= 2 && s[0] == 0x61 && s[1] == INFO_KEYS[j]
    && InfoField(INFO_KEYS[j], s[2..], f).Ok? && InfoEntry(s, f) == InfoField(INFO_KEYS[j], s[2..], f)
    && InfoSetAt(j, s[2..], f)
  }

  lemma InfoEntryRead(i: nat, s: bytes, f: Filling)
    requires InfoOk(f.ci) && OpenInfo(f, i) && InfoEntry(s, f).Ok? && |s| >= 2
    requires var j := Place(INFO_KEYS, KeyAt(s)); i <= j < 5 && InfoValue(j, s[2..]).Some?
    ensures InfoEnters(Place(INFO_KEYS, KeyAt(s)), s, f)
  {
    hide InfoOk, InfoField, InfoValue, InfoSetAt;
    var j := Place(INFO_KEYS, KeyAt(s));
    assert KeyAt(s) == INFO_KEYS[j] != 0;
    EntryKey(s);
    hide NextKey;
    InfoValueSet(j, s[2..], f);
  }

  lemma InfoEntryOpens(j: nat, s: bytes, f: Filling)
    requires InfoEnters(j, s, f)
    ensures InfoOk(InfoEntry(s, f).value.0.ci) && OpenInfo(InfoEntry(s, f).value.0, j + 1)
  {
    hide InfoOk, InfoField, InfoEntry, InfoValue, InfoFieldBytes, Key;
  }

  lemma InfoRestTaken(i: nat, pairs: nat, s: bytes)
    requires pairs > 0 && InfoRest(i, pairs, s).Some?
    ensures |s| >= 2
    ensures var j := Place(INFO_KEYS, KeyAt(s)); i <= j < 5 && InfoValue(j, s[2..]).Some?
  {
    hide InfoValue, Place, KeyAt;
  }

  lemma InfoRestTake(i: nat, j: nat, pairs: nat, s: bytes, rest: bytes)
    requires pairs > 0 && |s| >= 2 && j == Place(INFO_KEYS, KeyAt(s)) && i <= j < 5
    requires InfoValue(j, s[2..]) == Some(rest)
    ensures InfoRest(i, pairs, s) == InfoRest(j + 1, pairs - 1, rest)
  {
    hide InfoValue, Place, KeyAt;
  }

  lemma InfoReadOn(i: nat, j: nat, pairs: nat, s: bytes, f: Filling)
    requires pairs > 0 && InfoRest(i, pairs, s).Some? && j == Place(INFO_KEYS, KeyAt(s)) && InfoEnters(j, s, f)
    ensures InfoRest(i, pairs, s) == InfoRest(j + 1, pairs - 1, InfoEntry(s, f).value.1)
  {
    hide InfoOk, InfoField, InfoEntry, InfoValue, InfoFieldBytes, InfoRest, Key;
    InfoRestTaken(i, pairs, s);
    InfoRestTake(i, j, pairs, s, InfoEntry(s, f).value.1);
  }

  /** From the fields read so far, the bytes still to come are the fields still to be written. */
  ghost predicate InfoWrittenFrom(i: nat, pairs: nat, s: bytes, f0: Filling)
    requires i <= 5
  {
    InfoFields(pairs, s, f0).Ok? &&
    var (f, rest) := InfoFields(pairs, s, f0).value;
    && InfoOk(f.ci) && AgreeInfo(f, f0, i) && InfoRest(i, pairs, s) == Some(rest)
    && Present(InfoFieldBytes(f.ci)[i..]) == pairs && s == Join(InfoFieldBytes(f.ci)[i..]) + rest
  }

  lemma NoInfoWritten(i: nat, s: bytes, f: Filling)
    requires i <= 5 && InfoOk(f.ci) && OpenInfo(f, i) && f.saw
    ensures InfoWrittenFrom(i, 0, s, f)
  {
    hide RegionsOk;
    var fs := InfoFieldBytes(f.ci);
    JoinSkip(fs, i, 5);
    assert fs[5..] == [] && [] + s == s;
  }

  lemma InfoFieldsPassed(i: nat, j: nat, f: Filling, f': Filling, g: Filling)
    requires i <= j < 5 && InfoOk(f'.ci) && InfoOk(g.ci) && g.saw
    requires OpenInfo(f, i) && AgreeInfo(f', f, j) && AgreeInfo(g, f', j + 1)
    ensures var fs := InfoFieldBytes(g.ci);
            fs[j] == InfoFieldBytes(f'.ci)[j] && forall x :: i <= x < j ==> fs[x] == []
    ensures AgreeInfo(g, f, i)
  {
    hide RegionOk, RegionBytes, Join, HeadBytes, StringBytes, IntBytes, Key;
  }

  lemma InfoFieldWritten(i: nat, j: nat, pairs: nat, s: bytes, f: Filling, f': Filling, rest: bytes)
    requires i <= j && OpenInfo(f, i) && pairs > 0 && InfoEnters(j, s, f) && InfoEntry(s, f) == Ok((f', rest))
    requires InfoFields(pairs, s, f) == InfoFields(pairs - 1, rest, f')
    requires InfoFields(pairs, s, f).Ok? && InfoFields(pairs, s, f).value.0.saw
    requires InfoRest(i, pairs, s) == InfoRest(j + 1, pairs - 1, rest)
    requires InfoWrittenFrom(j + 1, pairs - 1, rest, f')
    ensures InfoWrittenFrom(i, pairs, s, f)
  {
    hide InfoOk, InfoField, InfoEntry, InfoFields, InfoRest, InfoValue, InfoFieldBytes;
    var (g, r) := InfoFields(pairs, s, f).value;
    EntryKey(s);
    hide Key, NextKey;
    var fs := InfoFieldBytes(g.ci);
    InfoFieldsPassed(i, j, f, f', g);
    hide OpenInfo, AgreeInfo;
    JoinSkip(fs, i, j);
    JoinSplit(fs, j, r);
  }

  lemma {:induction false} InfoRestWritten(i: nat, pairs: nat, s: bytes, f: Filling)
    requires i <= 5 && InfoOk(f.ci) && OpenInfo(f, i) && InfoRest(i, pairs, s).Some?
    requires InfoFields(pairs, s, f).Ok? && InfoFields(pairs, s, f).value.0.saw
    ensures InfoWrittenFrom(i, pairs, s, f)
    decreases pairs
  {
    hide InfoOk, OpenInfo, InfoFields, InfoEntry, InfoValue, InfoRest, Place, KeyAt, InfoWrittenFrom, InfoEnters;
    InfoFieldsNext(pairs, s, f);
    if pairs == 0 {
      NoInfoWritten(i, s, f);
    } else {
      var j := Place(INFO_KEYS, KeyAt(s));
      InfoRestTaken(i, pairs, s);
      InfoEntryRead(i, s, f);
      InfoEntryOpens(j, s, f);
      InfoReadOn(i, j, pairs, s, f);
      var (f', rest) := InfoEntry(s, f).value;
      InfoRestWritten(j + 1, pairs - 1, rest, f');
      InfoFieldWritten(i, j, pairs, s, f, f', rest);
    }
  }

  /** A structure that passes the test is written as it was read. */
  lemma InfoWritten(s: bytes)
    requires ParseInfo(s).Ok? && CanonicalInfo(s)
    ensures InfoOk(ParseInfo(s).value) && InfoBytes(ParseInfo(s).value) == s
  {
    assert InfoOk(NO_INFO);
    hide InfoOk, ContainerValue, NextItem, InfoFields, InfoRest, HeadBytes, InfoFieldBytes, Join, Present;
    var (pairs, t) := ContainerValue(Map, s).value;
    ContainerWritten(Map, s);
    var f := Filling(NO_INFO, false);
    InfoRestWritten(0, pairs, t, f);
    var ci := InfoFields(pairs, t, f).value.0.ci;
    var fs := InfoFieldBytes(ci);
    assert fs[0..] == fs && Join(fs) + [] == Join(fs);
  }

  /** A field that is written passes the test for its place. */
  lemma InfoFieldShort(ci: ConnInfo, i: nat, s: bytes)
    requires InfoOk(ci) && i < 5 && InfoFieldBytes(ci)[i] != []
    ensures var f := InfoFieldBytes(ci)[i];
            |f| >= 2 && f == Key(INFO_KEYS[i]) + f[2..] && InfoValue(i, f[2..] + s) == Some(s)
  {
    hide RegionOk, RegionBytes, Key, StringBytes, IntBytes, HeadBytes, ShortItem, IntValue, ContainerValue,
         RegionsEnd, Join;
    var k := INFO_KEYS[i];
    KeySize(k);
    if i < 3 {
      var v := if i == 0 then ci.serverPublic else if i == 1 then ci.disco.value else ci.psk.value;
      StringShort(2, v, s);
      assert (Key(k) + StringBytes(2, v))[2..] == StringBytes(2, v);
    } else if i == 3 {
      RegionsFieldShort(ci.regions, s);
    } else {
      IntShort(ci.regionId, s);
      assert (Key(k) + IntBytes(ci.regionId))[2..] == IntBytes(ci.regionId);
    }
  }

  lemma RegionsFieldShort(rs: seq<Region>, s: bytes)
    requires 0 < |rs| <= MAX_REGIONS && RegionsOk(rs)
    ensures var f := RegionsField(rs);
            |f| >= 2 && f == Key(0x72) + f[2..] && InfoValue(3, f[2..] + s) == Some(s)
  {
    hide RegionOk, RegionBytes, ContainerValue, HeadBytes, RegionsEnd, Key;
    var bs := seq(|rs|, j requires 0 <= j < |rs| => RegionBytes(rs[j]));
    AllRegionsShort(rs, s);
    forall j | 0 <= j < |rs| ensures bs[j] != [] {
      RegionStarts(rs[j]);
    }
    JoinCount(bs);
    KeySize(0x72);
    hide Join;
    var f, v := RegionsField(rs), HeadBytes(4, |rs|) + Join(bs);
    assert f == Key(0x72) + v && f[2..] == v;
    assert v + s == HeadBytes(4, |rs|) + (RegionsBytes(rs) + s);
    ContainerShort(Array, |rs|, RegionsBytes(rs) + s);
  }

  lemma AllRegionsShort(rs: seq<Region>, rest: bytes)
    requires RegionsOk(rs)
    ensures RegionsEnd(|rs|, RegionsBytes(rs) + rest) == Some(rest)
  {
    hide RegionOk, RegionBytes, RegionsEnd;
    var bs := seq(|rs|, j requires 0 <= j < |rs| => RegionBytes(rs[j]));
    RegionsShort(rs, |rs|, rest);
    assert bs[|rs|..] == [] && Join([]) + rest == rest;
  }

  lemma InfoRestSooner(i: nat, pairs: nat, s: bytes)
    requires InfoRest(i + 1, pairs, s).Some?
    ensures InfoRest(i, pairs, s) == InfoRest(i + 1, pairs, s)
  {
    hide InfoValue, Place, KeyAt;
  }

  lemma InfoRestEnters(i: nat, f: bytes, c: nat, s: bytes)
    requires i < 5 && |f| >= 2 && f == Key(INFO_KEYS[i]) + f[2..] && InfoValue(i, f[2..] + s) == Some(s)
    ensures InfoRest(i, c + 1, f + s) == InfoRest(i + 1, c, s)
  {
    hide InfoValue, Place, KeyAt, Key, InfoRest;
    var k := INFO_KEYS[i];
    KeyBytes(k, f[2..] + s);
    PlaceAt(INFO_KEYS, i);
    assert f + s == Key(k) + (f[2..] + s);
    InfoRestTake(i, i, c + 1, f + s, s);
  }

  /** The fields from the i-th on pass the test. */
  predicate InfoPassesFrom(ci: ConnInfo, i: nat)
    requires InfoOk(ci) && i <= 5
  {
    var fs := InfoFieldBytes(ci)[i..];
    InfoRest(i, Present(fs), Join(fs) + []) == Some([])
  }

  lemma InfoPassField(ci: ConnInfo, i: nat)
    requires InfoOk(ci) && i < 5 && InfoPassesFrom(ci, i + 1)
    ensures InfoPassesFrom(ci, i)
  {
    hide InfoOk, InfoFieldBytes, InfoRest, InfoValue, Join, Present, Key;
    var fs := InfoFieldBytes(ci);
    var c, s := Present(fs[i + 1..]), Join(fs[i + 1..]) + [];
    JoinSplit(fs, i, []);
    if fs[i] == [] {
      InfoRestSooner(i, c, s);
      assert [] + s == s;
    } else {
      InfoFieldShort(ci, i, s);
      InfoRestEnters(i, fs[i], c, s);
    }
  }

  lemma {:induction false} InfoRestShort(ci: ConnInfo, i: nat)
    requires InfoOk(ci) && i <= 5
    ensures InfoPassesFrom(ci, i)
    decreases 5 - i
  {
    hide InfoOk;
    if i == 5 {
      var none: bytes := [];
      assert InfoFieldBytes(ci)[5..] == [] && none + none == none;
    } else {
      hide InfoPassesFrom;
      InfoRestShort(ci, i + 1);
      InfoPassField(ci, i);
    }
  }

  /** What is written for a structure passes the test. */
  lemma InfoShort(ci: ConnInfo)
    requires InfoOk(ci)
    ensures CanonicalInfo(InfoBytes(ci))
  {
    hide InfoOk, InfoFieldBytes, InfoRest, ContainerValue, HeadBytes, Join, Present;
    var fs := InfoFieldBytes(ci);
    forall i | 0 <= i < 5 ensures fs[i] == [] || |fs[i]| >= 2 {
      InfoFieldSizes(ci, i);
    }
    InfoRestShort(ci, 0);
    assert fs[0..] == fs && Join(fs) + [] == Join(fs);
    PresentBound(fs);
    JoinLength(fs);
    ContainerShort(Map, Present(fs), Join(fs));
  }

  // ---- addresses ----

  /** Text that parses is reproduced by encoding exactly when it passes the test. */
  lemma ReproducedIff(a: bytes, restore: bool)
    requires ParseText(a, restore).Ok?
    ensures InfoOk(ParseText(a, restore).value)
    ensures AddrText(ParseText(a, restore).value) == a <==> Canonical(a)
  {
    hide InfoOk, InfoBytes, ParseInfo, Elide, Restore, Base64Url.Decode, Base64Url.Encode, Base64Url.Canonical,
         CanonicalInfo;
    var t := a[2..];
    var cbor := Base64Url.Decode(t).value;
    var ci := ParseInfo(cbor).value;
    ParsedOk(cbor);
    RestoreOk(ci);
    ElideRestore(ci);
    SameAddress(Restore(ci), ci);
    Base64Url.Reproduced(t);
    Base64Url.RoundTrip(InfoBytes(ci), []);
    assert a == PREFIX + t;
    if AddrText(ci) == a {
      SameTail(PREFIX, t, Base64Url.Encode(InfoBytes(ci)));
      InfoShort(ci);
    }
    if Canonical(a) {
      InfoWritten(cbor);
    }
  }
}
