/** Parsing undoes encoding, up to the documented elisions. */
module AddrLaws {
  import opened Words
  import opened Errors
  import opened Cbor
  import opened Numerals
  import opened Addr
  import Utf8
  import Base64Url

  // ---- joined fields ----

  lemma JoinSplit(fs: seq<bytes>, i: nat, rest: bytes)
    requires i < |fs|
    ensures Join(fs[i..]) + rest == fs[i] + (Join(fs[i + 1..]) + rest)
    ensures Present(fs[i..]) == Present(fs[i + 1..]) + if fs[i] == [] then 0 else 1
  {
    assert fs[i..][1..] == fs[i + 1..];
  }

  lemma {:induction false} JoinAppend(fs: seq<bytes>, f: bytes)
    ensures Join(fs + [f]) == Join(fs) + f
    ensures Present(fs + [f]) == Present(fs) + if f == [] then 0 else 1
  {
    if fs == [] {
      assert [f][1..] == [];
    } else {
      JoinAppend(fs[1..], f);
      assert (fs + [f])[1..] == fs[1..] + [f];
    }
  }

  lemma {:induction false} JoinParts(fs: seq<bytes>, i: nat)
    requires i <= |fs|
    ensures Join(fs[..i]) + Join(fs[i..]) == Join(fs)
  {
    if i == 0 {
      assert fs[..0] == [] && fs[0..] == fs;
    } else {
      JoinParts(fs[1..], i - 1);
      assert fs[..i][1..] == fs[1..][..i - 1] && fs[i..] == fs[1..][i - 1..];
    }
  }

  /** Every present field is at least a pair of items, so a written count never exceeds what follows it. */
  lemma {:induction false} JoinLength(fs: seq<bytes>)
    requires forall i :: 0 <= i < |fs| ==> fs[i] == [] || |fs[i]| >= 2
    ensures |Join(fs)| >= 2 * Present(fs)
  {
    if fs != [] {
      JoinLength(fs[1..]);
    }
  }

  // ---- single fields ----

  lemma KeyRead(k: u8, v: bytes, s: bytes)
    requires k < 0x80
    ensures NextKey((Key(k) + v) + s) == Ok((k, v + s))
    ensures |Key(k)| == 2
  {
    assert (Key(k) + v) + s == Key(k) + (v + s);
    assert Utf8.WellFormed([k]) by {
      assert [k][1..] == [];
    }
    StringRoundTrip(3, [k], v + s);
    hide NextItem, StringBytes, Utf8.WellFormed;
    KeySize(k);
  }

  lemma KeySize(k: u8)
    ensures |Key(k)| == 2
  {
  }

  lemma TextRead(t: bytes, cap: nat, s: bytes)
    requires CString(t, cap) && cap <= DNS_NAME_MAX
    ensures NextText(StringBytes(3, t) + s, cap) == Ok((t, s))
  {
    StringRoundTrip(3, t, s);
    hide NextItem, StringBytes, Utf8.WellFormed;
  }

  lemma BytesRead(v: bytes, s: bytes)
    requires |v| == KEY_LEN
    ensures NextBytes(StringBytes(2, v) + s, KEY_LEN) == Ok((v, s))
  {
    StringRoundTrip(2, v, s);
    hide NextItem, StringBytes;
  }

  lemma PortRead(v: int, s: bytes)
    requires Port(v)
    ensures NextPort(IntBytes(v) + s) == Ok((v, s))
  {
    IntRoundTrip(v, s);
    hide NextInt;
  }

  // ---- nodes ----

  lemma NodePair(k: u8, v: bytes, s: bytes, c: nat, n: Node, n': Node)
    requires k < 0x80 && NodeField(k, v + s, n) == Ok((n', s))
    ensures NodeFields(c + 1, (Key(k) + v) + s, n) == NodeFields(c, s, n')
  {
    KeyRead(k, v, s);
    hide NextKey, NodeField, Key;
  }

  lemma NodeTextStep(k: u8, t: bytes, c: nat, s: bytes, n: Node)
    requires TextCap(k) > 0 && CString(t, TextCap(k))
    ensures NodeFields(c + (if t == [] then 0 else 1), TextField(k, t) + s, n)
         == NodeFields(c, s, if t == [] then n else SetText(n, k, t))
  {
    hide Utf8.WellFormed, NextText, StringBytes, NodeFields, Key;
    if t == [] {
      assert TextField(k, t) + s == s;
    } else {
      TextRead(t, TextCap(k), s);
      NodePair(k, StringBytes(3, t), s, c, n, SetText(n, k, t));
    }
  }

  lemma NodePortStep(k: u8, v: int, c: nat, s: bytes, n: Node)
    requires (k == 0x73 || k == 0x64) && Port(v)
    ensures NodeFields(c + (if v == 0 then 0 else 1), IntField(k, v) + s, n)
         == NodeFields(c, s, if v == 0 then n else if k == 0x73 then n.(stunPort := v) else n.(derpPort := v))
  {
    hide NextPort, IntBytes, NodeFields, Key;
    if v == 0 {
      assert IntField(k, v) + s == s;
    } else {
      PortRead(v, s);
      NodePair(k, IntBytes(v), s, c, n, if k == 0x73 then n.(stunPort := v) else n.(derpPort := v));
    }
  }

  lemma NodeBoolStep(v: bool, c: nat, s: bytes, n: Node)
    ensures NodeFields(c + (if v then 1 else 0), BoolField(0x78, v) + s, n)
         == NodeFields(c, s, if v then n.(insecure := true) else n)
  {
    hide NextBool, HeadBytes, NodeFields, Key;
    if v {
      BoolRoundTrip(v, s);
      NodePair(0x78, HeadBytes(7, TRUE), s, c, n, n.(insecure := true));
    } else {
      assert BoolField(0x78, v) + s == s;
    }
  }

  /** A node after its first i fields have been read. */
  function Filled(n: Node, i: nat): Node {
    Node(if i >= 1 then ElideNode(n).name else [],
         if i >= 2 then n.hostname else [],
         if i >= 3 then n.certName else [],
         if i >= 4 then n.ipv4 else [],
         if i >= 5 then n.ipv6 else [],
         0,
         if i >= 6 then n.stunPort else 0,
         if i >= 7 then n.derpPort else 0,
         i >= 8 && n.insecure)
  }

  /** What a parser demands of the i-th field that is written. */
  predicate FieldOk(n: Node, i: nat) {
    if i == 0 then Utf8.WellFormed(ElideNode(n).name)
    else if i == 1 then Utf8.WellFormed(n.hostname)
    else if i == 2 then Utf8.WellFormed(n.certName)
    else if i == 3 then Utf8.WellFormed(n.ipv4)
    else if i == 4 then Utf8.WellFormed(n.ipv6)
    else if i == 5 then Port(n.stunPort)
    else if i == 6 then Port(n.derpPort)
    else true
  }

  lemma FieldsOk(n: Node)
    requires NodeHeld(n)
    ensures NodeOk(ElideNode(n)) <==> forall i :: 0 <= i < 8 ==> FieldOk(n, i)
  {
    NoText();
    hide Utf8.WellFormed;
    if forall i :: 0 <= i < 8 ==> FieldOk(n, i) {
      assert FieldOk(n, 0) && FieldOk(n, 1) && FieldOk(n, 2) && FieldOk(n, 3) && FieldOk(n, 4);
      assert FieldOk(n, 5) && FieldOk(n, 6);
    }
  }

  lemma NodeStep(n: Node, i: nat, c: nat, s: bytes)
    requires NodeHeld(n) && i < 8 && FieldOk(n, i)
    ensures var f := NodeFieldBytes(n)[i];
            NodeFields(c + (if f == [] then 0 else 1), f + s, Filled(n, i)) == NodeFields(c, s, Filled(n, i + 1))
  {
    hide Utf8.WellFormed, NodeFields;
    NoText();
    if i == 0 {
      NodeTextStep(0x6e, ElideNode(n).name, c, s, Filled(n, 0));
    } else if i == 1 {
      NodeTextStep(0x68, n.hostname, c, s, Filled(n, 1));
    } else if i == 2 {
      NodeTextStep(0x74, n.certName, c, s, Filled(n, 2));
    } else if i == 3 {
      NodeTextStep(0x34, n.ipv4, c, s, Filled(n, 3));
    } else if i == 4 {
      NodeTextStep(0x36, n.ipv6, c, s, Filled(n, 4));
    } else if i == 5 {
      NodePortStep(0x73, n.stunPort, c, s, Filled(n, 5));
    } else if i == 6 {
      NodePortStep(0x64, n.derpPort, c, s, Filled(n, 6));
    } else {
      NodeBoolStep(n.insecure, c, s, Filled(n, 7));
    }
  }

  lemma NoText()
    ensures Utf8.WellFormed([])
  {
  }

  lemma BadText(k: u8, t: bytes, c: nat, s: bytes, n: Node)
    requires TextCap(k) > 0 && |t| < DNS_NAME_MAX && !Utf8.WellFormed(t)
    ensures TextField(k, t) != [] && NodeFields(c + 1, TextField(k, t) + s, n).Err?
  {
    NoText();
    KeySize(k);
    KeyRead(k, StringBytes(3, t), s);
    BadString(t, s);
    hide NextKey, NextItem, StringBytes, Key, Utf8.WellFormed;
  }

  lemma BadString(t: bytes, s: bytes)
    requires |t| < DNS_NAME_MAX && !Utf8.WellFormed(t)
    ensures NextItem(StringBytes(3, t) + s).Err?
  {
    hide HeadOf, HeadBytes, Utf8.WellFormed;
    var h := HeadBytes(3, |t|);
    HeadRoundTrip(3, |t|, t + s);
    assert StringBytes(3, t) + s == h + (t + s);
    assert (h + (t + s))[|h|..] == t + s && (t + s)[..|t|] == t;
  }

  lemma BadPort(k: u8, v: int, c: nat, s: bytes, n: Node)
    requires (k == 0x73 || k == 0x64) && Int32(v) && !Port(v)
    ensures IntField(k, v) != [] && NodeFields(c + 1, IntField(k, v) + s, n).Err?
  {
    KeySize(k);
    KeyRead(k, IntBytes(v), s);
    IntRoundTrip(v, s);
    hide NextKey, NextInt, IntBytes, Key;
  }

  /** A field the parser refuses makes it fail there. */
  lemma NodeStop(n: Node, i: nat, c: nat, s: bytes, m: Node)
    requires NodeHeld(n) && i < 8 && !FieldOk(n, i)
    ensures var f := NodeFieldBytes(n)[i]; f != [] && NodeFields(c + 1, f + s, m).Err?
  {
    hide Utf8.WellFormed, NodeFields;
    if i == 0 {
      BadText(0x6e, ElideNode(n).name, c, s, m);
    } else if i == 1 {
      BadText(0x68, n.hostname, c, s, m);
    } else if i == 2 {
      BadText(0x74, n.certName, c, s, m);
    } else if i == 3 {
      BadText(0x34, n.ipv4, c, s, m);
    } else if i == 4 {
      BadText(0x36, n.ipv6, c, s, m);
    } else if i == 5 {
      BadPort(0x73, n.stunPort, c, s, m);
    } else {
      BadPort(0x64, n.derpPort, c, s, m);
    }
  }

  /** The outcome of reading the fields from the i-th on. */
  function NodeTail(n: Node, i: nat, rest: bytes): Result<(Node, bytes)>
    requires NodeHeld(n) && i <= 8
  {
    var fs := NodeFieldBytes(n)[i..];
    NodeFields(Present(fs), Join(fs) + rest, Filled(n, i))
  }

  lemma NodeAdvance(n: Node, i: nat, rest: bytes)
    requires NodeHeld(n) && i < 8
    ensures if FieldOk(n, i) then NodeTail(n, i, rest) == NodeTail(n, i + 1, rest) else NodeTail(n, i, rest).Err?
  {
    hide NodeHeld, NodeFieldBytes, Join, Present, NodeFields, Filled, FieldOk;
    var fs := NodeFieldBytes(n);
    JoinSplit(fs, i, rest);
    var c, s := Present(fs[i + 1..]), Join(fs[i + 1..]) + rest;
    if FieldOk(n, i) {
      NodeStep(n, i, c, s);
    } else {
      NodeStop(n, i, c, s, Filled(n, i));
    }
  }

  lemma NodeDone(n: Node, rest: bytes)
    requires NodeHeld(n)
    ensures NodeTail(n, 8, rest) == Ok((ElideNode(n), rest))
  {
    hide NodeHeld;
    assert NodeFieldBytes(n)[8..] == [] && [] + rest == rest;
  }

  lemma {:induction false} NodeFieldsRoundTrip(n: Node, i: nat, rest: bytes)
    requires NodeHeld(n) && i <= 8
    ensures if forall j :: i <= j < 8 ==> FieldOk(n, j) then NodeTail(n, i, rest) == Ok((ElideNode(n), rest))
            else NodeTail(n, i, rest).Err?
    decreases 8 - i
  {
    hide NodeHeld, FieldOk, NodeTail, ElideNode;
    if i == 8 {
      NodeDone(n, rest);
    } else {
      NodeAdvance(n, i, rest);
      NodeFieldsRoundTrip(n, i + 1, rest);
    }
  }

  /** A map of fields reads as its count, with the fields next. */
  lemma MapRead(fs: seq<bytes>, rest: bytes)
    requires |fs| <= 8 && forall i :: 0 <= i < |fs| ==> fs[i] == [] || |fs[i]| >= 2
    ensures Present(fs) <= 8
    ensures NextMap(MapBytes(fs) + rest) == Ok((Present(fs), Join(fs) + rest))
  {
    hide NextItem, HeadBytes, Join, Present;
    PresentBound(fs);
    JoinLength(fs);
    ContainerRoundTrip(Map, Present(fs), Join(fs) + rest);
    assert MapBytes(fs) + rest == HeadBytes(5, Present(fs)) + (Join(fs) + rest);
  }

  lemma NodeFieldSizes(n: Node, i: nat)
    requires NodeHeld(n) && i < 8
    ensures NodeFieldBytes(n)[i] == [] || |NodeFieldBytes(n)[i]| >= 2
  {
    KeySize(0x6e);
    KeySize(0x68);
    KeySize(0x74);
    KeySize(0x34);
    KeySize(0x36);
    KeySize(0x73);
    KeySize(0x64);
    KeySize(0x78);
    hide Key, StringBytes, IntBytes, HeadBytes, Utf8.WellFormed;
  }

  /** A written node parses, to the node elided, exactly when what elision leaves of it is well formed. */
  lemma NodeParses(n: Node, rest: bytes)
    requires NodeHeld(n)
    ensures if NodeOk(ElideNode(n)) then ParseNode(NodeBytes(n) + rest) == Ok((ElideNode(n), rest))
            else ParseNode(NodeBytes(n) + rest).Err?
  {
    FieldsOk(n);
    var fs := NodeFieldBytes(n);
    forall i | 0 <= i < 8 ensures fs[i] == [] || |fs[i]| >= 2 {
      NodeFieldSizes(n, i);
    }
    NodeFieldsRoundTrip(n, 0, rest);
    assert fs[0..] == fs;
    assert Filled(n, 0) == NO_NODE;
    hide NodeHeld, NodeOk, NodeFieldBytes, Filled, FieldOk, NextMap, NodeFields, Join, Present;
    MapRead(fs, rest);
  }

  lemma {:induction false} NodesRoundTrip(ns: seq<Node>, i: nat, rest: bytes)
    requires i <= |ns| && NodesHeld(ns)
    ensures var bs, r := seq(|ns|, j requires 0 <= j < |ns| => NodeBytes(ns[j])), ParseNodes(i, NodesBytes(ns) + rest);
            if NodesOk(ElideNodes(ns)[..i]) then r == Ok((ElideNodes(ns)[..i], Join(bs[i..]) + rest)) else r.Err?
  {
    hide NodeHeld, NodeOk, NodeBytes, ParseNode, ElideNode;
    var bs, es := seq(|ns|, j requires 0 <= j < |ns| => NodeBytes(ns[j])), ElideNodes(ns);
    if i == 0 {
      assert bs[0..] == bs && es[..0] == [];
    } else {
      NodesRoundTrip(ns, i - 1, rest);
      JoinSplit(bs, i - 1, rest);
      NodeParses(ns[i - 1], Join(bs[i..]) + rest);
      MoreNodes(es, i);
    }
  }

  lemma MoreNodes(es: seq<Node>, i: nat)
    requires 0 < i <= |es|
    ensures es[..i] == es[..i - 1] + [es[i - 1]]
    ensures NodesOk(es[..i]) <==> NodesOk(es[..i - 1]) && NodeOk(es[i - 1])
  {
    hide NodeOk;
    var a, b := es[..i], es[..i - 1];
    if NodesOk(a) {
      assert NodeOk(a[i - 1]);
      forall j | 0 <= j < |b| ensures NodeOk(b[j]) {
        assert b[j] == a[j];
      }
    } else if NodesOk(b) && NodeOk(es[i - 1]) {
      forall j | 0 <= j < |a| ensures NodeOk(a[j]) {
        assert j < i - 1 ==> a[j] == b[j];
      }
    }
  }

  lemma NodesFieldRead(ns: seq<Node>, rest: bytes, reg: Region)
    requires 0 < |ns| <= MAX_NODES && NodesHeld(ns)
    ensures var r := RegionField(0x4e, (HeadBytes(4, |ns|) + NodesBytes(ns)) + rest, reg);
            if NodesOk(ElideNodes(ns)) then r == Ok((reg.(nodes := ElideNodes(ns)), rest)) else r.Err?
  {
    hide NodeHeld, NodeOk, NodeBytes, ParseNode, ElideNode;
    var bs := seq(|ns|, j requires 0 <= j < |ns| => NodeBytes(ns[j]));
    NodesRoundTrip(ns, |ns|, rest);
    assert bs[|ns|..] == [] && Join([]) + rest == rest;
    assert ElideNodes(ns)[..|ns|] == ElideNodes(ns);
    AllPresent(ns);
    assert (HeadBytes(4, |ns|) + NodesBytes(ns)) + rest == HeadBytes(4, |ns|) + (NodesBytes(ns) + rest);
    ContainerRoundTrip(Array, |ns|, NodesBytes(ns) + rest);
    hide NextItem, HeadBytes, NodesBytes, ParseNodes, ElideNodes;
  }

  lemma NodeStarts(n: Node)
    requires NodeHeld(n)
    ensures NodeBytes(n) != []
  {
    hide NodeHeld, NodeFieldBytes, Join;
    PresentBound(NodeFieldBytes(n));
    HeadSize(5, Present(NodeFieldBytes(n)));
  }

  /** Each node takes at least a byte. */
  lemma AllPresent(ns: seq<Node>)
    requires NodesHeld(ns)
    ensures |NodesBytes(ns)| >= |ns|
  {
    hide NodeHeld, NodeBytes;
    var bs := seq(|ns|, j requires 0 <= j < |ns| => NodeBytes(ns[j]));
    forall j | 0 <= j < |ns| ensures bs[j] != [] {
      NodeStarts(ns[j]);
    }
    JoinCount(bs);
  }

  lemma {:induction false} JoinCount(fs: seq<bytes>)
    requires forall i :: 0 <= i < |fs| ==> fs[i] != []
    ensures |Join(fs)| >= |fs|
  {
    if fs != [] {
      JoinCount(fs[1..]);
    }
  }

  // ---- regions ----

  /** The same for a region. */
  lemma RegionParses(r: Region, rest: bytes)
    requires RegionHeld(r)
    ensures if RegionOk(ElideRegion(r)) then ParseRegion(RegionBytes(r) + rest) == Ok((ElideRegion(r), rest))
            else ParseRegion(RegionBytes(r) + rest).Err?
  {
    NoText();
    hide NodeHeld, NodeOk, Held, NodesField, MapBytes, ParseRegion, NodesOk, Utf8.WellFormed;
    if r.nodes == [] {
      EmptyRegion(r, rest);
    } else {
      FullRegion(r, rest);
    }
  }

  lemma RegionStarts(r: Region)
    requires RegionHeld(r)
    ensures RegionBytes(r) != []
  {
    hide NodeHeld, Held, NodesField, Join;
    PresentBound([NodesField(r.nodes)]);
    HeadSize(5, Present([NodesField(r.nodes)]));
  }

  lemma EmptyRegion(r: Region, rest: bytes)
    requires RegionHeld(r) && r.nodes == []
    ensures ParseRegion(RegionBytes(r) + rest) == Ok((ElideRegion(r), rest)) && NodesOk(ElideNodes(r.nodes))
  {
    hide NodeHeld, Held, NextMap, HeadBytes;
    OneField([]);
    MapRead([[]], rest);
    assert ElideNodes(r.nodes) == [] && [] + rest == rest;
  }

  lemma FullRegion(r: Region, rest: bytes)
    requires RegionHeld(r) && r.nodes != []
    ensures var p := ParseRegion(RegionBytes(r) + rest);
            if NodesOk(ElideNodes(r.nodes)) then p == Ok((ElideRegion(r), rest)) else p.Err?
  {
    hide NodeHeld, NodesOk, Held, NextMap, NextKey, RegionField, Key, HeadBytes, NodesBytes;
    var f, v := NodesField(r.nodes), HeadBytes(4, |r.nodes|) + NodesBytes(r.nodes);
    KeySize(0x4e);
    OneField(f);
    MapRead([f], rest);
    assert f == Key(0x4e) + v;
    NodesFieldRead(r.nodes, rest, NO_REGION);
    KeyRead(0x4e, v, rest);
    RegionPair(f, rest);
  }

  lemma OneField(f: bytes)
    ensures Join([f]) == f && Present([f]) == if f == [] then 0 else 1
  {
    assert [f][1..] == [];
  }

  lemma RegionPair(f: bytes, rest: bytes)
    requires NextKey(f + rest).Ok?
    ensures var k := NextKey(f + rest).value; RegionFields(1, f + rest, NO_REGION) == RegionField(k.0, k.1, NO_REGION)
  {
    hide NextKey, RegionField;
    var k := NextKey(f + rest).value;
    var r := RegionField(k.0, k.1, NO_REGION);
    if r.Ok? {
      assert RegionFields(0, r.value.1, r.value.0) == r;
    }
  }

  lemma {:induction false} RegionsRoundTrip(rs: seq<Region>, i: nat, rest: bytes)
    requires i <= |rs| && RegionsHeld(rs)
    ensures var bs := seq(|rs|, j requires 0 <= j < |rs| => RegionBytes(rs[j]));
            var r := ParseRegions(i, Join(bs) + rest);
            if RegionsOk(ElideRegions(rs)[..i]) then r == Ok((ElideRegions(rs)[..i], Join(bs[i..]) + rest)) else r.Err?
  {
    hide RegionHeld, RegionOk, RegionBytes, ParseRegion, ElideRegion;
    var bs, es := seq(|rs|, j requires 0 <= j < |rs| => RegionBytes(rs[j])), ElideRegions(rs);
    if i == 0 {
      assert bs[0..] == bs && es[..0] == [];
    } else {
      RegionsRoundTrip(rs, i - 1, rest);
      JoinSplit(bs, i - 1, rest);
      RegionParses(rs[i - 1], Join(bs[i..]) + rest);
      MoreRegions(es, i);
    }
  }

  lemma MoreRegions(es: seq<Region>, i: nat)
    requires 0 < i <= |es|
    ensures es[..i] == es[..i - 1] + [es[i - 1]]
    ensures RegionsOk(es[..i]) <==> RegionsOk(es[..i - 1]) && RegionOk(es[i - 1])
  {
    hide RegionOk;
    var a, b := es[..i], es[..i - 1];
    if RegionsOk(a) {
      assert RegionOk(a[i - 1]);
      forall j | 0 <= j < |b| ensures RegionOk(b[j]) {
        assert b[j] == a[j];
      }
    } else if RegionsOk(b) && RegionOk(es[i - 1]) {
      forall j | 0 <= j < |a| ensures RegionOk(a[j]) {
        assert j < i - 1 ==> a[j] == b[j];
      }
    }
  }

  lemma RegionsFieldRead(rs: seq<Region>, v: bytes, rest: bytes, f: Filling)
    requires 0 < |rs| <= MAX_REGIONS && RegionsHeld(rs) && RegionsField(rs) == Key(0x72) + v
    ensures var r := InfoField(0x72, v + rest, f);
            if RegionsOk(ElideRegions(rs)) then r == Ok((Filling(f.ci.(regions := ElideRegions(rs)), f.saw), rest))
            else r.Err?
  {
    hide RegionHeld, RegionsOk, RegionBytes, ParseRegions, ElideRegions, HeadBytes, NextItem, Join;
    var bs := seq(|rs|, j requires 0 <= j < |rs| => RegionBytes(rs[j]));
    SameTail(Key(0x72), v, HeadBytes(4, |rs|) + Join(bs));
    assert v + rest == HeadBytes(4, |rs|) + (Join(bs) + rest);
    AllRegionsRead(rs, rest);
    ContainerRoundTrip(Array, |rs|, Join(bs) + rest);
  }

  lemma AllRegionsRead(rs: seq<Region>, rest: bytes)
    requires RegionsHeld(rs)
    ensures var bs := seq(|rs|, j requires 0 <= j < |rs| => RegionBytes(rs[j]));
            var r := ParseRegions(|rs|, Join(bs) + rest);
            && |Join(bs)| >= |rs|
            && if RegionsOk(ElideRegions(rs)) then r == Ok((ElideRegions(rs), rest)) else r.Err?
  {
    hide RegionHeld, RegionsOk, RegionBytes, ParseRegions, ElideRegion;
    var bs := seq(|rs|, j requires 0 <= j < |rs| => RegionBytes(rs[j]));
    RegionsRoundTrip(rs, |rs|, rest);
    assert bs[|rs|..] == [] && Join([]) + rest == rest;
    assert ElideRegions(rs)[..|rs|] == ElideRegions(rs);
    forall j | 0 <= j < |rs| ensures bs[j] != [] {
      RegionStarts(rs[j]);
    }
    JoinCount(bs);
  }

  lemma SameTail(a: bytes, b: bytes, c: bytes)
    ensures a + b == a + c ==> b == c
  {
    if a + b == a + c {
      assert (a + b)[|a|..] == b && (a + c)[|a|..] == c;
    }
  }

  // ---- the whole structure ----

  lemma InfoPair(k: u8, v: bytes, s: bytes, c: nat, f: Filling, f': Filling)
    requires k < 0x80 && InfoField(k, v + s, f) == Ok((f', s))
    ensures InfoFields(c + 1, (Key(k) + v) + s, f) == InfoFields(c, s, f')
  {
    KeyRead(k, v, s);
    hide NextKey, InfoField, Key;
  }

  lemma InfoPairFails(k: u8, v: bytes, s: bytes, c: nat, f: Filling)
    requires k < 0x80 && InfoField(k, v + s, f).Err?
    ensures InfoFields(c + 1, (Key(k) + v) + s, f).Err?
  {
    KeyRead(k, v, s);
    hide NextKey, InfoField, Key;
  }

  /** A structure after its first i fields have been read. */
  function FilledInfo(ci: ConnInfo, i: nat): Filling {
    Filling(ConnInfo(if i >= 1 then ci.serverPublic else Zeros(KEY_LEN),
                     if i >= 2 then ci.disco else None,
                     if i >= 3 then ci.psk else None,
                     if i >= 4 then ElideRegions(ci.regions) else [],
                     if i >= 5 then ci.regionId else 0),
            i >= 1)
  }

  lemma InfoKeyStep(ci: ConnInfo, i: nat, c: nat, s: bytes)
    requires InfoHeld(ci) && i < 3
    ensures var f := InfoFieldBytes(ci)[i];
            InfoFields(c + (if f == [] then 0 else 1), f + s, FilledInfo(ci, i))
            == InfoFields(c, s, FilledInfo(ci, i + 1))
  {
    hide RegionsHeld, InfoFields, StringBytes, NextBytes, ElideRegions, RegionsField, IntField;
    var v := if i == 0 then Some(ci.serverPublic) else if i == 1 then ci.disco else ci.psk;
    var k := if i == 0 then 0x70 else if i == 1 then 0x6b else 0x71;
    assert InfoFieldBytes(ci)[i] == KeyField(k, v);
    if v.Some? {
      BytesRead(v.value, s);
      InfoPair(k, StringBytes(2, v.value), s, c, FilledInfo(ci, i), FilledInfo(ci, i + 1));
    } else {
      assert [] + s == s;
    }
  }

  lemma InfoRegionsStep(ci: ConnInfo, c: nat, s: bytes)
    requires InfoHeld(ci)
    ensures var f := RegionsField(ci.regions);
            var r := InfoFields(c + (if f == [] then 0 else 1), f + s, FilledInfo(ci, 3));
            if RegionsOk(ElideRegions(ci.regions)) then r == InfoFields(c, s, FilledInfo(ci, 4)) else r.Err?
  {
    hide RegionHeld, RegionOk, InfoFields, ElideRegion, RegionBytes;
    if ci.regions == [] {
      assert ElideRegions([]) == [] && [] + s == s;
    } else {
      var v := RegionsField(ci.regions)[|Key(0x72)|..];
      assert RegionsField(ci.regions) == Key(0x72) + v;
      RegionsFieldRead(ci.regions, v, s, FilledInfo(ci, 3));
      hide InfoField, RegionsField, HeadBytes, Join, RegionsOk;
      KeySize(0x72);
      if RegionsOk(ElideRegions(ci.regions)) {
        InfoPair(0x72, v, s, c, FilledInfo(ci, 3), FilledInfo(ci, 4));
      } else {
        InfoPairFails(0x72, v, s, c, FilledInfo(ci, 3));
      }
    }
  }

  lemma InfoIdStep(ci: ConnInfo, c: nat, s: bytes)
    requires InfoHeld(ci)
    ensures var f := IntField(0x69, ci.regionId);
            InfoFields(c + (if f == [] then 0 else 1), f + s, FilledInfo(ci, 4)) == InfoFields(c, s, FilledInfo(ci, 5))
  {
    hide RegionHeld, InfoFields, ElideRegion;
    if ci.regionId == 0 {
      assert [] + s == s;
    } else {
      IntRoundTrip(ci.regionId, s);
      hide NextInt, IntBytes;
      InfoPair(0x69, IntBytes(ci.regionId), s, c, FilledInfo(ci, 4), FilledInfo(ci, 5));
      KeySize(0x69);
    }
  }

  function InfoTail(ci: ConnInfo, i: nat): Result<(Filling, bytes)>
    requires InfoHeld(ci) && i <= 5
  {
    var fs := InfoFieldBytes(ci)[i..];
    InfoFields(Present(fs), Join(fs), FilledInfo(ci, i))
  }

  /** The parser gets past the i-th field. */
  predicate Passes(ci: ConnInfo, i: nat) {
    i == 3 ==> RegionsOk(ElideRegions(ci.regions))
  }

  lemma InfoStep(ci: ConnInfo, i: nat, c: nat, s: bytes)
    requires InfoHeld(ci) && i < 5
    ensures var f := InfoFieldBytes(ci)[i];
            var r := InfoFields(c + (if f == [] then 0 else 1), f + s, FilledInfo(ci, i));
            if Passes(ci, i) then r == InfoFields(c, s, FilledInfo(ci, i + 1)) else r.Err?
  {
    hide InfoHeld, RegionsOk, FilledInfo, RegionsField, IntField, KeyField, InfoFields;
    if i < 3 {
      InfoKeyStep(ci, i, c, s);
    } else if i == 3 {
      InfoRegionsStep(ci, c, s);
    } else {
      InfoIdStep(ci, c, s);
    }
  }

  lemma InfoAdvance(ci: ConnInfo, i: nat)
    requires InfoHeld(ci) && i < 5
    ensures if Passes(ci, i) then InfoTail(ci, i) == InfoTail(ci, i + 1) else InfoTail(ci, i).Err?
  {
    hide InfoHeld, InfoFieldBytes, FilledInfo, Join, Present, InfoFields, Passes;
    var fs := InfoFieldBytes(ci);
    JoinSplit(fs, i, []);
    var c, s := Present(fs[i + 1..]), Join(fs[i + 1..]);
    assert s + [] == s && Join(fs[i..]) + [] == Join(fs[i..]);
    InfoStep(ci, i, c, s);
  }

  lemma {:induction false} InfoFieldsRoundTrip(ci: ConnInfo, i: nat)
    requires InfoHeld(ci) && i <= 5
    ensures if forall j :: i <= j < 5 ==> Passes(ci, j) then InfoTail(ci, i) == Ok((FilledInfo(ci, 5), []))
            else InfoTail(ci, i).Err?
    decreases 5 - i
  {
    hide InfoHeld, FilledInfo, Passes, InfoTail;
    if i == 5 {
      InfoDone(ci);
    } else {
      InfoAdvance(ci, i);
      InfoFieldsRoundTrip(ci, i + 1);
    }
  }

  lemma InfoDone(ci: ConnInfo)
    requires InfoHeld(ci)
    ensures InfoTail(ci, 5) == Ok((FilledInfo(ci, 5), []))
  {
    hide InfoHeld, FilledInfo;
    assert InfoFieldBytes(ci)[5..] == [];
  }

  lemma InfoFieldSizes(ci: ConnInfo, i: nat)
    requires InfoHeld(ci) && i < 5
    ensures InfoFieldBytes(ci)[i] == [] || |InfoFieldBytes(ci)[i]| >= 2
  {
    hide RegionsHeld;
    KeySize(0x70);
    KeySize(0x6b);
    KeySize(0x71);
    KeySize(0x72);
    KeySize(0x69);
    hide Key, StringBytes, IntBytes, HeadBytes;
  }

  /** The CBOR of a structure parses, to what elision keeps of it, exactly when that is well formed. */
  lemma InfoParses(ci: ConnInfo)
    requires InfoHeld(ci)
    ensures if InfoOk(Elide(ci)) then ParseInfo(InfoBytes(ci)) == Ok(Elide(ci)) else ParseInfo(InfoBytes(ci)).Err?
  {
    var fs := InfoFieldBytes(ci);
    forall i | 0 <= i < 5 ensures fs[i] == [] || |fs[i]| >= 2 {
      InfoFieldSizes(ci, i);
    }
    assert InfoOk(Elide(ci)) <==> forall j :: 0 <= j < 5 ==> Passes(ci, j) by {
      hide RegionOk, RegionHeld;
      assert Passes(ci, 3) <==> RegionsOk(Elide(ci).regions);
    }
    InfoFieldsRoundTrip(ci, 0);
    assert fs[0..] == fs;
    assert FilledInfo(ci, 0) == Filling(NO_INFO, false);
    assert FilledInfo(ci, 5) == Filling(Elide(ci), true);
    hide InfoHeld, InfoOk, InfoFieldBytes, FilledInfo, NextMap, InfoFields, Join, Present, Passes;
    MapRead(fs, []);
    assert MapBytes(fs) + [] == MapBytes(fs) && Join(fs) + [] == Join(fs);
  }

  /** Parsing the CBOR of a well-formed structure gives what elision keeps of it. */
  lemma InfoRoundTrip(ci: ConnInfo)
    requires InfoOk(ci)
    ensures ParseInfo(InfoBytes(ci)) == Ok(Elide(ci))
  {
    hide InfoOk, InfoBytes, ParseInfo, Elide;
    RestoreOk(ci);
    InfoParses(ci);
  }

  // ---- sizes ----

  function Sum(bs: seq<nat>): nat {
    if bs == [] then 0 else bs[0] + Sum(bs[1..])
  }

  lemma {:induction false} JoinBound(fs: seq<bytes>, bs: seq<nat>)
    requires |fs| == |bs| && forall i :: 0 <= i < |fs| ==> |fs[i]| <= bs[i]
    ensures |Join(fs)| <= Sum(bs)
  {
    if fs != [] {
      JoinBound(fs[1..], bs[1..]);
    }
  }

  lemma {:induction false} JoinEach(fs: seq<bytes>, most: nat)
    requires forall i :: 0 <= i < |fs| ==> |fs[i]| <= most
    ensures |Join(fs)| <= |fs| * most
  {
    if fs != [] {
      JoinEach(fs[1..], most);
      assert |fs| * most == |fs[1..]| * most + most;
    }
  }

  lemma HeadSize(major: nat, v: u64)
    requires major < 8
    ensures |HeadBytes(major, v)| <= 9
    ensures v < 24 ==> |HeadBytes(major, v)| == 1
    ensures v <= 0xff ==> |HeadBytes(major, v)| <= 2
    ensures v <= 0xffff ==> |HeadBytes(major, v)| <= 3
    ensures v <= 0xffff_ffff ==> |HeadBytes(major, v)| <= 5
  {
  }

  lemma NodeSize(n: Node)
    requires NodeHeld(n)
    ensures |NodeBytes(n)| <= 893
  {
    var fs, bs := NodeFieldBytes(n), [259, 259, 259, 49, 49, 7, 7, 3];
    forall i | 0 <= i < 8 ensures |fs[i]| <= bs[i] {
      NodeFieldMost(n, i);
    }
    SumOfNode();
    PresentBound(fs);
    HeadSize(5, Present(fs));
    hide NodeHeld, NodeFieldBytes, Sum, HeadBytes;
    JoinBound(fs, bs);
  }

  lemma SumOfNode()
    ensures Sum([259, 259, 259, 49, 49, 7, 7, 3]) == 892
  {
    assert Sum([7, 3]) == 10;
    assert Sum([49, 7, 7, 3]) == 66;
    assert Sum([259, 49, 49, 7, 7, 3]) == 374;
  }

  lemma NodeFieldMost(n: Node, i: nat)
    requires NodeHeld(n) && i < 8
    ensures |NodeFieldBytes(n)[i]| <= [259, 259, 259, 49, 49, 7, 7, 3][i]
  {
    hide Utf8.WellFormed, HeadBytes, Key;
    var k := [0x6e, 0x68, 0x74, 0x34, 0x36, 0x73, 0x64, 0x78][i];
    KeySize(k);
    if i < 5 {
      var t := [ElideNode(n).name, n.hostname, n.certName, n.ipv4, n.ipv6][i];
      HeadSize(3, |t|);
    } else if i < 7 {
      var v := if i == 5 then n.stunPort else n.derpPort;
      HeadSize(0, if v >= 0 then v else 0);
      HeadSize(1, if v >= 0 then 0 else -1 - v);
    } else {
      HeadSize(7, TRUE);
    }
  }

  lemma RegionSize(r: Region)
    requires RegionHeld(r)
    ensures |RegionBytes(r)| <= 7148
  {
    hide NodeHeld, CString, NodeBytes, HeadBytes, Key;
    var ns, f := r.nodes, NodesField(r.nodes);
    var bs := seq(|ns|, i requires 0 <= i < |ns| => NodeBytes(ns[i]));
    forall i | 0 <= i < |ns| ensures |bs[i]| <= 893 {
      NodeSize(ns[i]);
    }
    JoinEach(bs, 893);
    HeadSize(4, |ns|);
    KeySize(0x4e);
    OneField(f);
    HeadSize(5, Present([f]));
  }

  lemma SumOfInfo()
    ensures Sum([36, 36, 36, 14299, 11]) == 14418
  {
    assert Sum([36, 14299, 11]) == 14346;
  }

  /** Every structure, its text in any encoding, fits the encoder's buffers. */
  lemma InfoSize(ci: ConnInfo)
    requires InfoHeld(ci)
    ensures |InfoBytes(ci)| <= 14420 <= CBOR_MAX
    ensures |AddrText(ci)| < STR_MAX
  {
    var fs, bs := InfoFieldBytes(ci), [36, 36, 36, 14299, 11];
    forall i | 0 <= i < 5 ensures |fs[i]| <= bs[i] {
      InfoFieldMost(ci, i);
    }
    SumOfInfo();
    PresentBound(fs);
    HeadSize(5, Present(fs));
    hide InfoHeld, InfoFieldBytes, Sum, HeadBytes;
    JoinBound(fs, bs);
    TextSize(ci);
  }

  lemma TextSize(ci: ConnInfo)
    requires InfoHeld(ci)
    ensures |AddrText(ci)| == 2 + Base64Url.EncodedLen(|InfoBytes(ci)|)
  {
    Base64Url.EncodeLen(InfoBytes(ci));
  }

  lemma InfoFieldMost(ci: ConnInfo, i: nat)
    requires InfoHeld(ci) && i < 5
    ensures |InfoFieldBytes(ci)[i]| <= [36, 36, 36, 14299, 11][i]
  {
    hide RegionHeld, HeadBytes, Key, RegionBytes;
    KeySize([0x70, 0x6b, 0x71, 0x72, 0x69][i]);
    if i < 3 {
      HeadSize(2, KEY_LEN);
    } else if i == 3 {
      var rs := ci.regions;
      var bs := seq(|rs|, j requires 0 <= j < |rs| => RegionBytes(rs[j]));
      forall j | 0 <= j < |rs| ensures |bs[j]| <= 7148 {
        RegionSize(rs[j]);
      }
      JoinEach(bs, 7148);
      HeadSize(4, |rs|);
    } else {
      var v := ci.regionId;
      HeadSize(0, if v >= 0 then v else 0);
      HeadSize(1, if v >= 0 then 0 else -1 - v);
    }
  }

  // ---- what parsing can produce ----

  lemma NodeFieldsNext(pairs: nat, s: bytes, n: Node)
    ensures var e := NodeEntry(s, n);
            NodeFields(pairs, s, n) == if pairs == 0 then Ok((n, s))
                                       else if e.Ok? then NodeFields(pairs - 1, e.value.1, e.value.0)
                                       else Err(e.error)
  {
    hide NodeEntry;
  }

  lemma {:induction false} NodeFieldsOk(pairs: nat, s: bytes, n: Node)
    requires NodeOk(n) && NodeFields(pairs, s, n).Ok?
    ensures NodeOk(NodeFields(pairs, s, n).value.0)
    decreases pairs
  {
    hide NodeEntry, NodeFields, NodeOk;
    NodeFieldsNext(pairs, s, n);
    if pairs > 0 {
      NodeEntryOk(s, n);
      NodeFieldsOk(pairs - 1, NodeEntry(s, n).value.1, NodeEntry(s, n).value.0);
    }
  }

  lemma NodeEntryOk(s: bytes, n: Node)
    requires NodeOk(n) && NodeEntry(s, n).Ok?
    ensures NodeOk(NodeEntry(s, n).value.0)
  {
    hide NodeOk, NodeField, NextKey;
    NodeFieldOk(NextKey(s).value.0, NextKey(s).value.1, n);
  }

  lemma NodeFieldOk(k: u8, s: bytes, n: Node)
    requires NodeOk(n) && NodeField(k, s, n).Ok?
    ensures NodeOk(NodeField(k, s, n).value.0)
  {
    hide NextText, NextInt, NextBool, OneItem, CString;
  }

  lemma NodeParsedOk(s: bytes)
    requires ParseNode(s).Ok?
    ensures NodeOk(ParseNode(s).value.0)
  {
    NoText();
    var pairs := NextMap(s).value;
    assert NodeOk(NO_NODE);
    hide NextMap, NodeFields, NodeOk;
    NodeFieldsOk(pairs.0, pairs.1, NO_NODE);
  }

  lemma {:induction false} NodesParsedOk(k: nat, s: bytes)
    requires ParseNodes(k, s).Ok?
    ensures NodesOk(ParseNodes(k, s).value.0)
  {
    hide NodeOk, ParseNode;
    if k > 0 {
      NodesParsedOk(k - 1, s);
      NodeParsedOk(ParseNodes(k - 1, s).value.1);
    }
  }

  lemma RegionFieldOk(k: u8, s: bytes, r: Region)
    requires RegionOk(r) && RegionField(k, s, r).Ok?
    ensures RegionOk(RegionField(k, s, r).value.0)
  {
    hide NextText, NextInt, OneItem, CString, NodeOk, NextArray, ParseNodes;
    if k == 0x4e {
      var count := NextArray(s, MAX_NODES).value;
      NodesParsedOk(count.0, count.1);
    }
  }

  lemma RegionFieldsNext(pairs: nat, s: bytes, r: Region)
    ensures var e := RegionEntry(s, r);
            RegionFields(pairs, s, r) == if pairs == 0 then Ok((r, s))
                                       else if e.Ok? then RegionFields(pairs - 1, e.value.1, e.value.0)
                                       else Err(e.error)
  {
    hide RegionEntry;
  }

  lemma {:induction false} RegionFieldsOk(pairs: nat, s: bytes, r: Region)
    requires RegionOk(r) && RegionFields(pairs, s, r).Ok?
    ensures RegionOk(RegionFields(pairs, s, r).value.0)
    decreases pairs
  {
    hide RegionEntry, RegionFields, RegionOk;
    RegionFieldsNext(pairs, s, r);
    if pairs > 0 {
      RegionEntryOk(s, r);
      RegionFieldsOk(pairs - 1, RegionEntry(s, r).value.1, RegionEntry(s, r).value.0);
    }
  }

  lemma RegionEntryOk(s: bytes, r: Region)
    requires RegionOk(r) && RegionEntry(s, r).Ok?
    ensures RegionOk(RegionEntry(s, r).value.0)
  {
    hide RegionOk, RegionField, NextKey;
    RegionFieldOk(NextKey(s).value.0, NextKey(s).value.1, r);
  }

  lemma {:induction false} RegionsParsedOk(k: nat, s: bytes)
    requires ParseRegions(k, s).Ok?
    ensures RegionsOk(ParseRegions(k, s).value.0)
  {
    hide RegionOk, RegionFields, NextMap;
    if k > 0 {
      RegionsParsedOk(k - 1, s);
      var rest := ParseRegions(k - 1, s).value.1;
      var pairs := NextMap(rest).value;
      NoRegionOk();
      RegionFieldsOk(pairs.0, pairs.1, NO_REGION);
    }
  }

  lemma NoRegionOk()
    ensures RegionOk(NO_REGION)
  {
    NoText();
  }

  lemma InfoFieldOk(k: u8, s: bytes, f: Filling)
    requires InfoOk(f.ci) && InfoField(k, s, f).Ok?
    ensures InfoOk(InfoField(k, s, f).value.0.ci)
  {
    hide NextBytes, NextInt, OneItem, RegionsOk, NextArray, ParseRegions;
    if k == 0x72 {
      var count := NextArray(s, MAX_REGIONS).value;
      RegionsParsedOk(count.0, count.1);
    }
  }

  lemma InfoFieldsNext(pairs: nat, s: bytes, f: Filling)
    ensures var e := InfoEntry(s, f);
            InfoFields(pairs, s, f) == if pairs == 0 then Ok((f, s))
                                       else if e.Ok? then InfoFields(pairs - 1, e.value.1, e.value.0)
                                       else Err(e.error)
  {
    hide InfoEntry;
  }

  lemma {:induction false} InfoFieldsOk(pairs: nat, s: bytes, f: Filling)
    requires InfoOk(f.ci) && InfoFields(pairs, s, f).Ok?
    ensures InfoOk(InfoFields(pairs, s, f).value.0.ci)
    decreases pairs
  {
    hide InfoEntry, InfoFields, InfoOk;
    InfoFieldsNext(pairs, s, f);
    if pairs > 0 {
      InfoEntryOk(s, f);
      InfoFieldsOk(pairs - 1, InfoEntry(s, f).value.1, InfoEntry(s, f).value.0);
    }
  }

  lemma InfoEntryOk(s: bytes, f: Filling)
    requires InfoOk(f.ci) && InfoEntry(s, f).Ok?
    ensures InfoOk(InfoEntry(s, f).value.0.ci)
  {
    hide InfoOk, InfoField, NextKey;
    InfoFieldOk(NextKey(s).value.0, NextKey(s).value.1, f);
  }

  /** Whatever the bytes, a parsed structure is within every limit. */
  lemma ParsedOk(s: bytes)
    requires ParseInfo(s).Ok?
    ensures InfoOk(ParseInfo(s).value)
  {
    assert InfoOk(NO_INFO);
    hide NextMap, InfoFields, InfoOk;
    var pairs := NextMap(s).value;
    InfoFieldsOk(pairs.0, pairs.1, Filling(NO_INFO, false));
  }

  // ---- restoring ----

  lemma {:induction false} AsciiWellFormed(s: bytes)
    requires forall i :: 0 <= i < |s| ==> s[i] < 0x80
    ensures Utf8.WellFormed(s)
  {
    if s != [] {
      AsciiWellFormed(s[1..]);
    }
  }

  /** A region's number in decimal always fits its code field. */
  lemma DecimalOk(v: int)
    requires Int64(v)
    ensures CString(Decimal(v), REGION_CODE_MAX) && Decimal(v) != []
  {
    assert Pow(10, 5) == 100000;
    PowAdd(10, 5, 5);
    PowAdd(10, 10, 10);
    hide Pow, Utf8.WellFormed;
    DigitsOk(if v < 0 then -v else v, 20);
    AsciiWellFormed(Decimal(v));
  }

  lemma RestoreNodeOk(n: Node, region: int)
    requires NodeOk(n) && Int64(region)
    ensures NodeOk(RestoreNode(n, region)) && NodeOk(ElideNode(n))
  {
    NoText();
    hide Utf8.WellFormed;
  }

  lemma RestoreRegionOk(r: Region, ri: nat)
    requires RegionOk(r) && ri < MAX_REGIONS
    ensures RegionOk(RestoreRegion(r, ri)) && RegionOk(ElideRegion(r))
  {
    NoText();
    hide Utf8.WellFormed, NodeOk, Decimal;
    var id := if r.regionId == 0 then ri + 1 else r.regionId;
    DecimalOk(id);
    forall i | 0 <= i < |r.nodes| ensures NodeOk(RestoreNode(r.nodes[i], id)) && NodeOk(ElideNode(r.nodes[i])) {
      RestoreNodeOk(r.nodes[i], id);
    }
  }

  lemma RestoreOk(ci: ConnInfo)
    requires InfoOk(ci)
    ensures InfoOk(Restore(ci)) && InfoOk(Elide(ci))
  {
    hide RegionOk, RestoreRegion, ElideRegion;
    forall i | 0 <= i < |ci.regions|
      ensures RegionOk(RestoreRegion(ci.regions[i], i)) && RegionOk(ElideRegion(ci.regions[i]))
    {
      RestoreRegionOk(ci.regions[i], i);
    }
  }

  // ---- addresses ----

  lemma NodeElided(n: Node)
    requires NodeHeld(n)
    ensures NodeHeld(ElideNode(n)) && NodeBytes(ElideNode(n)) == NodeBytes(n)
  {
    assert NodeFieldBytes(ElideNode(n)) == NodeFieldBytes(n);
  }

  lemma NodesElided(ns: seq<Node>, ms: seq<Node>)
    requires NodesHeld(ns) && NodesHeld(ms)
    requires ElideNodes(ns) == ElideNodes(ms)
    ensures NodesBytes(ns) == NodesBytes(ms)
  {
    hide NodeHeld, NodeBytes, ElideNode;
    assert |ns| == |ElideNodes(ns)| == |ms|;
    forall i | 0 <= i < |ns| ensures NodeBytes(ns[i]) == NodeBytes(ms[i]) {
      assert ElideNodes(ns)[i] == ElideNodes(ms)[i];
      NodeElided(ns[i]);
      NodeElided(ms[i]);
    }
    assert seq(|ns|, i requires 0 <= i < |ns| => NodeBytes(ns[i]))
        == seq(|ms|, i requires 0 <= i < |ms| => NodeBytes(ms[i]));
  }

  lemma RegionElided(r: Region, q: Region)
    requires RegionHeld(r) && RegionHeld(q) && ElideRegion(r) == ElideRegion(q)
    ensures RegionBytes(r) == RegionBytes(q)
  {
    hide NodeHeld, Held, NodesBytes;
    assert |r.nodes| == |ElideNodes(r.nodes)| == |q.nodes|;
    NodesElided(r.nodes, q.nodes);
  }

  lemma RegionsElided(rs: seq<Region>, qs: seq<Region>)
    requires |rs| <= MAX_REGIONS && |qs| <= MAX_REGIONS && RegionsHeld(rs) && RegionsHeld(qs)
    requires ElideRegions(rs) == ElideRegions(qs)
    ensures RegionsField(rs) == RegionsField(qs)
  {
    hide RegionHeld, RegionBytes, ElideRegion;
    assert |rs| == |ElideRegions(rs)| == |qs|;
    forall i | 0 <= i < |rs| ensures RegionBytes(rs[i]) == RegionBytes(qs[i]) {
      assert ElideRegions(rs)[i] == ElideRegions(qs)[i];
      RegionElided(rs[i], qs[i]);
    }
    assert seq(|rs|, i requires 0 <= i < |rs| => RegionBytes(rs[i]))
        == seq(|qs|, i requires 0 <= i < |qs| => RegionBytes(qs[i]));
  }

  /** Two structures have the same address exactly when elision leaves the same of both. */
  lemma SameAddress(a: ConnInfo, b: ConnInfo)
    requires InfoOk(a) && InfoOk(b)
    ensures AddrText(a) == AddrText(b) <==> Elide(a) == Elide(b)
  {
    if Elide(a) == Elide(b) {
      RegionsElided(a.regions, b.regions);
      hide RegionsOk, RegionsField;
      assert InfoFieldBytes(a) == InfoFieldBytes(b);
    } else if AddrText(a) == AddrText(b) {
      hide InfoOk, Elide, InfoBytes;
      SameTail(PREFIX, Base64Url.Encode(InfoBytes(a)), Base64Url.Encode(InfoBytes(b)));
      Base64Url.RoundTrip(InfoBytes(a), []);
      Base64Url.RoundTrip(InfoBytes(b), []);
      InfoRoundTrip(a);
      InfoRoundTrip(b);
    }
  }

  /**
   * An address parses exactly when what elision leaves of its structure is well formed; it then gives back that
   * structure elided, or restored as well. Text and ports that are not written do not matter.
   */
  lemma AddressParses(ci: ConnInfo, restore: bool)
    requires InfoHeld(ci)
    ensures var p := ParseText(AddrText(ci), restore);
            if InfoOk(Elide(ci)) then p == Ok(if restore then Restore(Elide(ci)) else Elide(ci)) else p.Err?
  {
    hide InfoHeld, InfoOk, AddrText, InfoBytes, ParseInfo, Restore, Elide, Base64Url.Encode, Base64Url.Decode,
         Base64Url.DecodedMax;
    var a, e := AddrText(ci), Base64Url.Encode(InfoBytes(ci));
    InfoParses(ci);
    AddressFits(ci);
    PrefixAndText(ci);
    Base64Url.RoundTrip(InfoBytes(ci), []);
    assert a[..2] == PREFIX && a[2..] == e;
  }

  /** The parser's own limit on what it decodes admits every address the encoder writes. */
  lemma AddressFits(ci: ConnInfo)
    requires InfoHeld(ci)
    ensures |AddrText(ci)| >= 2 && Base64Url.DecodedMax(|AddrText(ci)| - 2) <= CBOR_MAX
  {
    hide InfoHeld, InfoBytes, AddrText;
    InfoSize(ci);
    TextSize(ci);
    Base64Url.Lengths(|InfoBytes(ci)|);
    Base64Url.Lengths(|AddrText(ci)| - 2);
  }

  /** Parsing the address of a well-formed structure gives the structure elided, or restored as well. */
  lemma AddressRoundTrip(ci: ConnInfo, restore: bool)
    requires InfoOk(ci)
    ensures ParseText(AddrText(ci), restore) == Ok(if restore then Restore(Elide(ci)) else Elide(ci))
  {
    hide InfoOk, AddrText, ParseText, Elide, Restore;
    RestoreOk(ci);
    AddressParses(ci, restore);
  }

  /** Not everything that is written parses: a port of 65536 is written and refused. */
  lemma PortRefused(restore: bool)
    ensures var ci := NO_INFO.(regions := [Region(0, [], [], [NO_NODE.(stunPort := 0x1_0000)])]);
            InfoHeld(ci) && ParseText(AddrText(ci), restore).Err?
  {
    var n := NO_NODE.(stunPort := 0x1_0000);
    var ci := NO_INFO.(regions := [Region(0, [], [], [n])]);
    assert !InfoOk(Elide(ci)) by {
      assert !NodeOk(Elide(ci).regions[0].nodes[0]);
    }
    hide InfoOk, ParseText, AddrText, Elide;
    AddressParses(ci, restore);
  }

  /** Either reading of an address encodes to the same address again. */
  lemma Reencode(ci: ConnInfo)
    requires InfoOk(ci)
    ensures InfoOk(Elide(ci)) && InfoOk(Restore(Elide(ci)))
    ensures AddrText(Elide(ci)) == AddrText(ci) == AddrText(Restore(Elide(ci)))
  {
    hide InfoOk, AddrText, Elide, Restore;
    RestoreOk(ci);
    RestoreOk(Elide(ci));
    ElideRestore(ci);
    ElideRestore(Elide(ci));
    SameAddress(Elide(ci), ci);
    SameAddress(Restore(Elide(ci)), ci);
  }

  /** Not every address that parses is reproduced: a line feed at the end is accepted and lost. */
  lemma LineFeedLost(ci: ConnInfo, restore: bool)
    requires InfoOk(ci)
    ensures var a := AddrText(ci) + [0x0a];
            && ParseText(a, restore).Ok? && InfoOk(ParseText(a, restore).value)
            && AddrText(ParseText(a, restore).value) == AddrText(ci) != a
  {
    hide InfoOk, InfoBytes, ParseInfo, Restore, Elide, Base64Url.Decode, Base64Url.Encode;
    var a, e := AddrText(ci) + [0x0a], Base64Url.Encode(InfoBytes(ci));
    InfoRoundTrip(ci);
    Reencode(ci);
    Base64Url.RoundTrip(InfoBytes(ci), []);
    LineFeedIgnored(e);
    OneMoreFits(ci);
    hide AddrText, Base64Url.DecodedMax;
    assert a[..2] == PREFIX && a[2..] == e + [0x0a] by {
      PrefixAndText(ci);
    }
  }

  lemma PrefixAndText(ci: ConnInfo)
    requires InfoHeld(ci)
    ensures AddrText(ci) == PREFIX + Base64Url.Encode(InfoBytes(ci))
  {
  }

  lemma OneMoreFits(ci: ConnInfo)
    requires InfoOk(ci)
    ensures Base64Url.DecodedMax(|AddrText(ci)| - 1) <= CBOR_MAX
  {
    hide InfoOk, InfoBytes, AddrText;
    InfoSize(ci);
    TextSize(ci);
    Base64Url.Lengths(|InfoBytes(ci)|);
    Base64Url.Lengths(|AddrText(ci)| - 1);
  }

  lemma LineFeedIgnored(e: bytes)
    ensures Base64Url.Decode(e + [0x0a]) == Base64Url.Decode(e)
  {
    hide Base64Url.Kept, Base64Url.AllSymbols, Base64Url.Values;
    Base64Url.KeptStep(e + [0x0a], |e|);
    assert (e + [0x0a])[..|e| + 1] == e + [0x0a] && (e + [0x0a])[..|e|] == e;
  }
}
