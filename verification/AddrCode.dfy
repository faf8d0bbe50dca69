/** The address parser and encoder, step by step, against the functions of module Addr. */
module AddrCode {
  import opened Words
  import opened Errors
  import opened Cbor
  import opened Addr
  import AddrLaws
  import Utf8
  import Base64Url

  // ---- parsing ----

  /** `read_key` */
  method ReadKey(r: Reader) returns (rc: Result<u8>)
    requires r.Valid()
    modifies r
    ensures r.Valid() && r.pos >= old(r.pos)
    ensures rc.Ok? ==> NextKey(r.buf[old(r.pos)..]) == Ok((rc.value, r.buf[r.pos..]))
    ensures rc.Err? ==> NextKey(r.buf[old(r.pos)..]) == Err(rc.error)
  {
    hide NextItem;
    var it :- r.Read();
    if it.kind != Text {
      return Err(Inval);
    }
    return Ok(if |it.data| == 1 then it.data[0] else 0);
  }

  /** `expect_map` */
  method ExpectMap(r: Reader) returns (rc: Result<u64>)
    requires r.Valid()
    modifies r
    ensures r.Valid() && r.pos >= old(r.pos)
    ensures rc.Ok? ==> NextMap(r.buf[old(r.pos)..]) == Ok((rc.value, r.buf[r.pos..]))
    ensures rc.Err? ==> NextMap(r.buf[old(r.pos)..]) == Err(rc.error)
  {
    hide NextItem;
    var it :- r.Read();
    if it.kind != Map {
      return Err(Inval);
    }
    return Ok(it.val);
  }

  /** The array header of the `N` and `r` fields, with its limit. */
  method ExpectArray(r: Reader, max: nat) returns (rc: Result<u64>)
    requires r.Valid()
    modifies r
    ensures r.Valid() && r.pos >= old(r.pos)
    ensures rc.Ok? ==> NextArray(r.buf[old(r.pos)..], max) == Ok((rc.value, r.buf[r.pos..]))
    ensures rc.Err? ==> NextArray(r.buf[old(r.pos)..], max) == Err(rc.error)
  {
    hide NextItem;
    var it :- r.Read();
    if it.kind != Array {
      return Err(Inval);
    }
    if it.val > max {
      return Err(TooMany);
    }
    return Ok(it.val);
  }

  /** `read_port` */
  method ReadPort(r: Reader) returns (rc: Result<int>)
    requires r.Valid()
    modifies r
    ensures r.Valid() && r.pos >= old(r.pos)
    ensures rc.Ok? ==> NextPort(r.buf[old(r.pos)..]) == Ok((rc.value, r.buf[r.pos..]))
    ensures rc.Err? ==> NextPort(r.buf[old(r.pos)..]) == Err(rc.error)
  {
    hide NextInt;
    var v :- r.ReadInt();
    if v < -1 || v > 65535 {
      return Err(Range);
    }
    return Ok(v);
  }

  /** The switch of `parse_node` on the key it has just read. */
  method ReadNodeField(r: Reader, k: u8, n: Node) returns (rc: Result<Node>)
    requires r.Valid() && |r.buf| < BUFFER_MAX
    modifies r
    ensures r.Valid() && r.pos >= old(r.pos)
    ensures rc.Ok? ==> NodeField(k, r.buf[old(r.pos)..], n) == Ok((rc.value, r.buf[r.pos..]))
    ensures rc.Err? ==> NodeField(k, r.buf[old(r.pos)..], n) == Err(rc.error)
  {
    hide NextText, NextInt, NextPort, NextBool, OneItem;
    if k == 'n' as int {
      var t :- r.ReadField(DNS_NAME_MAX);
      return Ok(n.(name := t));
    } else if k == 'i' as int {
      var v :- r.ReadInt();
      return Ok(n.(regionId := v));
    } else if k == 'h' as int {
      var t :- r.ReadField(DNS_NAME_MAX);
      return Ok(n.(hostname := t));
    } else if k == 't' as int {
      var t :- r.ReadField(DNS_NAME_MAX);
      return Ok(n.(certName := t));
    } else if k == '4' as int {
      var t :- r.ReadField(IP_STR_MAX);
      return Ok(n.(ipv4 := t));
    } else if k == '6' as int {
      var t :- r.ReadField(IP_STR_MAX);
      return Ok(n.(ipv6 := t));
    } else if k == 's' as int {
      var v :- ReadPort(r);
      return Ok(n.(stunPort := v));
    } else if k == 'd' as int {
      var v :- ReadPort(r);
      return Ok(n.(derpPort := v));
    } else if k == 'x' as int {
      var v :- r.ReadBool();
      return Ok(n.(insecure := v));
    } else {
      var _ :- r.Skip();
      return Ok(n);
    }
  }

  /** `parse_node` */
  method ParseNodeFrom(r: Reader) returns (rc: Result<Node>)
    requires r.Valid() && |r.buf| < BUFFER_MAX
    modifies r
    ensures r.Valid() && r.pos >= old(r.pos)
    ensures rc.Ok? ==> ParseNode(r.buf[old(r.pos)..]) == Ok((rc.value, r.buf[r.pos..]))
    ensures rc.Err? ==> ParseNode(r.buf[old(r.pos)..]) == Err(rc.error)
  {
    hide NextMap, NextKey, NodeField;
    ghost var s := r.buf[r.pos..];
    var pairs :- ExpectMap(r);
    var n := NO_NODE;
    var i := 0;
    while i < pairs
      invariant 0 <= i <= pairs && r.Valid() && r.pos >= old(r.pos)
      invariant ParseNode(s) == NodeFields(pairs - i, r.buf[r.pos..], n)
    {
      var k :- ReadKey(r);
      n :- ReadNodeField(r, k, n);
      i := i + 1;
    }
    return Ok(n);
  }

  /** The inner loop of `parse_region` over its nodes. */
  method ParseNodesFrom(r: Reader, count: nat) returns (rc: Result<seq<Node>>)
    requires r.Valid() && |r.buf| < BUFFER_MAX
    modifies r
    ensures r.Valid() && r.pos >= old(r.pos)
    ensures rc.Ok? ==> ParseNodes(count, r.buf[old(r.pos)..]) == Ok((rc.value, r.buf[r.pos..]))
    ensures rc.Err? ==> ParseNodes(count, r.buf[old(r.pos)..]) == Err(rc.error)
  {
    hide ParseNode;
    ghost var s := r.buf[r.pos..];
    var nodes: seq<Node> := [];
    var j := 0;
    while j < count
      invariant 0 <= j <= count && r.Valid() && r.pos >= old(r.pos)
      invariant ParseNodes(j, s) == Ok((nodes, r.buf[r.pos..]))
    {
      if ParseNode(r.buf[r.pos..]).Err? {
        NodesFail(j, count, s);
      }
      var n :- ParseNodeFrom(r);
      nodes := nodes + [n];
      j := j + 1;
    }
    return Ok(nodes);
  }

  lemma {:induction false} NodesFail(j: nat, count: nat, s: bytes)
    requires j < count && ParseNodes(j, s).Ok? && ParseNode(ParseNodes(j, s).value.1).Err?
    ensures ParseNodes(count, s) == Err(ParseNode(ParseNodes(j, s).value.1).error)
  {
    hide ParseNode;
    if j + 1 < count {
      NodesFail(j, count - 1, s);
    }
  }

  /** The switch of `parse_region`. */
  method ReadRegionField(r: Reader, k: u8, reg: Region) returns (rc: Result<Region>)
    requires r.Valid() && |r.buf| < BUFFER_MAX
    modifies r
    ensures r.Valid() && r.pos >= old(r.pos)
    ensures rc.Ok? ==> RegionField(k, r.buf[old(r.pos)..], reg) == Ok((rc.value, r.buf[r.pos..]))
    ensures rc.Err? ==> RegionField(k, r.buf[old(r.pos)..], reg) == Err(rc.error)
  {
    hide NextText, NextInt, NextArray, ParseNodes, OneItem;
    if k == 'i' as int {
      var v :- r.ReadInt();
      return Ok(reg.(regionId := v));
    } else if k == 'c' as int {
      var t :- r.ReadField(REGION_CODE_MAX);
      return Ok(reg.(code := t));
    } else if k == 'm' as int {
      var t :- r.ReadField(REGION_NAME_MAX);
      return Ok(reg.(name := t));
    } else if k == 'N' as int {
      var count :- ExpectArray(r, MAX_NODES);
      var nodes :- ParseNodesFrom(r, count);
      return Ok(reg.(nodes := nodes));
    } else {
      var _ :- r.Skip();
      return Ok(reg);
    }
  }

  /** `parse_region` */
  method ParseRegionFrom(r: Reader) returns (rc: Result<Region>)
    requires r.Valid() && |r.buf| < BUFFER_MAX
    modifies r
    ensures r.Valid() && r.pos >= old(r.pos)
    ensures rc.Ok? ==> ParseRegion(r.buf[old(r.pos)..]) == Ok((rc.value, r.buf[r.pos..]))
    ensures rc.Err? ==> ParseRegion(r.buf[old(r.pos)..]) == Err(rc.error)
  {
    hide NextMap, NextKey, RegionField;
    ghost var s := r.buf[r.pos..];
    var pairs :- ExpectMap(r);
    var reg := NO_REGION;
    var i := 0;
    while i < pairs
      invariant 0 <= i <= pairs && r.Valid() && r.pos >= old(r.pos)
      invariant ParseRegion(s) == RegionFields(pairs - i, r.buf[r.pos..], reg)
    {
      var k :- ReadKey(r);
      reg :- ReadRegionField(r, k, reg);
      i := i + 1;
    }
    return Ok(reg);
  }

  /** The inner loop of `parse_into` over its regions. */
  method ParseRegionsFrom(r: Reader, count: nat) returns (rc: Result<seq<Region>>)
    requires r.Valid() && |r.buf| < BUFFER_MAX
    modifies r
    ensures r.Valid() && r.pos >= old(r.pos)
    ensures rc.Ok? ==> ParseRegions(count, r.buf[old(r.pos)..]) == Ok((rc.value, r.buf[r.pos..]))
    ensures rc.Err? ==> ParseRegions(count, r.buf[old(r.pos)..]) == Err(rc.error)
  {
    hide ParseRegion;
    ghost var s := r.buf[r.pos..];
    var regions: seq<Region> := [];
    var j := 0;
    while j < count
      invariant 0 <= j <= count && r.Valid() && r.pos >= old(r.pos)
      invariant ParseRegions(j, s) == Ok((regions, r.buf[r.pos..]))
    {
      if ParseRegion(r.buf[r.pos..]).Err? {
        RegionsFail(j, count, s);
      }
      var reg :- ParseRegionFrom(r);
      regions := regions + [reg];
      j := j + 1;
    }
    return Ok(regions);
  }

  lemma {:induction false} RegionsFail(j: nat, count: nat, s: bytes)
    requires j < count && ParseRegions(j, s).Ok? && ParseRegion(ParseRegions(j, s).value.1).Err?
    ensures ParseRegions(count, s) == Err(ParseRegion(ParseRegions(j, s).value.1).error)
  {
    hide ParseRegion;
    if j + 1 < count {
      RegionsFail(j, count - 1, s);
    }
  }

  /** The switch of `parse_into`. */
  method ReadInfoField(r: Reader, k: u8, f: Filling) returns (rc: Result<Filling>)
    requires r.Valid() && |r.buf| < BUFFER_MAX
    modifies r
    ensures r.Valid() && r.pos >= old(r.pos)
    ensures rc.Ok? ==> InfoField(k, r.buf[old(r.pos)..], f) == Ok((rc.value, r.buf[r.pos..]))
    ensures rc.Err? ==> InfoField(k, r.buf[old(r.pos)..], f) == Err(rc.error)
  {
    hide NextBytes, NextInt, NextArray, ParseRegions, OneItem;
    if k == 'p' as int {
      var v :- r.ReadBytesExact(KEY_LEN);
      return Ok(Filling(f.ci.(serverPublic := v), true));
    } else if k == 'k' as int {
      var v :- r.ReadBytesExact(KEY_LEN);
      return Ok(Filling(f.ci.(disco := Some(v)), f.saw));
    } else if k == 'q' as int {
      var v :- r.ReadBytesExact(KEY_LEN);
      return Ok(Filling(f.ci.(psk := Some(v)), f.saw));
    } else if k == 'i' as int {
      var v :- r.ReadInt();
      return Ok(Filling(f.ci.(regionId := v), f.saw));
    } else if k == 'r' as int {
      var count :- ExpectArray(r, MAX_REGIONS);
      var regions :- ParseRegionsFrom(r, count);
      return Ok(Filling(f.ci.(regions := regions), f.saw));
    } else {
      var _ :- r.Skip();
      return Ok(f);
    }
  }

  /** The CBOR half of `parse_into`. */
  method ParseCbor(cbor: bytes) returns (rc: Result<ConnInfo>)
    requires |cbor| < BUFFER_MAX
    ensures rc == ParseInfo(cbor)
  {
    hide NextMap, NextKey, InfoField;
    var r := new Reader(cbor);
    var pairs :- ExpectMap(r);
    var f := Filling(NO_INFO, false);
    assert ParseInfo(cbor) == Finished(InfoFields(pairs, r.buf[r.pos..], f));
    var i := 0;
    while i < pairs
      invariant 0 <= i <= pairs && r.Valid() && r.buf == cbor
      invariant ParseInfo(cbor) == Finished(InfoFields(pairs - i, r.buf[r.pos..], f))
    {
      var k :- ReadKey(r);
      f :- ReadInfoField(r, k, f);
      i := i + 1;
    }
    if !f.saw {
      return Err(Inval);
    }
    var left := r.Remaining();
    if left != 0 {
      return Err(Inval);
    }
    return Ok(f.ci);
  }

  /** What is left to check once every pair has been read. */
  function Finished(f: Result<(Filling, bytes)>): Result<ConnInfo> {
    if f.Err? then Err(f.error)
    else if !f.value.0.saw || f.value.1 != [] then Err(Inval)
    else Ok(f.value.0.ci)
  }

  /** `restore_elided` */
  method RestoreElided(ci: ConnInfo) returns (r: ConnInfo)
    ensures r == Restore(ci)
  {
    var regions := ci.regions;
    var ri := 0;
    while ri < |regions|
      invariant 0 <= ri <= |regions| == |ci.regions|
      invariant forall i :: 0 <= i < |regions| ==>
                  regions[i] == if i < ri then RestoreRegion(ci.regions[i], i) else ci.regions[i]
    {
      var reg := regions[ri];
      if reg.regionId == 0 {
        reg := reg.(regionId := ri + 1);
      }
      if reg.code == [] {
        reg := reg.(code := Decimal(reg.regionId));
      }
      var nodes := RestoreNodeList(reg.nodes, reg.regionId);
      regions := regions[ri := reg.(nodes := nodes)];
      ri := ri + 1;
    }
    r := ci.(regions := regions);
    assert r.regions == RestoreRegions(ci.regions);
  }

  /** The inner loop of `restore_elided`. */
  method RestoreNodeList(ns: seq<Node>, region: int) returns (nodes: seq<Node>)
    ensures nodes == RestoreNodes(ns, region)
  {
    nodes := ns;
    var ni := 0;
    while ni < |nodes|
      invariant 0 <= ni <= |nodes| == |ns|
      invariant forall i :: 0 <= i < |nodes| ==>
                  nodes[i] == if i < ni then RestoreNode(ns[i], region) else ns[i]
    {
      var n := nodes[ni];
      if n.name == [] {
        n := n.(name := n.hostname);
      }
      if n.regionId == 0 {
        n := n.(regionId := region);
      }
      nodes := nodes[ni := n];
      ni := ni + 1;
    }
  }

  /** `parse_into`: any text at all, with the error the source gives. */
  method ParseInto(addr: bytes, restore: bool) returns (rc: Result<ConnInfo>)
    ensures rc == ParseText(addr, restore)
  {
    hide ParseInfo, Restore, Base64Url.DecodedMax;
    if |addr| < 2 || addr[..2] != PREFIX {
      return Err(Inval);
    }
    var b64 := addr[2..];
    if Base64Url.DecodedMax(|b64|) > CBOR_MAX {
      return Err(TooMany);
    }
    var buf := new u8[CBOR_MAX];
    var cborLen := Base64Url.DecodeInto(buf, b64);
    DecodedText(buf[..], b64, cborLen);
    hide Base64Url.Decode;
    if cborLen.Err? {
      return Err(cborLen.error);
    }
    var ci :- ParseCbor(buf[..cborLen.value]);
    if restore {
      ci := RestoreElided(ci);
    }
    return Ok(ci);
  }

  /** In a buffer of DecodedMax bytes the decoder's only error is bad text. */
  lemma DecodedText(buf: bytes, s: bytes, rc: Result<nat>)
    requires Base64Url.DecodedMax(|s|) <= |buf|
    requires rc.Ok? <==> Base64Url.AllSymbols(Base64Url.Kept(s)) && |Base64Url.Kept(s)| % 4 != 1
                         && 6 * |Base64Url.Kept(s)| / 8 <= |buf|
    requires rc.Ok? ==> rc.value == 6 * |Base64Url.Kept(s)| / 8 <= |buf|
                        && Base64Url.IsDecoding(buf[..rc.value], Base64Url.Values(Base64Url.Kept(s)))
    requires rc == Err(NoSpace) ==> 6 * |Base64Url.Kept(s)| / 8 > |buf|
    requires rc.Err? ==> rc.error in {Inval, NoSpace}
    ensures rc.Ok? ==> Base64Url.Decode(s) == Ok(buf[..rc.value])
    ensures rc.Err? ==> Base64Url.Decode(s) == Err(rc.error)
  {
    hide Base64Url.Kept, Base64Url.AllSymbols, Base64Url.Values, Base64Url.IsDecoding;
    Base64Url.KeptLen(s);
    Base64Url.Lengths(|s|);
    if rc.Ok? {
      Base64Url.DecodeIsDecoding(s, buf[..rc.value]);
    }
  }

  // ---- encoding ----

  /** `write_text_field` */
  method WriteTextField(w: Writer, key: u8, s: bytes)
    requires w.Valid() && |s| < DNS_NAME_MAX
    modifies w, w.buf
    ensures w.Valid() && w.wanted == old(w.wanted) + TextField(key, s)
  {
    hide StringBytes;
    if s == [] {
      return;
    }
    w.WriteString(3, [key]);
    w.WriteString(3, s);
  }

  method WriteIntField(w: Writer, key: u8, v: int)
    requires w.Valid() && Int64(v)
    modifies w, w.buf
    ensures w.Valid() && w.wanted == old(w.wanted) + IntField(key, v)
  {
    hide StringBytes, IntBytes;
    if v != 0 {
      w.WriteString(3, [key]);
      w.WriteInt(v);
    }
  }

  method WriteKeyField(w: Writer, key: u8, v: Option<bytes>)
    requires w.Valid() && KeyOk(v)
    modifies w, w.buf
    ensures w.Valid() && w.wanted == old(w.wanted) + KeyField(key, v)
  {
    hide StringBytes;
    if v.Some? {
      w.WriteString(3, [key]);
      w.WriteString(2, v.value);
    }
  }

  /** `node_pair_count` */
  method NodePairCount(n: Node, name: bytes) returns (c: nat)
    requires NodeHeld(n) && name == ElideNode(n).name
    ensures c == Present(NodeFieldBytes(n)) <= 8
  {
    CountEight(n, name);
    hide NodeHeld, NodeFieldBytes, Present, ElideNode;
    c := 0;
    if name != [] {
      c := c + 1;
    }
    if n.hostname != [] {
      c := c + 1;
    }
    assert c == One(name != []) + One(n.hostname != []);
    if n.certName != [] {
      c := c + 1;
    }
    ghost var c3 := c;
    if n.ipv4 != [] {
      c := c + 1;
    }
    if n.ipv6 != [] {
      c := c + 1;
    }
    assert c == c3 + One(n.ipv4 != []) + One(n.ipv6 != []);
    ghost var c5 := c;
    if n.stunPort != 0 {
      c := c + 1;
    }
    if n.derpPort != 0 {
      c := c + 1;
    }
    assert c == c5 + One(n.stunPort != 0) + One(n.derpPort != 0);
    hide One;
    if n.insecure {
      c := c + 1;
    }
  }

  function One(b: bool): nat {
    if b then 1 else 0
  }

  lemma CountEight(n: Node, name: bytes)
    requires NodeHeld(n) && name == ElideNode(n).name
    ensures Present(NodeFieldBytes(n))
         == One(name != []) + One(n.hostname != []) + One(n.certName != []) + One(n.ipv4 != []) + One(n.ipv6 != [])
            + One(n.stunPort != 0) + One(n.derpPort != 0) + One(n.insecure)
  {
    hide Utf8.WellFormed, TextField, IntField, BoolField, Present;
    TextPresence('n' as int, name);
    TextPresence('h' as int, n.hostname);
    TextPresence('t' as int, n.certName);
    TextPresence('4' as int, n.ipv4);
    TextPresence('6' as int, n.ipv6);
    IntPresence('s' as int, n.stunPort);
    IntPresence('d' as int, n.derpPort);
    BoolPresence('x' as int, n.insecure);
    var fs := NodeFieldBytes(n);
    FourFields(fs, 0);
    FourFields(fs, 4);
    assert fs[0..] == fs && fs[8..] == [];
    NoneLeft();
  }

  lemma TextPresence(k: u8, t: bytes)
    requires |t| < DNS_NAME_MAX
    ensures TextField(k, t) == [] <==> t == []
  {
    AddrLaws.KeySize(k);
  }

  lemma IntPresence(k: u8, v: int)
    requires Int64(v)
    ensures IntField(k, v) == [] <==> v == 0
  {
    AddrLaws.KeySize(k);
  }

  lemma BoolPresence(k: u8, v: bool)
    ensures BoolField(k, v) == [] <==> !v
  {
    AddrLaws.KeySize(k);
  }

  lemma FourFields(fs: seq<bytes>, i: nat)
    requires i + 4 <= |fs|
    ensures Present(fs[i..]) == One(fs[i] != []) + One(fs[i + 1] != []) + One(fs[i + 2] != []) + One(fs[i + 3] != [])
                                + Present(fs[i + 4..])
  {
    hide Present;
    AddrLaws.JoinSplit(fs, i, []);
    AddrLaws.JoinSplit(fs, i + 1, []);
    AddrLaws.JoinSplit(fs, i + 2, []);
    AddrLaws.JoinSplit(fs, i + 3, []);
  }

  lemma NoneLeft()
    ensures Present([]) == 0 && Join([]) == []
  {
  }

  /** One more field after the first i. */
  lemma Grow(w: bytes, fs: seq<bytes>, i: nat)
    requires i < |fs|
    ensures (w + Join(fs[..i])) + fs[i] == w + Join(fs[..i + 1])
  {
    AddrLaws.JoinAppend(fs[..i], fs[i]);
    assert fs[..i] + [fs[i]] == fs[..i + 1];
  }

  /** `encode_node` */
  method EncodeNode(w: Writer, n: Node)
    requires w.Valid() && NodeHeld(n)
    modifies w, w.buf
    ensures w.Valid() && w.wanted == old(w.wanted) + NodeBytes(n)
  {
    var name := if n.hostname != [] then [] else n.name;
    var count := NodePairCount(n, name);
    hide NodeHeld, HeadBytes, Join, Present, NodeFieldBytes, Writer.Valid;
    ghost var fs := NodeFieldBytes(n);
    ghost var w0 := w.wanted;
    w.WriteHead(5, count);
    EncodeNodeTexts(w, n, name);
    EncodeNodeRest(w, n);
    AddrLaws.JoinParts(fs, 5);
    Regroup(w0, HeadBytes(5, count), Join(fs[..5]), Join(fs[5..]));
  }

  lemma Regroup(w: bytes, h: bytes, a: bytes, b: bytes)
    ensures ((w + h) + a) + b == w + (h + (a + b))
  {
  }

  lemma FieldsInOrder(n: Node)
    requires NodeHeld(n)
    ensures var fs := NodeFieldBytes(n);
            && fs[0] == TextField('n' as int, ElideNode(n).name) && fs[1] == TextField('h' as int, n.hostname)
            && fs[2] == TextField('t' as int, n.certName) && fs[3] == TextField('4' as int, n.ipv4)
            && fs[4] == TextField('6' as int, n.ipv6) && fs[5] == IntField('s' as int, n.stunPort)
            && fs[6] == IntField('d' as int, n.derpPort) && fs[7] == BoolField('x' as int, n.insecure)
  {
    hide Utf8.WellFormed, TextField, IntField, BoolField;
  }

  /** The text fields of a node. */
  method EncodeNodeTexts(w: Writer, n: Node, name: bytes)
    requires w.Valid() && NodeHeld(n) && name == ElideNode(n).name
    modifies w, w.buf
    ensures w.Valid() && w.wanted == old(w.wanted) + Join(NodeFieldBytes(n)[..5])
  {
    hide Utf8.WellFormed, Join, TextField, IntField, BoolField, NodeFieldBytes, Writer.Valid;
    ghost var fs, w0 := NodeFieldBytes(n), w.wanted;
    FieldsInOrder(n);
    NoneLeft();
    assert fs[..0] == [] && w.wanted == w0 + Join(fs[..0]);
    WriteTextField(w, 'n' as int, name);
    Grow(w0, fs, 0);
    assert w.wanted == w0 + Join(fs[..1]);
    WriteTextField(w, 'h' as int, n.hostname);
    Grow(w0, fs, 1);
    assert w.wanted == w0 + Join(fs[..2]);
    WriteTextField(w, 't' as int, n.certName);
    Grow(w0, fs, 2);
    assert w.wanted == w0 + Join(fs[..3]);
    WriteTextField(w, '4' as int, n.ipv4);
    Grow(w0, fs, 3);
    assert w.wanted == w0 + Join(fs[..4]);
    WriteTextField(w, '6' as int, n.ipv6);
    Grow(w0, fs, 4);
  }

  /** The ports and the flag of a node. */
  method EncodeNodeRest(w: Writer, n: Node)
    requires w.Valid() && NodeHeld(n)
    modifies w, w.buf
    ensures w.Valid() && w.wanted == old(w.wanted) + Join(NodeFieldBytes(n)[5..])
  {
    hide Utf8.WellFormed, Join, TextField, IntField, BoolField, NodeFieldBytes, Writer.Valid;
    FieldsInOrder(n);
    ghost var fs, w0 := NodeFieldBytes(n)[5..], w.wanted;
    NoneLeft();
    assert fs[..0] == [] && w.wanted == w0 + Join(fs[..0]);
    WriteIntField(w, 's' as int, n.stunPort);
    Grow(w0, fs, 0);
    assert w.wanted == w0 + Join(fs[..1]);
    WriteIntField(w, 'd' as int, n.derpPort);
    Grow(w0, fs, 1);
    assert w.wanted == w0 + Join(fs[..2]);
    WriteBoolField(w, 'x' as int, n.insecure);
    Grow(w0, fs, 2);
    assert fs[..3] == fs;
  }

  method WriteBoolField(w: Writer, key: u8, v: bool)
    requires w.Valid()
    modifies w, w.buf
    ensures w.Valid() && w.wanted == old(w.wanted) + BoolField(key, v)
  {
    hide StringBytes, HeadBytes;
    if v {
      w.WriteString(3, [key]);
      w.WriteBool(true);
    }
  }

  /** `encode_region` */
  method EncodeRegion(w: Writer, reg: Region)
    requires w.Valid() && RegionHeld(reg)
    modifies w, w.buf
    ensures w.Valid() && w.wanted == old(w.wanted) + RegionBytes(reg)
  {
    hide CString, HeadBytes, StringBytes, NodeHeld, NodeBytes;
    var pairs := if |reg.nodes| != 0 then 1 else 0;
    ghost var start := w.wanted;
    AddrLaws.OneField(NodesField(reg.nodes));
    AddrLaws.KeySize('N' as int);
    w.WriteHead(5, pairs);
    if |reg.nodes| != 0 {
      w.WriteString(3, ['N' as int]);
      w.WriteHead(4, |reg.nodes|);
      EncodeNodes(w, reg.nodes);
    }
  }

  method EncodeNodes(w: Writer, ns: seq<Node>)
    requires w.Valid() && NodesHeld(ns)
    modifies w, w.buf
    ensures w.Valid() && w.wanted == old(w.wanted) + NodesBytes(ns)
  {
    hide NodeHeld, NodeBytes, Join;
    ghost var bs := seq(|ns|, i requires 0 <= i < |ns| => NodeBytes(ns[i]));
    ghost var w0 := w.wanted;
    NoneLeft();
    assert bs[..0] == [];
    var i := 0;
    while i < |ns|
      invariant 0 <= i <= |ns| && w.Valid() && w.wanted == w0 + Join(bs[..i])
    {
      EncodeNode(w, ns[i]);
      Grow(w0, bs, i);
      i := i + 1;
    }
    assert bs[..i] == bs;
  }

  method EncodeRegions(w: Writer, rs: seq<Region>)
    requires w.Valid() && RegionsHeld(rs)
    modifies w, w.buf
    ensures w.Valid()
    ensures w.wanted == old(w.wanted) + Join(seq(|rs|, i requires 0 <= i < |rs| => RegionBytes(rs[i])))
  {
    hide RegionHeld, RegionBytes, Join;
    ghost var bs := seq(|rs|, i requires 0 <= i < |rs| => RegionBytes(rs[i]));
    ghost var w0 := w.wanted;
    NoneLeft();
    assert bs[..0] == [];
    var i := 0;
    while i < |rs|
      invariant 0 <= i <= |rs| && w.Valid() && w.wanted == w0 + Join(bs[..i])
    {
      EncodeRegion(w, rs[i]);
      Grow(w0, bs, i);
      i := i + 1;
    }
    assert bs[..i] == bs;
  }

  method WriteRegionsField(w: Writer, rs: seq<Region>)
    requires w.Valid() && |rs| <= MAX_REGIONS && RegionsHeld(rs)
    modifies w, w.buf
    ensures w.Valid() && w.wanted == old(w.wanted) + RegionsField(rs)
  {
    hide RegionHeld, RegionBytes, Join, HeadBytes, StringBytes, Writer.Valid;
    if |rs| != 0 {
      w.WriteString(3, ['r' as int]);
      w.WriteHead(4, |rs|);
      EncodeRegions(w, rs);
    }
  }

  lemma InfoInOrder(ci: ConnInfo)
    requires InfoHeld(ci)
    ensures var fs := InfoFieldBytes(ci);
            && fs[0] == KeyField('p' as int, Some(ci.serverPublic)) && fs[1] == KeyField('k' as int, ci.disco)
            && fs[2] == KeyField('q' as int, ci.psk) && fs[3] == RegionsField(ci.regions)
            && fs[4] == IntField('i' as int, ci.regionId)
    ensures Present(InfoFieldBytes(ci))
         == 1 + One(ci.disco.Some?) + One(ci.psk.Some?) + One(ci.regions != []) + One(ci.regionId != 0)
  {
    var fs := InfoFieldBytes(ci);
    AddrLaws.KeySize('p' as int);
    AddrLaws.KeySize('k' as int);
    AddrLaws.KeySize('q' as int);
    AddrLaws.KeySize('r' as int);
    IntPresence('i' as int, ci.regionId);
    hide RegionsHeld, Key, StringBytes, HeadBytes, IntField, Join;
    FourFields(fs, 0);
    AddrLaws.JoinSplit(fs, 4, []);
    assert fs[0..] == fs && fs[5..] == [];
  }

  /** The pairs `tc_addr_encode` announces. */
  method InfoPairCount(ci: ConnInfo) returns (pairs: nat)
    requires InfoHeld(ci)
    ensures pairs == Present(InfoFieldBytes(ci)) <= 5
  {
    InfoInOrder(ci);
    hide InfoHeld, Present, InfoFieldBytes;
    pairs := 1;
    if ci.disco.Some? {
      pairs := pairs + 1;
    }
    if ci.psk.Some? {
      pairs := pairs + 1;
    }
    if |ci.regions| != 0 {
      pairs := pairs + 1;
    }
    if ci.regionId != 0 {
      pairs := pairs + 1;
    }
  }

  /** The body of `tc_addr_encode` up to the finished CBOR. */
  method EncodeInfo(w: Writer, ci: ConnInfo)
    requires w.Valid() && InfoHeld(ci) && w.wanted == []
    modifies w, w.buf
    ensures w.Valid() && w.wanted == InfoBytes(ci)
  {
    hide RegionsHeld, Join, Present, KeyField, RegionsField, IntField, HeadBytes, InfoFieldBytes, Writer.Valid;
    var pairs := InfoPairCount(ci);
    InfoInOrder(ci);
    ghost var fs := InfoFieldBytes(ci);
    w.WriteHead(5, pairs);
    ghost var w0 := w.wanted;
    NoneLeft();
    assert fs[..0] == [] && w.wanted == w0 + Join(fs[..0]);
    WriteKeyField(w, 'p' as int, Some(ci.serverPublic));
    Grow(w0, fs, 0);
    assert w.wanted == w0 + Join(fs[..1]);
    WriteKeyField(w, 'k' as int, ci.disco);
    Grow(w0, fs, 1);
    assert w.wanted == w0 + Join(fs[..2]);
    WriteKeyField(w, 'q' as int, ci.psk);
    Grow(w0, fs, 2);
    assert w.wanted == w0 + Join(fs[..3]);
    WriteRegionsField(w, ci.regions);
    Grow(w0, fs, 3);
    assert w.wanted == w0 + Join(fs[..4]);
    WriteIntField(w, 'i' as int, ci.regionId);
    Grow(w0, fs, 4);
    assert fs[..5] == fs;
    assert w0 == [] + HeadBytes(5, pairs) == HeadBytes(5, pairs);
  }

  /**
   * `tc_addr_encode`. More than two regions are refused; every other structure that its C struct can hold is
   * written whenever the caller's buffer holds the text and its NUL.
   */
  method AddrEncode(out: array<u8>, ci: ConnInfo) returns (rc: Result<nat>)
    requires |ci.regions| <= MAX_REGIONS ==> InfoHeld(ci)
    modifies out
    ensures |ci.regions| > MAX_REGIONS ==> rc == Err(TooMany)
    ensures InfoHeld(ci) ==>
              rc == if out.Length < |AddrText(ci)| + 1 then Err(NoSpace) else Ok(|AddrText(ci)|)
    ensures rc.Ok? ==> InfoHeld(ci) && out[..rc.value] == AddrText(ci) && out[rc.value] == 0
  {
    if |ci.regions| > MAX_REGIONS {
      return Err(TooMany);
    }
    hide InfoHeld, InfoBytes;
    var cbor := new u8[CBOR_MAX];
    var w := new Writer(cbor);
    EncodeInfo(w, ci);
    var cborLen := w.Finish();
    if cborLen.Err? {
      // Cannot happen: whatever the structure holds fits the scratch buffer.
      AddrLaws.InfoSize(ci);
      assert false;
    }
    AddrLaws.TextSize(ci);
    var need := 2 + Base64Url.EncodedLen(cborLen.value);
    if out.Length < need + 1 {
      return Err(NoSpace);
    }
    var text := cbor[..cborLen.value];
    hide AddrText, Base64Url.EncodedLen, Base64Url.Encode, Writer.Valid;
    AddrLaws.PrefixAndText(ci);
    PutText(out, text);
    return Ok(need);
  }

  /** Prefix, base64url and NUL into the caller's buffer. */
  method PutText(out: array<u8>, cbor: bytes)
    requires out.Length >= 3 + Base64Url.EncodedLen(|cbor|)
    modifies out
    ensures var n := 2 + Base64Url.EncodedLen(|cbor|);
            out[..n] == PREFIX + Base64Url.Encode(cbor) && out[n] == 0
  {
    hide Base64Url.EncodedLen, Base64Url.Encode;
    var b64 := new u8[out.Length - 2];
    var written := Base64Url.EncodeInto(b64, cbor);
    var n := written.value;
    out[0], out[1] := 't' as int, 'c' as int;
    forall i | 0 <= i <= n {
      out[2 + i] := b64[i];
    }
    assert out[..2] == PREFIX && out[2..2 + n] == b64[..n];
    assert out[..2 + n] == out[..2] + out[2..2 + n];
  }
}
