/** Tailcat addresses as values: what is elided, what is restored, and the two directions of the codec. */
module Addr {
  import opened Words
  import opened Errors
  import opened Cbor
  import opened Numerals
  import Base64Url

  const MAX_REGIONS: nat := 2
  const MAX_NODES: nat := 8
  const DNS_NAME_MAX: nat := 256
  const REGION_CODE_MAX: nat := 64
  const REGION_NAME_MAX: nat := 64
  const IP_STR_MAX: nat := 46
  const KEY_LEN: nat := 32
  const CBOR_MAX: nat := 16384
  const STR_MAX: nat := 24576

  datatype Node = Node(name: bytes, hostname: bytes, certName: bytes, ipv4: bytes, ipv6: bytes,
                       regionId: int, stunPort: int, derpPort: int, insecure: bool)

  datatype Region = Region(regionId: int, code: bytes, name: bytes, nodes: seq<Node>)

  datatype ConnInfo = ConnInfo(serverPublic: bytes, disco: Option<bytes>, psk: Option<bytes>,
                               regions: seq<Region>, regionId: int)

  const NO_NODE := Node([], [], [], [], [], 0, 0, 0, false)
  const NO_REGION := Region(0, [], [], [])
  const NO_INFO := ConnInfo(Zeros(KEY_LEN), None, None, [], 0)

  // ---- well-formed structures ----

  predicate Port(v: int) {
    -1 <= v <= 65535
  }

  /** What a buffer of cap bytes can hold, in whatever encoding. */
  predicate Held(t: bytes, cap: nat) {
    |t| < cap && 0 !in t
  }

  predicate Int32(v: int) {
    -0x8000_0000 <= v < 0x8000_0000
  }

  predicate NodeHeld(n: Node) {
    && Held(n.name, DNS_NAME_MAX) && Held(n.hostname, DNS_NAME_MAX) && Held(n.certName, DNS_NAME_MAX)
    && Held(n.ipv4, IP_STR_MAX) && Held(n.ipv6, IP_STR_MAX)
    && Int64(n.regionId) && Int32(n.stunPort) && Int32(n.derpPort)
  }

  predicate NodesHeld(ns: seq<Node>) {
    forall i :: 0 <= i < |ns| ==> NodeHeld(ns[i])
  }

  predicate RegionHeld(r: Region) {
    && Int64(r.regionId) && Held(r.code, REGION_CODE_MAX) && Held(r.name, REGION_NAME_MAX)
    && |r.nodes| <= MAX_NODES && NodesHeld(r.nodes)
  }

  predicate RegionsHeld(rs: seq<Region>) {
    forall i :: 0 <= i < |rs| ==> RegionHeld(rs[i])
  }

  /** Any value of the C structure with its counts in range: text in any encoding, ports of 32 bits. */
  predicate InfoHeld(ci: ConnInfo) {
    && |ci.serverPublic| == KEY_LEN && KeyOk(ci.disco) && KeyOk(ci.psk) && Int64(ci.regionId)
    && |ci.regions| <= MAX_REGIONS && RegionsHeld(ci.regions)
  }

  /** Text is UTF-8 and ports are ports. */
  predicate NodeOk(n: Node)
    ensures NodeOk(n) ==> NodeHeld(n)
  {
    && CString(n.name, DNS_NAME_MAX) && CString(n.hostname, DNS_NAME_MAX) && CString(n.certName, DNS_NAME_MAX)
    && CString(n.ipv4, IP_STR_MAX) && CString(n.ipv6, IP_STR_MAX)
    && Int64(n.regionId) && Port(n.stunPort) && Port(n.derpPort)
  }

  predicate NodesOk(ns: seq<Node>)
    ensures NodesOk(ns) ==> NodesHeld(ns)
  {
    forall i :: 0 <= i < |ns| ==> NodeOk(ns[i])
  }

  predicate RegionOk(r: Region)
    ensures RegionOk(r) ==> RegionHeld(r)
  {
    && Int64(r.regionId) && CString(r.code, REGION_CODE_MAX) && CString(r.name, REGION_NAME_MAX)
    && |r.nodes| <= MAX_NODES && NodesOk(r.nodes)
  }

  predicate KeyOk(k: Option<bytes>) {
    k.Some? ==> |k.value| == KEY_LEN
  }

  predicate RegionsOk(rs: seq<Region>)
    ensures RegionsOk(rs) ==> RegionsHeld(rs)
  {
    forall i :: 0 <= i < |rs| ==> RegionOk(rs[i])
  }

  predicate InfoOk(ci: ConnInfo)
    ensures InfoOk(ci) ==> InfoHeld(ci)
  {
    && |ci.serverPublic| == KEY_LEN && KeyOk(ci.disco) && KeyOk(ci.psk) && Int64(ci.regionId)
    && |ci.regions| <= MAX_REGIONS && RegionsOk(ci.regions)
  }

  // ---- elision and restoration ----

  function ElideNode(n: Node): Node {
    n.(name := if n.hostname != [] then [] else n.name, regionId := 0)
  }

  function ElideNodes(ns: seq<Node>): seq<Node> {
    seq(|ns|, i requires 0 <= i < |ns| => ElideNode(ns[i]))
  }

  function ElideRegion(r: Region): Region {
    Region(0, [], [], ElideNodes(r.nodes))
  }

  function ElideRegions(rs: seq<Region>): seq<Region> {
    seq(|rs|, i requires 0 <= i < |rs| => ElideRegion(rs[i]))
  }

  /** What an address keeps of a structure. */
  function Elide(ci: ConnInfo): ConnInfo {
    ci.(regions := ElideRegions(ci.regions))
  }

  /** `%lld` */
  function Decimal(v: int): bytes {
    if v < 0 then [0x2d] + Digits(-v) else Digits(v)
  }

  function RestoreNode(n: Node, region: int): Node {
    n.(name := if n.name == [] then n.hostname else n.name,
       regionId := if n.regionId == 0 then region else n.regionId)
  }

  function RestoreNodes(ns: seq<Node>, region: int): seq<Node> {
    seq(|ns|, i requires 0 <= i < |ns| => RestoreNode(ns[i], region))
  }

  function RestoreRegion(r: Region, ri: nat): Region {
    var id := if r.regionId == 0 then ri + 1 else r.regionId;
    Region(id, if r.code == [] then Decimal(id) else r.code, r.name, RestoreNodes(r.nodes, id))
  }

  function RestoreRegions(rs: seq<Region>): seq<Region> {
    seq(|rs|, i requires 0 <= i < |rs| => RestoreRegion(rs[i], i))
  }

  function Restore(ci: ConnInfo): ConnInfo {
    ci.(regions := RestoreRegions(ci.regions))
  }

  /** Restoring invents nothing that eliding would keep, and eliding twice is eliding once. */
  lemma ElideRestore(ci: ConnInfo)
    ensures Elide(Restore(ci)) == Elide(ci) == Elide(Elide(ci))
  {
    forall i | 0 <= i < |ci.regions|
      ensures ElideRegion(Restore(ci).regions[i]) == Elide(ci).regions[i] == ElideRegion(Elide(ci).regions[i])
    {
      var r := ci.regions[i];
      var ns, id := r.nodes, if r.regionId == 0 then i + 1 else r.regionId;
      assert ElideNodes(RestoreNodes(ns, id)) == ElideNodes(ns);
      assert ElideNodes(ElideNodes(ns)) == ElideNodes(ns);
    }
    assert ElideRegions(Restore(ci).regions) == ElideRegions(ci.regions);
    assert ElideRegions(Elide(ci).regions) == Elide(ci).regions;
  }

  // ---- encoding ----

  function Join(fs: seq<bytes>): bytes {
    if fs == [] then [] else fs[0] + Join(fs[1..])
  }

  /** Fields that are written at all. */
  function Present(fs: seq<bytes>): nat {
    if fs == [] then 0 else (if fs[0] == [] then 0 else 1) + Present(fs[1..])
  }

  function Key(k: u8): bytes {
    StringBytes(3, [k])
  }

  function TextField(k: u8, t: bytes): bytes
    requires |t| < DNS_NAME_MAX
  {
    if t == [] then [] else Key(k) + StringBytes(3, t)
  }

  function IntField(k: u8, v: int): bytes
    requires Int64(v)
  {
    if v == 0 then [] else Key(k) + IntBytes(v)
  }

  function BoolField(k: u8, v: bool): bytes {
    if v then Key(k) + HeadBytes(7, TRUE) else []
  }

  function KeyField(k: u8, v: Option<bytes>): bytes
    requires KeyOk(v)
  {
    if v.Some? then Key(k) + StringBytes(2, v.value) else []
  }

  /** A node's fields in the order they are written; an absent field is empty. */
  function NodeFieldBytes(n: Node): (fs: seq<bytes>)
    requires NodeHeld(n)
    ensures |fs| == 8
  {
    [TextField(0x6e, ElideNode(n).name), TextField(0x68, n.hostname), TextField(0x74, n.certName),
     TextField(0x34, n.ipv4), TextField(0x36, n.ipv6),
     IntField(0x73, n.stunPort), IntField(0x64, n.derpPort), BoolField(0x78, n.insecure)]
  }

  function MapBytes(fs: seq<bytes>): bytes
    requires Present(fs) < 0x1_0000_0000_0000_0000
  {
    HeadBytes(5, Present(fs)) + Join(fs)
  }

  lemma {:induction false} PresentBound(fs: seq<bytes>)
    ensures Present(fs) <= |fs|
  {
    if fs != [] {
      PresentBound(fs[1..]);
    }
  }

  function NodeBytes(n: Node): bytes
    requires NodeHeld(n)
  {
    PresentBound(NodeFieldBytes(n));
    MapBytes(NodeFieldBytes(n))
  }

  function NodesBytes(ns: seq<Node>): bytes
    requires NodesHeld(ns)
  {
    Join(seq(|ns|, i requires 0 <= i < |ns| => NodeBytes(ns[i])))
  }

  function NodesField(ns: seq<Node>): bytes
    requires |ns| <= MAX_NODES && NodesHeld(ns)
  {
    if ns == [] then [] else Key(0x4e) + HeadBytes(4, |ns|) + NodesBytes(ns)
  }

  function RegionBytes(r: Region): bytes
    requires RegionHeld(r)
  {
    PresentBound([NodesField(r.nodes)]);
    MapBytes([NodesField(r.nodes)])
  }

  function RegionsField(rs: seq<Region>): bytes
    requires |rs| <= MAX_REGIONS && RegionsHeld(rs)
  {
    if rs == [] then []
    else Key(0x72) + HeadBytes(4, |rs|) + Join(seq(|rs|, i requires 0 <= i < |rs| => RegionBytes(rs[i])))
  }

  function InfoFieldBytes(ci: ConnInfo): (fs: seq<bytes>)
    requires InfoHeld(ci)
    ensures |fs| == 5
  {
    [KeyField(0x70, Some(ci.serverPublic)), KeyField(0x6b, ci.disco), KeyField(0x71, ci.psk),
     RegionsField(ci.regions), IntField(0x69, ci.regionId)]
  }

  function InfoBytes(ci: ConnInfo): bytes
    requires InfoHeld(ci)
  {
    PresentBound(InfoFieldBytes(ci));
    MapBytes(InfoFieldBytes(ci))
  }

  const PREFIX: bytes := [0x74, 0x63]

  /** The address of a structure. */
  function AddrText(ci: ConnInfo): bytes
    requires InfoHeld(ci)
  {
    PREFIX + Base64Url.Encode(InfoBytes(ci))
  }

  // ---- parsing ----

  function NextKey(s: bytes): (r: Result<(u8, bytes)>)
    ensures r.Ok? ==> |r.value.1| < |s|
  {
    var (it, rest) :- NextItem(s);
    if it.kind != Text then Err(Inval)
    else Ok((if |it.data| == 1 then it.data[0] else 0, rest))
  }

  function NextMap(s: bytes): (r: Result<(u64, bytes)>)
    ensures r.Ok? ==> |r.value.1| < |s|
  {
    var (it, rest) :- NextItem(s);
    if it.kind != Map then Err(Inval) else Ok((it.val, rest))
  }

  function NextArray(s: bytes, max: nat): (r: Result<(u64, bytes)>)
    ensures r.Ok? ==> |r.value.1| < |s| && r.value.0 <= max
  {
    var (it, rest) :- NextItem(s);
    if it.kind != Array then Err(Inval)
    else if it.val > max then Err(TooMany)
    else Ok((it.val, rest))
  }

  function NextPort(s: bytes): (r: Result<(int, bytes)>)
    ensures r.Ok? ==> |r.value.1| < |s| && Port(r.value.0)
  {
    var (v, rest) :- NextInt(s);
    if !Port(v) then Err(Range) else Ok((v, rest))
  }

  /** Capacity of a node's text field; 0 for keys that do not name one. */
  function TextCap(k: u8): nat {
    if k == 0x6e || k == 0x68 || k == 0x74 then DNS_NAME_MAX
    else if k == 0x34 || k == 0x36 then IP_STR_MAX
    else 0
  }

  function SetText(n: Node, k: u8, t: bytes): Node {
    if k == 0x6e then n.(name := t)
    else if k == 0x68 then n.(hostname := t)
    else if k == 0x74 then n.(certName := t)
    else if k == 0x34 then n.(ipv4 := t)
    else n.(ipv6 := t)
  }

  /** The value for key k at the front of s, stored in n. */
  function NodeField(k: u8, s: bytes, n: Node): (r: Result<(Node, bytes)>)
    ensures r.Ok? ==> |r.value.1| < |s|
  {
    if TextCap(k) > 0 then
      var (t, rest) :- NextText(s, TextCap(k));
      Ok((SetText(n, k, t), rest))
    else if k == 0x69 then
      var (v, rest) :- NextInt(s);
      Ok((n.(regionId := v), rest))
    else if k == 0x73 then
      var (v, rest) :- NextPort(s);
      Ok((n.(stunPort := v), rest))
    else if k == 0x64 then
      var (v, rest) :- NextPort(s);
      Ok((n.(derpPort := v), rest))
    else if k == 0x78 then
      var (v, rest) :- NextBool(s);
      Ok((n.(insecure := v), rest))
    else
      var rest :- OneItem(s);
      Ok((n, rest))
  }

  function NodeEntry(s: bytes, n: Node): Result<(Node, bytes)> {
    var key :- NextKey(s);
    NodeField(key.0, key.1, n)
  }

  /** Key and value pairs in a row; a later pair overrides an earlier one. */
  function NodeFields(pairs: nat, s: bytes, n: Node): (r: Result<(Node, bytes)>)
    decreases pairs
  {
    if pairs == 0 then Ok((n, s))
    else
      var next :- NodeEntry(s, n);
      NodeFields(pairs - 1, next.1, next.0)
  }

  function ParseNode(s: bytes): Result<(Node, bytes)> {
    var (pairs, rest) :- NextMap(s);
    NodeFields(pairs, rest, NO_NODE)
  }

  function ParseNodes(k: nat, s: bytes): (r: Result<(seq<Node>, bytes)>)
    ensures r.Ok? ==> |r.value.0| == k
  {
    if k == 0 then Ok(([], s))
    else
      var front :- ParseNodes(k - 1, s);
      var last :- ParseNode(front.1);
      Ok((front.0 + [last.0], last.1))
  }

  function RegionField(k: u8, s: bytes, reg: Region): Result<(Region, bytes)> {
    if k == 0x69 then
      var (v, rest) :- NextInt(s);
      Ok((reg.(regionId := v), rest))
    else if k == 0x63 then
      var (t, rest) :- NextText(s, REGION_CODE_MAX);
      Ok((reg.(code := t), rest))
    else if k == 0x6d then
      var (t, rest) :- NextText(s, REGION_NAME_MAX);
      Ok((reg.(name := t), rest))
    else if k == 0x4e then
      var count :- NextArray(s, MAX_NODES);
      var ns :- ParseNodes(count.0, count.1);
      Ok((reg.(nodes := ns.0), ns.1))
    else
      var rest :- OneItem(s);
      Ok((reg, rest))
  }

  function RegionEntry(s: bytes, reg: Region): Result<(Region, bytes)> {
    var key :- NextKey(s);
    RegionField(key.0, key.1, reg)
  }

  function RegionFields(pairs: nat, s: bytes, reg: Region): Result<(Region, bytes)>
    decreases pairs
  {
    if pairs == 0 then Ok((reg, s))
    else
      var next :- RegionEntry(s, reg);
      RegionFields(pairs - 1, next.1, next.0)
  }

  function ParseRegion(s: bytes): Result<(Region, bytes)> {
    var (pairs, rest) :- NextMap(s);
    RegionFields(pairs, rest, NO_REGION)
  }

  function ParseRegions(k: nat, s: bytes): (r: Result<(seq<Region>, bytes)>)
    ensures r.Ok? ==> |r.value.0| == k
  {
    if k == 0 then Ok(([], s))
    else
      var front :- ParseRegions(k - 1, s);
      var last :- ParseRegion(front.1);
      Ok((front.0 + [last.0], last.1))
  }

  /** A structure being filled, and whether the server's key has been seen. */
  datatype Filling = Filling(ci: ConnInfo, saw: bool)

  function InfoField(k: u8, s: bytes, f: Filling): Result<(Filling, bytes)> {
    if k == 0x70 then
      var (v, rest) :- NextBytes(s, KEY_LEN);
      Ok((Filling(f.ci.(serverPublic := v), true), rest))
    else if k == 0x6b then
      var (v, rest) :- NextBytes(s, KEY_LEN);
      Ok((Filling(f.ci.(disco := Some(v)), f.saw), rest))
    else if k == 0x71 then
      var (v, rest) :- NextBytes(s, KEY_LEN);
      Ok((Filling(f.ci.(psk := Some(v)), f.saw), rest))
    else if k == 0x69 then
      var (v, rest) :- NextInt(s);
      Ok((Filling(f.ci.(regionId := v), f.saw), rest))
    else if k == 0x72 then
      var count :- NextArray(s, MAX_REGIONS);
      var rs :- ParseRegions(count.0, count.1);
      Ok((Filling(f.ci.(regions := rs.0), f.saw), rs.1))
    else
      var rest :- OneItem(s);
      Ok((f, rest))
  }

  function InfoEntry(s: bytes, f: Filling): Result<(Filling, bytes)> {
    var key :- NextKey(s);
    InfoField(key.0, key.1, f)
  }

  function InfoFields(pairs: nat, s: bytes, f: Filling): Result<(Filling, bytes)>
    decreases pairs
  {
    if pairs == 0 then Ok((f, s))
    else
      var next :- InfoEntry(s, f);
      InfoFields(pairs - 1, next.1, next.0)
  }

  /** The structure in a CBOR string: one map, the server's key in it, and nothing after it. */
  function ParseInfo(s: bytes): Result<ConnInfo> {
    var pairs :- NextMap(s);
    var f :- InfoFields(pairs.0, pairs.1, Filling(NO_INFO, false));
    if !f.0.saw || f.1 != [] then Err(Inval) else Ok(f.0.ci)
  }

  function ParseText(a: bytes, restore: bool): Result<ConnInfo> {
    if |a| < 2 || a[..2] != PREFIX then Err(Inval)
    else if Base64Url.DecodedMax(|a| - 2) > CBOR_MAX then Err(TooMany)
    else
      var cbor :- Base64Url.Decode(a[2..]);
      var ci :- ParseInfo(cbor);
      Ok(if restore then Restore(ci) else ci)
  }
}
