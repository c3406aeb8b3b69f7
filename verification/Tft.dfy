/** Traffic flow templates: the packet filters of 3GPP TS 24.008, their encoding, and
    what it means for an uplink packet to match one. */
module Tft {
  import opened Octets

  datatype Ip4 = Ip4(a: bv8, b: bv8, c: bv8, d: bv8)

  datatype AddrMask = AddrMask(ip: Ip4, mask: Ip4)

  datatype Ports = Ports(lo: nat, hi: nat)

  /** A packet filter; a component that the filter lacks is None. */
  datatype PacketFilter = PacketFilter(
    id: byte,
    precedence: byte,
    direction: byte,
    remote: Option<AddrMask>,
    local: Option<AddrMask>,
    protocol: Option<byte>,
    localPort: Option<Ports>,
    remotePort: Option<Ports>)

  /** The fields of an option-free IPv4 packet that classification looks at. `ports` is None
      when the protocol has none or the packet is too short to carry them. */
  datatype Packet = Packet(src: Ip4, dst: Ip4, protocol: byte, ports: Option<(nat, nat)>)

  // ---------------------------------------------------------------- meaning

  function And(x: bv8, y: bv8): bv8 {
    x & y
  }

  /** Both addresses agree on every bit that the mask selects. */
  predicate AgreeUnder(x: Ip4, y: Ip4, mask: Ip4) {
    && And(x.a, mask.a) == And(y.a, mask.a)
    && And(x.b, mask.b) == And(y.b, mask.b)
    && And(x.c, mask.c) == And(y.c, mask.c)
    && And(x.d, mask.d) == And(y.d, mask.d)
  }

  predicate InPorts(p: nat, r: Ports) {
    r.lo <= p <= r.hi
  }

  /** The filter's remote address, protocol and port components all hold of the packet. Local
      is the UE's side: an uplink packet's source port. */
  predicate Matches(f: PacketFilter, p: Packet) {
    && (f.remote.Some? ==> AgreeUnder(p.dst, f.remote.value.ip, f.remote.value.mask))
    && (f.protocol.Some? ==> p.protocol == f.protocol.value)
    && (f.localPort.Some? ==> p.ports.Some? && InPorts(p.ports.value.0, f.localPort.value))
    && (f.remotePort.Some? ==> p.ports.Some? && InPorts(p.ports.value.1, f.remotePort.value))
  }

  /** Uplink or bidirectional. */
  predicate Uplink(f: PacketFilter) {
    f.direction == 1 || f.direction == 3
  }

  // ---------------------------------------------------------------- parsing

  function Ip4At(b: Bytes, i: nat): Ip4
    requires i + 4 <= |b|
  {
    Ip4(b[i] as bv8, b[i + 1] as bv8, b[i + 2] as bv8, b[i + 3] as bv8)
  }

  function AddrMaskAt(b: Bytes, i: nat): AddrMask
    requires i + 8 <= |b|
  {
    AddrMask(Ip4At(b, i), Ip4At(b, i + 4))
  }

  /** Octets that a component's value takes; None for a type the parser does not know. */
  function ValueLen(comp: byte): Option<nat> {
    match comp
    case 0x10 => Some(8)
    case 0x18 => Some(8)
    case 0x30 => Some(1)
    case 0x40 => Some(2)
    case 0x41 => Some(4)
    case 0x50 => Some(2)
    case 0x51 => Some(4)
    case 0x60 => Some(4)
    case 0x70 => Some(2)
    case 0x80 => Some(3)
    case _ => None
  }

  /** Security parameter index, type of service and flow label are stepped over without a
      look at the remaining length. */
  predicate Skipped(comp: byte) {
    comp == 0x60 || comp == 0x70 || comp == 0x80
  }

  /** The filter after one component whose value is `v`. */
  function WithComponent(f: PacketFilter, comp: byte, v: Bytes): PacketFilter
    requires ValueLen(comp).Some? && !Skipped(comp) ==> |v| == ValueLen(comp).value
  {
    match comp
    case 0x10 => f.(remote := Some(AddrMaskAt(v, 0)))
    case 0x18 => f.(local := Some(AddrMaskAt(v, 0)))
    case 0x30 => f.(protocol := Some(v[0]))
    case 0x40 => f.(localPort := Some(Ports(GetU16(v, 0), GetU16(v, 0))))
    case 0x41 => f.(localPort := Some(Ports(GetU16(v, 0), GetU16(v, 2))))
    case 0x50 => f.(remotePort := Some(Ports(GetU16(v, 0), GetU16(v, 0))))
    case 0x51 => f.(remotePort := Some(Ports(GetU16(v, 0), GetU16(v, 2))))
    case _ => f
  }

  /** parsePacketFilterContents on the octets that remain. */
  function ParseContents(f: PacketFilter, data: Bytes): Result<PacketFilter>
    decreases |data|
  {
    if data == [] then Ok(f) else
    var n := ValueLen(data[0]);
    if n.None? then Err
    else if Skipped(data[0]) then ParseContents(f, if 1 + n.value <= |data| then data[1 + n.value..] else [])
    else if 1 + n.value > |data| then Err
    else ParseContents(WithComponent(f, data[0], data[1..1 + n.value]), data[1 + n.value..])
  }

  /** One round of the component loop. */
  lemma NextComponent(f: PacketFilter, data: Bytes, i: nat)
    requires i < |data|
    ensures var n := ValueLen(data[i]);
            ParseContents(f, data[i..]) ==
            if n.None? then Err
            else if Skipped(data[i]) then
              if i + 1 + n.value <= |data| then ParseContents(f, data[i + 1 + n.value..]) else Ok(f)
            else if i + 1 + n.value > |data| then Err
            else ParseContents(WithComponent(f, data[i], data[i + 1..i + 1 + n.value]), data[i + 1 + n.value..])
  {
    var rest, n := data[i..], ValueLen(data[i]);
    assert rest != [] && rest[0] == data[i];
    if n.Some? && i + 1 + n.value <= |data| {
      assert rest[1..1 + n.value] == data[i + 1..i + 1 + n.value] && rest[1 + n.value..] == data[i + 1 + n.value..];
    }
  }

  method ParsePacketFilterContents(f: PacketFilter, data: Bytes) returns (r: Result<PacketFilter>)
    ensures r == ParseContents(f, data)
  {
    var pf := f;
    var i := 0;
    assert data[0..] == data;
    while i < |data|
      invariant 0 <= i
      invariant ParseContents(f, data) == if i <= |data| then ParseContents(pf, data[i..]) else Ok(pf)
    {
      NextComponent(pf, data, i);
      var comp := data[i];
      var n := ValueLen(comp);
      i := i + 1;
      if n.None? { return Err; }
      if !Skipped(comp) {
        if i + n.value > |data| { return Err; }
        pf := WithComponent(pf, comp, data[i..i + n.value]);
      }
      i := i + n.value;
    }
    assert i == |data| ==> data[i..] == [];
    r := Ok(pf);
  }

  function EmptyFilter(header: byte, precedence: byte): PacketFilter {
    PacketFilter(header % 16, precedence, header / 16 % 4, None, None, None, None, None)
  }

  datatype Filter1 = Filter1(filter: PacketFilter, rest: Bytes)

  /** One packet filter from the front of `b`, and what follows it. */
  function ParseFilter(b: Bytes): Result<Filter1> {
    if |b| < 3 then Err else
    var end: int := 3 + (b[2] as int);
    if |b| < end then Err else
    match ParseContents(EmptyFilter(b[0], b[1]), b[3..end])
    case Ok(f) => Ok(Filter1(f, b[end..]))
    case Err => Err
  }

  /** `n` packet filters; a truncated or unknown one fails the parse. */
  function ParseFilters(n: nat, b: Bytes): Result<seq<PacketFilter>> {
    if n == 0 then Ok([]) else
    match ParseFilter(b)
    case Err => Err
    case Ok(x) => Cons(x.filter, ParseFilters(n - 1, x.rest))
  }

  /** What ParseTFT returns: an error, no TFT (unknown operation) or a TFT with its filters. */
  function ParseTft(raw: Bytes): Result<Option<seq<PacketFilter>>> {
    if raw == [] then Err else
    var op: int := raw[0] / 32;
    if op == 2 || op == 5 || op == 6 then Ok(Some([]))
    else if op != 1 && op != 3 && op != 4 then Ok(None)
    else match ParseFilters(raw[0] % 16, raw[1..])
      case Ok(fs) => Ok(Some(fs))
      case Err => Err
  }

  method ParseOneFilter(raw: Bytes, at: nat) returns (r: Result<PacketFilter>, next: nat)
    requires at <= |raw|
    ensures at <= next <= |raw|
    ensures ParseFilter(raw[at..]) == if r.Ok? then Ok(Filter1(r.value, raw[next..])) else Err
  {
    next := at;
    ghost var b := raw[at..];
    if at + 2 > |raw| { return Err, next; }
    var header, precedence := raw[at], raw[at + 1];
    var offset := at + 2;
    if offset >= |raw| { return Err, next; }
    var contentLen: int := raw[offset];
    offset := offset + 1;
    if offset + contentLen > |raw| { return Err, next; }
    assert b[3..3 + contentLen] == raw[offset..offset + contentLen];
    assert b[3 + contentLen..] == raw[offset + contentLen..];
    r := ParsePacketFilterContents(EmptyFilter(header, precedence), raw[offset..offset + contentLen]);
    next := offset + contentLen;
  }

  lemma OneMore(fs: seq<PacketFilter>, n: nat, b: Bytes)
    requires n > 0
    ensures ParseFilter(b).Err? ==> Join(fs, ParseFilters(n, b)).Err?
    ensures ParseFilter(b).Ok? ==>
              var x := ParseFilter(b).value;
              Join(fs, ParseFilters(n, b)) == Join(fs + [x.filter], ParseFilters(n - 1, x.rest))
  {
    if ParseFilter(b).Ok? {
      var x := ParseFilter(b).value;
      JoinCons(fs, x.filter, ParseFilters(n - 1, x.rest));
    }
  }

  method ParseFilterList(raw: Bytes, n: nat) returns (r: Result<seq<PacketFilter>>)
    requires |raw| > 0
    ensures r == ParseFilters(n, raw[1..])
  {
    var filters: seq<PacketFilter> := [];
    var offset := 1;
    ghost var all := ParseFilters(n, raw[1..]);
    JoinNone(all);
    for i := 0 to n
      invariant 1 <= offset <= |raw|
      invariant all == Join(filters, ParseFilters(n - i, raw[offset..]))
    {
      OneMore(filters, n - i, raw[offset..]);
      var pf, next := ParseOneFilter(raw, offset);
      if pf.Err? { return Err; }
      filters := filters + [pf.value];
      offset := next;
    }
    assert filters + [] == filters;
    r := Ok(filters);
  }

  method ParseTFT(raw: Bytes) returns (r: Result<Option<seq<PacketFilter>>>)
    ensures r == ParseTft(raw)
  {
    if |raw| < 1 { return Err; }
    var op: int := raw[0] / 32;
    if op == 2 || op == 5 || op == 6 { return Ok(Some([])); }
    if op != 1 && op != 3 && op != 4 { return Ok(None); }
    var fs := ParseFilterList(raw, raw[0] % 16);
    r := if fs.Ok? then Ok(Some(fs.value)) else Err;
  }

  // ------------------------------------------------------------- round trip

  function Ip4Bytes(ip: Ip4): (b: Bytes)
    ensures |b| == 4
  {
    [ip.a as int, ip.b as int, ip.c as int, ip.d as int]
  }

  function PortBytes(single: byte, range: byte, p: Ports): Bytes {
    if p.lo == p.hi then [single] + U16(p.lo) else [range] + U16(p.lo) + U16(p.hi)
  }

  /** The components of a filter as section 10.5.6.12 of TS 24.008 lays them out. */
  function Contents(f: PacketFilter): Bytes {
    (if f.remote.Some? then [0x10] + Ip4Bytes(f.remote.value.ip) + Ip4Bytes(f.remote.value.mask) else [])
    + ((if f.local.Some? then [0x18] + Ip4Bytes(f.local.value.ip) + Ip4Bytes(f.local.value.mask) else [])
    + ((if f.protocol.Some? then [0x30, f.protocol.value] else []) + PortContents(f)))
  }

  function Head(f: PacketFilter): byte {
    (f.direction * 16 + f.id) % 256
  }

  function Count(f: PacketFilter): byte {
    |Contents(f)| % 256
  }

  function FilterBytes(f: PacketFilter): Bytes {
    [Head(f), f.precedence, Count(f)] + Contents(f)
  }

  function EncodeFilters(fs: seq<PacketFilter>): Bytes {
    if fs == [] then [] else FilterBytes(fs[0]) + EncodeFilters(fs[1..])
  }

  predicate PortsFit(p: Option<Ports>) {
    p.Some? ==> p.value.lo < 65536 && p.value.hi < 65536
  }

  predicate Fits(f: PacketFilter) {
    f.id < 16 && f.direction < 4 && PortsFit(f.localPort) && PortsFit(f.remotePort)
  }

  lemma OneComponent(f: PacketFilter, comp: byte, v: Bytes, rest: Bytes)
    requires ValueLen(comp).Some? && !Skipped(comp) && |v| == ValueLen(comp).value
    ensures ParseContents(f, [comp] + v + rest) == ParseContents(WithComponent(f, comp, v), rest)
  {
    var data := [comp] + v + rest;
    assert data[1..1 + |v|] == v && data[1 + |v|..] == rest;
  }

  lemma Ip4RoundTrip(ip: Ip4, b: Bytes, i: nat)
    requires i + 4 <= |b| && b[i..i + 4] == Ip4Bytes(ip)
    ensures Ip4At(b, i) == ip
  {
    var v := b[i..i + 4];
    assert b[i] == v[0] && b[i + 1] == v[1] && b[i + 2] == v[2] && b[i + 3] == v[3];
    OctetRoundTrip(ip.a);
    OctetRoundTrip(ip.b);
    OctetRoundTrip(ip.c);
    OctetRoundTrip(ip.d);
  }

  lemma OctetRoundTrip(x: bv8)
    ensures (x as int) as bv8 == x
  {}

  lemma RangeComponent(f: PacketFilter, comp: byte, p: Ports, rest: Bytes)
    requires (comp == 0x41 || comp == 0x51) && p.lo < 65536 && p.hi < 65536
    ensures ParseContents(f, [comp] + U16(p.lo) + U16(p.hi) + rest)
            == ParseContents(if comp == 0x41 then f.(localPort := Some(p)) else f.(remotePort := Some(p)), rest)
  {
    GetPut16(p.lo);
    GetPut16(p.hi);
    var v := U16(p.lo) + U16(p.hi);
    assert GetU16(v, 0) == p.lo && GetU16(v, 2) == p.hi;
    OneComponent(f, comp, v, rest);
    assert [comp] + v + rest == [comp] + U16(p.lo) + U16(p.hi) + rest;
  }

  lemma PortComponent(f: PacketFilter, single: byte, range: byte, p: Ports, rest: Bytes)
    requires (single == 0x40 && range == 0x41) || (single == 0x50 && range == 0x51)
    requires p.lo < 65536 && p.hi < 65536
    ensures ParseContents(f, PortBytes(single, range, p) + rest)
            == ParseContents(if single == 0x40 then f.(localPort := Some(p)) else f.(remotePort := Some(p)), rest)
  {
    GetPut16(p.lo);
    if p.lo == p.hi { OneComponent(f, single, U16(p.lo), rest); } else { RangeComponent(f, range, p, rest); }
  }

  function PortContents(f: PacketFilter): Bytes {
    (if f.localPort.Some? then PortBytes(0x40, 0x41, f.localPort.value) else [])
    + (if f.remotePort.Some? then PortBytes(0x50, 0x51, f.remotePort.value) else [])
  }

  lemma PortsRead(f0: PacketFilter, f: PacketFilter)
    requires Fits(f) && f0 == f.(localPort := None, remotePort := None)
    ensures ParseContents(f0, PortContents(f)) == Ok(f)
  {
    var f1 := f0.(localPort := f.localPort);
    var c := if f.remotePort.Some? then PortBytes(0x50, 0x51, f.remotePort.value) else [];
    if f.localPort.Some? { PortComponent(f0, 0x40, 0x41, f.localPort.value, c); } else { assert PortContents(f) == c; }
    assert ParseContents(f0, PortContents(f)) == ParseContents(f1, c);
    if f.remotePort.Some? { PortComponent(f1, 0x50, 0x51, f.remotePort.value, []); assert c + [] == c; }
  }

  /** Reading a filter's components back gives the filter. */
  lemma ContentsRoundTrip(f: PacketFilter)
    requires Fits(f)
    ensures ParseContents(PacketFilter(f.id, f.precedence, f.direction, None, None, None, None, None), Contents(f)) == Ok(f)
  {
    var f0 := PacketFilter(f.id, f.precedence, f.direction, None, None, None, None, None);
    var f1 := f0.(remote := f.remote);
    var f2 := f1.(local := f.local);
    var f3 := f2.(protocol := f.protocol);
    var c3 := PortContents(f);
    var c2 := (if f.protocol.Some? then [0x30, f.protocol.value] else []) + c3;
    var c1 := (if f.local.Some? then [0x18] + Ip4Bytes(f.local.value.ip) + Ip4Bytes(f.local.value.mask) else []) + c2;
    assert Contents(f) == (if f.remote.Some? then [0x10] + Ip4Bytes(f.remote.value.ip) + Ip4Bytes(f.remote.value.mask) else []) + c1;
    if f.remote.Some? { AddrComponent(f0, 0x10, f.remote.value, c1); } else { assert Contents(f) == c1; }
    assert ParseContents(f0, Contents(f)) == ParseContents(f1, c1);
    if f.local.Some? { AddrComponent(f1, 0x18, f.local.value, c2); } else { assert c1 == c2; }
    assert ParseContents(f1, c1) == ParseContents(f2, c2);
    if f.protocol.Some? { OneComponent(f2, 0x30, [f.protocol.value], c3); } else { assert c2 == c3; }
    assert ParseContents(f2, c2) == ParseContents(f3, c3);
    PortsRead(f3, f);
  }

  lemma AddrComponent(f: PacketFilter, comp: byte, x: AddrMask, rest: Bytes)
    requires comp == 0x10 || comp == 0x18
    ensures ParseContents(f, [comp] + Ip4Bytes(x.ip) + Ip4Bytes(x.mask) + rest)
            == ParseContents(if comp == 0x10 then f.(remote := Some(x)) else f.(local := Some(x)), rest)
  {
    var v := Ip4Bytes(x.ip) + Ip4Bytes(x.mask);
    Ip4RoundTrip(x.ip, v, 0);
    Ip4RoundTrip(x.mask, v, 4);
    OneComponent(f, comp, v, rest);
    assert [comp] + v + rest == [comp] + Ip4Bytes(x.ip) + Ip4Bytes(x.mask) + rest;
  }

  lemma ContentsShort(f: PacketFilter)
    ensures |Contents(f)| <= 30
  {}

  lemma HeaderOctet(x: nat, y: nat)
    requires y < 16
    ensures (x * 16 + y) % 16 == y && (x * 16 + y) / 16 == x
  {}

  lemma OperationOctet(op: nat, n: nat)
    requires n < 16
    ensures (op * 32 + n) / 32 == op && (op * 32 + n) % 16 == n
  {
    HeaderOctet(op * 2, n);
    assert op * 2 * 16 == op * 32;
  }

  lemma EmptyFilterOf(f: PacketFilter)
    requires Fits(f)
    ensures EmptyFilter(Head(f), f.precedence) == PacketFilter(f.id, f.precedence, f.direction, None, None, None, None, None)
  {
    var v: int := f.direction * 16 + f.id;
    assert 0 <= v < 64;
    assert Head(f) == v;
    HeaderOctet(f.direction, f.id);
  }

  lemma ContentsRead(f: PacketFilter)
    requires Fits(f)
    ensures ParseContents(EmptyFilter(Head(f), f.precedence), Contents(f)) == Ok(f) && Count(f) == |Contents(f)|
  {
    EmptyFilterOf(f);
    ContentsRoundTrip(f);
    ContentsShort(f);
  }

  lemma FilterFrame(h: byte, p: byte, n: byte, c: Bytes, rest: Bytes, f: PacketFilter)
    requires n == |c| && ParseContents(EmptyFilter(h, p), c) == Ok(f)
    ensures ParseFilter([h, p, n] + c + rest) == Ok(Filter1(f, rest))
  {
    var b := [h, p, n] + c + rest;
    var end: int := 3 + (b[2] as int);
    assert end == 3 + |c| <= |b|;
    assert b[3..end] == c;
    assert b[end..] == rest;
  }

  lemma FilterRoundTrip(f: PacketFilter, rest: Bytes)
    requires Fits(f)
    ensures ParseFilter(FilterBytes(f) + rest) == Ok(Filter1(f, rest))
  {
    ContentsRead(f);
    FilterFrame(Head(f), f.precedence, Count(f), Contents(f), rest, f);
  }

  lemma ParseOneMore(n: nat, b: Bytes, f: PacketFilter, rest: Bytes, fs: seq<PacketFilter>)
    requires n > 0 && ParseFilter(b) == Ok(Filter1(f, rest)) && ParseFilters(n - 1, rest) == Ok(fs)
    ensures ParseFilters(n, b) == Ok([f] + fs)
  {}

  lemma EncodedBefore(fs: seq<PacketFilter>, rest: Bytes)
    requires fs != []
    ensures EncodeFilters(fs) + rest == FilterBytes(fs[0]) + (EncodeFilters(fs[1..]) + rest)
  {}

  /** An encoded list of filters reads back, whatever follows it. */
  lemma {:induction false} FiltersRoundTrip(fs: seq<PacketFilter>, rest: Bytes)
    requires forall i :: 0 <= i < |fs| ==> Fits(fs[i])
    ensures ParseFilters(|fs|, EncodeFilters(fs) + rest) == Ok(fs)
  {
    if fs == [] {
    } else {
      var more := EncodeFilters(fs[1..]) + rest;
      EncodedBefore(fs, rest);
      FilterRoundTrip(fs[0], more);
      FiltersRoundTrip(fs[1..], rest);
      ParseOneMore(|fs|, EncodeFilters(fs) + rest, fs[0], more, fs[1..]);
      assert [fs[0]] + fs[1..] == fs;
    }
  }

  // ------------------------------------------------------ every filter content

  /** One component of a packet filter, as section 10.5.6.12 of TS 24.008 lists them. */
  datatype Component =
    | RemoteAddress(address: Bytes, mask: Bytes)
    | LocalAddress(address: Bytes, mask: Bytes)
    | Protocol(number: byte)
    | LocalPort(port: nat)
    | LocalPortRange(range: Ports)
    | RemotePort(port: nat)
    | RemotePortRange(range: Ports)
    | SecurityIndex(v: Bytes)
    | ServiceType(v: Bytes)
    | FlowLabel(v: Bytes)

  predicate ComponentFits(c: Component) {
    match c
    case LocalPort(n) => n < 65536
    case RemotePort(n) => n < 65536
    case LocalPortRange(p) => p.lo < 65536 && p.hi < 65536
    case RemotePortRange(p) => p.lo < 65536 && p.hi < 65536
    case SecurityIndex(v) => |v| == 4
    case ServiceType(v) => |v| == 2
    case FlowLabel(v) => |v| == 3
    case Protocol(_) => true
    case _ => |c.address| == 4 && |c.mask| == 4
  }

  function ComponentBytes(c: Component): (b: Bytes)
    ensures b != []
  {
    match c
    case RemoteAddress(a, m) => [0x10] + a + m
    case LocalAddress(a, m) => [0x18] + a + m
    case Protocol(n) => [0x30, n]
    case LocalPort(n) => [0x40] + U16(n)
    case LocalPortRange(p) => [0x41] + U16(p.lo) + U16(p.hi)
    case RemotePort(n) => [0x50] + U16(n)
    case RemotePortRange(p) => [0x51] + U16(p.lo) + U16(p.hi)
    case SecurityIndex(v) => [0x60] + v
    case ServiceType(v) => [0x70] + v
    case FlowLabel(v) => [0x80] + v
  }

  predicate AllComponentsFit(cs: seq<Component>) {
    forall i :: 0 <= i < |cs| ==> ComponentFits(cs[i])
  }

  function ComponentsBytes(cs: seq<Component>): Bytes {
    if cs == [] then [] else ComponentBytes(cs[0]) + ComponentsBytes(cs[1..])
  }

  /** The address with these four octets. */
  function Ip4Of(b: Bytes): Ip4
    requires |b| == 4
  {
    Ip4(b[0] as bv8, b[1] as bv8, b[2] as bv8, b[3] as bv8)
  }

  /** The filter with that component; the last three kinds say nothing that is kept. */
  function Refined(f: PacketFilter, c: Component): PacketFilter
    requires ComponentFits(c)
  {
    match c
    case RemoteAddress(a, m) => f.(remote := Some(AddrMask(Ip4Of(a), Ip4Of(m))))
    case LocalAddress(a, m) => f.(local := Some(AddrMask(Ip4Of(a), Ip4Of(m))))
    case Protocol(n) => f.(protocol := Some(n))
    case LocalPort(n) => f.(localPort := Some(Ports(n, n)))
    case LocalPortRange(p) => f.(localPort := Some(p))
    case RemotePort(n) => f.(remotePort := Some(Ports(n, n)))
    case RemotePortRange(p) => f.(remotePort := Some(p))
    case _ => f
  }

  function RefinedBy(f: PacketFilter, cs: seq<Component>): PacketFilter
    requires AllComponentsFit(cs)
    decreases |cs|
  {
    if cs == [] then f else RefinedBy(Refined(f, cs[0]), cs[1..])
  }

  /** Octets that no component can start with: an unknown type, or a checked value cut short. */
  predicate Broken(b: Bytes) {
    b != [] &&
    match b[0]
    case 0x10 => |b| < 9
    case 0x18 => |b| < 9
    case 0x30 => |b| < 2
    case 0x40 => |b| < 3
    case 0x41 => |b| < 5
    case 0x50 => |b| < 3
    case 0x51 => |b| < 5
    case 0x60 => false
    case 0x70 => false
    case 0x80 => false
    case _ => true
  }

  /** A component whose value is not read, cut short: the parser lets it pass. */
  predicate CutUnread(b: Bytes) {
    b != [] && ((b[0] == 0x60 && |b| < 5) || (b[0] == 0x70 && |b| < 3) || (b[0] == 0x80 && |b| < 4))
  }

  lemma UnreadComponent(f: PacketFilter, comp: byte, v: Bytes, rest: Bytes)
    requires (comp == 0x60 && |v| == 4) || (comp == 0x70 && |v| == 2) || (comp == 0x80 && |v| == 3)
    ensures ParseContents(f, [comp] + v + rest) == ParseContents(f, rest)
  {
    var data := [comp] + v + rest;
    assert data[1 + |v|..] == rest;
  }

  lemma AddressRead(f: PacketFilter, comp: byte, a: Bytes, m: Bytes, rest: Bytes)
    requires (comp == 0x10 || comp == 0x18) && |a| == 4 && |m| == 4
    ensures var x := AddrMask(Ip4Of(a), Ip4Of(m));
            ParseContents(f, [comp] + a + m + rest)
            == ParseContents(if comp == 0x10 then f.(remote := Some(x)) else f.(local := Some(x)), rest)
  {
    OneComponent(f, comp, a + m, rest);
    assert AddrMaskAt(a + m, 0) == AddrMask(Ip4Of(a), Ip4Of(m));
    assert [comp] + (a + m) + rest == [comp] + a + m + rest;
  }

  lemma ComponentRead(f: PacketFilter, c: Component, rest: Bytes)
    requires ComponentFits(c)
    ensures ParseContents(f, ComponentBytes(c) + rest) == ParseContents(Refined(f, c), rest)
  {
    match c
    case RemoteAddress(a, m) => AddressRead(f, 0x10, a, m, rest);
    case LocalAddress(a, m) => AddressRead(f, 0x18, a, m, rest);
    case Protocol(n) => OneComponent(f, 0x30, [n], rest);
    case LocalPort(n) => GetPut16(n); OneComponent(f, 0x40, U16(n), rest);
    case LocalPortRange(p) => RangeComponent(f, 0x41, p, rest);
    case RemotePort(n) => GetPut16(n); OneComponent(f, 0x50, U16(n), rest);
    case RemotePortRange(p) => RangeComponent(f, 0x51, p, rest);
    case SecurityIndex(v) => UnreadComponent(f, 0x60, v, rest);
    case ServiceType(v) => UnreadComponent(f, 0x70, v, rest);
    case FlowLabel(v) => UnreadComponent(f, 0x80, v, rest);
  }

  /** Components in any order and number, repeated ones too, are read one after the other. */
  lemma {:induction false} ComponentsRead(f: PacketFilter, cs: seq<Component>, rest: Bytes)
    requires AllComponentsFit(cs)
    ensures ParseContents(f, ComponentsBytes(cs) + rest) == ParseContents(RefinedBy(f, cs), rest)
    decreases |cs|
  {
    if cs == [] {
      assert [] + rest == rest;
    } else {
      var more := ComponentsBytes(cs[1..]) + rest;
      assert ComponentsBytes(cs) + rest == ComponentBytes(cs[0]) + more;
      ComponentRead(f, cs[0], more);
      ComponentsRead(Refined(f, cs[0]), cs[1..], rest);
    }
  }

  lemma RangeWritten(v: Bytes)
    requires |v| == 4
    ensures U16(GetU16(v, 0)) + U16(GetU16(v, 2)) == v
  {
    PutGet16(v, 0);
    PutGet16(v, 2);
  }

  /** The component of known type with that value. */
  lemma ComponentOf(comp: byte, v: Bytes) returns (c: Component)
    requires ValueLen(comp) == Some(|v|)
    ensures ComponentFits(c) && ComponentBytes(c) == [comp] + v
  {
    if |v| == 8 {
      c := if comp == 0x10 then RemoteAddress(v[..4], v[4..]) else LocalAddress(v[..4], v[4..]);
      assert v[..4] + v[4..] == v;
    } else if comp == 0x40 || comp == 0x50 {
      PutGet16(v, 0);
      c := if comp == 0x40 then LocalPort(GetU16(v, 0)) else RemotePort(GetU16(v, 0));
    } else if comp == 0x41 || comp == 0x51 {
      RangeWritten(v);
      var p := Ports(GetU16(v, 0), GetU16(v, 2));
      c := if comp == 0x41 then LocalPortRange(p) else RemotePortRange(p);
      assert ComponentBytes(c) == [comp] + (U16(p.lo) + U16(p.hi));
    } else {
      c := if comp == 0x30 then Protocol(v[0]) else if comp == 0x60 then SecurityIndex(v)
           else if comp == 0x70 then ServiceType(v) else FlowLabel(v);
    }
  }

  /** The component at the front of octets that hold a whole one. */
  lemma FirstComponent(b: Bytes) returns (c: Component, rest: Bytes)
    requires b != [] && !Broken(b) && !CutUnread(b)
    ensures ComponentFits(c) && b == ComponentBytes(c) + rest
  {
    var n := ValueLen(b[0]).value;
    c := ComponentOf(b[0], b[1..1 + n]);
    rest := b[1 + n..];
    assert b == [b[0]] + b[1..1 + n] + rest;
  }

  lemma ContentsEnd(f: PacketFilter, b: Bytes)
    requires b == [] || Broken(b) || CutUnread(b)
    ensures ParseContents(f, b) == if Broken(b) then Err else Ok(f)
  {}

  lemma ContentsBefore(c: Component, more: seq<Component>, tail: Bytes)
    ensures ComponentsBytes([c] + more) + tail == ComponentBytes(c) + (ComponentsBytes(more) + tail)
  {
    assert ([c] + more)[1..] == more;
  }

  /** All octets are components followed by an end, by a broken one or by an unread one cut
      short; they parse, to the filter those components make, unless one is broken. */
  lemma {:induction false} EveryContents(f: PacketFilter, b: Bytes) returns (cs: seq<Component>, tail: Bytes)
    ensures AllComponentsFit(cs) && b == ComponentsBytes(cs) + tail
    ensures tail == [] || Broken(tail) || CutUnread(tail)
    ensures ParseContents(f, b) == if Broken(tail) then Err else Ok(RefinedBy(f, cs))
    decreases |b|
  {
    if b == [] || Broken(b) || CutUnread(b) {
      cs, tail := [], b;
      ContentsEnd(f, b);
    } else {
      var c, rest := FirstComponent(b);
      var more;
      more, tail := EveryContents(Refined(f, c), rest);
      cs := [c] + more;
      assert cs[1..] == more;
      ContentsBefore(c, more, tail);
      ComponentRead(f, c, rest);
    }
  }

  // -------------------------------------------------------- every TFT operation

  predicate AllFit(fs: seq<PacketFilter>) {
    forall i :: 0 <= i < |fs| ==> Fits(fs[i])
  }

  /** Octets that no packet filter can start with: cut short, or with broken contents. */
  ghost predicate BadFilter(b: Bytes) {
    || |b| < 3
    || |b| < 3 + (b[2] as int)
    || BrokenContents(b[3..3 + (b[2] as int)])
  }

  ghost predicate BrokenContents(b: Bytes) {
    exists cs, tail :: Spells(b, cs, tail) && Broken(tail)
  }

  ghost predicate Spells(b: Bytes, cs: seq<Component>, tail: Bytes) {
    AllComponentsFit(cs) && b == ComponentsBytes(cs) + tail
  }

  lemma BadFilterFails(b: Bytes)
    requires BadFilter(b)
    ensures ParseFilter(b) == Err
  {
    if |b| >= 3 && |b| >= 3 + (b[2] as int) {
      var f, end := EmptyFilter(b[0], b[1]), 3 + (b[2] as int);
      var cs, tail :| Spells(b[3..end], cs, tail) && Broken(tail);
      ComponentsRead(f, cs, tail);
      ContentsEnd(RefinedBy(f, cs), tail);
    }
  }

  lemma FailsAtOnce(n: nat, b: Bytes)
    requires n > 0 && ParseFilter(b).Err?
    ensures ParseFilters(n, b).Err?
  {}

  lemma FailsLater(n: nat, fs: seq<PacketFilter>, bad: Bytes)
    requires n > 0 && fs != [] && Fits(fs[0]) && ParseFilters(n - 1, EncodeFilters(fs[1..]) + bad).Err?
    ensures ParseFilters(n, EncodeFilters(fs) + bad).Err?
  {
    var rest := EncodeFilters(fs[1..]) + bad;
    EncodedBefore(fs, bad);
    FilterRoundTrip(fs[0], rest);
  }

  /** A list fails when what follows its first filters fails. */
  lemma {:induction false} FailsAfter(n: nat, fs: seq<PacketFilter>, bad: Bytes)
    requires |fs| <= n && AllFit(fs) && ParseFilters(n - |fs|, bad).Err?
    ensures ParseFilters(n, EncodeFilters(fs) + bad).Err?
    decreases |fs|
  {
    if fs == [] {
      assert EncodeFilters(fs) + bad == bad;
    } else {
      FailsAfter(n - 1, fs[1..], bad);
      FailsLater(n, fs, bad);
    }
  }

  /** The operations that carry filters: create, add, replace. */
  predicate CarriesFilters(raw: Bytes) {
    raw != [] && (raw[0] / 32 == 1 || raw[0] / 32 == 3 || raw[0] / 32 == 4)
  }

  /** The octets carry exactly the filters `fs`; the parser ignores what follows them. */
  ghost predicate CarriesTft(raw: Bytes, fs: seq<PacketFilter>) {
    CarriesFilters(raw) && raw[0] % 16 == |fs| && AllFit(fs) && EncodeFilters(fs) <= raw[1..]
  }

  /** One of the filters that the octets announce, the first after `fs`, is bad. */
  ghost predicate BadTft(raw: Bytes, fs: seq<PacketFilter>, bad: Bytes) {
    CarriesFilters(raw) && |fs| < raw[0] % 16 && AllFit(fs) && BadFilter(bad) && raw[1..] == EncodeFilters(fs) + bad
  }

  lemma CarriedTftParses(raw: Bytes, fs: seq<PacketFilter>)
    requires CarriesTft(raw, fs)
    ensures ParseTft(raw) == Ok(Some(fs))
  {
    var rest := raw[1 + |EncodeFilters(fs)|..];
    assert raw[1..] == EncodeFilters(fs) + rest;
    FiltersRoundTrip(fs, rest);
  }

  lemma BadTftFails(raw: Bytes, fs: seq<PacketFilter>, bad: Bytes)
    requires BadTft(raw, fs, bad)
    ensures ParseTft(raw) == Err
  {
    BadFilterFails(bad);
    FailsAtOnce(raw[0] % 16 - |fs|, bad);
    FailsAfter(raw[0] % 16, fs, bad);
  }

  /** What a TFT says, by its operation: the filters it carries, no filters for operations 2, 5
      and 6, nothing for 0 and 7, and an error when it is empty or a filter is bad. */
  lemma TftMeaning(raw: Bytes)
    ensures raw == [] ==> ParseTft(raw) == Err
    ensures raw != [] && (raw[0] / 32 == 2 || raw[0] / 32 == 5 || raw[0] / 32 == 6) ==> ParseTft(raw) == Ok(Some([]))
    ensures raw != [] && (raw[0] / 32 == 0 || raw[0] / 32 == 7) ==> ParseTft(raw) == Ok(None)
    ensures forall fs :: CarriesTft(raw, fs) ==> ParseTft(raw) == Ok(Some(fs))
    ensures forall fs, bad :: BadTft(raw, fs, bad) ==> ParseTft(raw) == Err
  {
    forall fs | CarriesTft(raw, fs)
      ensures ParseTft(raw) == Ok(Some(fs))
    {
      CarriedTftParses(raw, fs);
    }
    forall fs, bad | BadTft(raw, fs, bad)
      ensures ParseTft(raw) == Err
    {
      BadTftFails(raw, fs, bad);
    }
  }

  lemma OperationHeader(op: byte, fs: seq<PacketFilter>)
    requires (op == 1 || op == 3 || op == 4) && |fs| < 16 && AllFit(fs)
    ensures CarriesTft([op * 32 + |fs|] + EncodeFilters(fs), fs)
  {
    OperationOctet(op, |fs|);
    var raw := [op * 32 + |fs|] + EncodeFilters(fs);
    assert raw[1..] == EncodeFilters(fs);
  }

  /** ParseTFT inverts the encoding of every TFT that creates, adds or replaces filters. */
  lemma TftRoundTrip(op: byte, fs: seq<PacketFilter>)
    requires (op == 1 || op == 3 || op == 4) && |fs| < 16 && AllFit(fs)
    ensures ParseTft([op * 32 + |fs|] + EncodeFilters(fs)) == Ok(Some(fs))
  {
    var raw := [op * 32 + |fs|] + EncodeFilters(fs);
    assert CarriesTft(raw, fs) by { OperationHeader(op, fs); }
    CarriedTftParses(raw, fs);
  }
}
