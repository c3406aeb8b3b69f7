/** GTP-U on the wire: the outer header that the TC program prepends, the XDP program that
    strips it, and the user-space parser. */
module GtpuWire {
  import opened Octets
  import opened Checksum
  import Tft
  import TcTable

  type Addr = a: Bytes | |a| == 4 witness [0, 0, 0, 0]

  const OUTER: nat := 36
  const G_PDU: byte := 255
  const PORT: nat := 2152

  // ------------------------------------------------------------ outer header

  /** The 16-bit length fields for an inner packet whose header claims `len` octets. */
  function GtpLen(len: nat): nat {
    len % P16
  }

  function UdpLen(len: nat): nat {
    (8 + 8 + GtpLen(len)) % P16
  }

  function IpTotal(len: nat): nat {
    (20 + UdpLen(len)) % P16
  }

  /** The three lengths nest as IP, UDP and GTP-U prescribe exactly up to 65499 octets. */
  lemma LengthsConsistentIff(len: nat)
    requires len < P16
    ensures (&& GtpLen(len) == len && UdpLen(len) == 16 + GtpLen(len) && IpTotal(len) == 20 + UdpLen(len)) <==> len <= 65499
  {}

  /** The outer IPv4 header with a zero checksum field. */
  function IpHeader0(len: nat, local: Addr, pgw: Addr): (h: Bytes)
    ensures |h| == 20 && h[10] == 0 && h[11] == 0
  {
    [0x45, 0] + U16(IpTotal(len)) + [0, 0, 0x40, 0, 64, 17, 0, 0] + local + pgw
  }

  /** The checksum field filled in, as a host word. */
  function Summed(h0: Bytes): (h: Bytes)
    requires |h0| == 20
    ensures |h| == 20
  {
    var c := Csum(HostSum(h0, 10));
    h0[10 := c % P8][11 := c / P8 % P8]
  }

  function IpHeader(len: nat, local: Addr, pgw: Addr): (h: Bytes)
    ensures |h| == 20
  {
    Summed(IpHeader0(len, local, pgw))
  }

  function UdpHeader(len: nat): (h: Bytes)
    ensures |h| == 8
  {
    U16(PORT) + U16(PORT) + U16(UdpLen(len)) + [0, 0]
  }

  function GtpHeader(len: nat, teid: nat): (h: Bytes)
    ensures |h| == 8
  {
    [0x30, G_PDU] + U16(GtpLen(len)) + U32(teid)
  }

  function Outer(len: nat, teid: nat, local: Addr, pgw: Addr): (h: Bytes)
    ensures |h| == OUTER
  {
    IpHeader(len, local, pgw) + UdpHeader(len) + GtpHeader(len, teid)
  }

  lemma SummedChecks(h0: Bytes)
    requires |h0| == 20 && h0[10] == 0 && h0[11] == 0
    ensures OnesSum(Summed(h0), 10) == 0xffff
  {
    HostSumBound(h0, 10);
    var q := TwoFoldsSuffice(HostSum(h0, 10));
    assert Host(Summed(h0), 5) == Csum(HostSum(h0, 10));
    HeaderSumsToAllOnes(h0, Summed(h0));
  }

  /** The outer header's ten words add up to 0xffff. */
  lemma OuterChecksum(len: nat, local: Addr, pgw: Addr)
    ensures OnesSum(IpHeader(len, local, pgw), 10) == 0xffff
  {
    SummedChecks(IpHeader0(len, local, pgw));
  }

  /** Every octet of the outer header but the checksum: IPv4 without options, don't fragment, TTL
      64, UDP from and to port 2152 without checksum, GTP version 1, message 255. */
  lemma OuterLayout(len: nat, teid: nat, local: Addr, pgw: Addr)
    ensures var h := Outer(len, teid, local, pgw);
            && h[..2] == [0x45, 0] && h[2..4] == U16(IpTotal(len)) && h[4..10] == [0, 0, 0x40, 0, 64, 17]
            && h[12..16] == local && h[16..20] == pgw
            && h[20..24] == [8, 104, 8, 104] && h[24..26] == U16(UdpLen(len)) && h[26..28] == [0, 0]
            && h[28..30] == [0x30, 255] && h[30..32] == U16(GtpLen(len)) && h[32..36] == U32(teid)
  {
    var h, ip, h0 := Outer(len, teid, local, pgw), IpHeader(len, local, pgw), IpHeader0(len, local, pgw);
    var udp, gtp := UdpHeader(len), GtpHeader(len, teid);
    assert h[..20] == ip && h[20..28] == udp && h[28..36] == gtp;
    assert ip[..10] == h0[..10] && ip[12..20] == h0[12..20];
    assert h0[..2] == [0x45, 0] && h0[2..4] == U16(IpTotal(len)) && h0[4..10] == [0, 0, 0x40, 0, 64, 17];
    assert h0[12..16] == local && h0[16..20] == pgw;
    assert h[..2] == ip[..10][..2] && h[2..4] == ip[..10][2..4] && h[4..10] == ip[..10][4..10];
    assert h[12..16] == ip[12..20][..4] && h[16..20] == ip[12..20][4..];
    assert U16(2152) == [8, 104];
    assert h[20..24] == udp[..4] && h[24..26] == udp[4..6] && h[26..28] == udp[6..8];
    assert h[28..30] == gtp[..2] && h[30..32] == gtp[2..4] && h[32..36] == gtp[4..8];
  }

  // ------------------------------------------------------------------- encap

  /** IPv4 without options. */
  predicate OptionFree(p: Bytes) {
    |p| >= 20 && p[0] == 0x45
  }

  /** The TC program's rewriting of one packet. bpf_skb_adjust_room opens 36 octets of arbitrary
      content at some offset of the inner IP header (behind it for BPF_ADJ_ROOM_NET); the four
      stores then leave the outer header in front of the unchanged inner packet. `fails` names
      the helper calls that fail, counted from 0; the packet is then handed on as it is, and
      what lies behind the inner IP header is never touched. */
  method Encap(inner: Bytes, teid: nat, local: Addr, pgw: Addr, at: nat, room: Bytes, fails: set<nat>)
      returns (ok: bool, out: Bytes)
    requires at <= 20 && |room| == OUTER
    ensures ok <==> OptionFree(inner) && {0, 1, 2, 3, 4} !! fails
    ensures ok ==> out == Outer(GetU16(inner, 2), teid, local, pgw) + inner
    ensures !OptionFree(inner) || 0 in fails ==> out == inner
    ensures OptionFree(inner) && 0 !in fails ==> |out| == |inner| + OUTER && out[56..] == inner[20..]
  {
    if |inner| < 20 || inner[0] != 0x45 || 0 in fails { return false, inner; }
    var innerIp, len := inner[..20], GetU16(inner, 2);
    var skb := new byte[|inner| + OUTER];
    var widened := inner[..at] + room + inner[at..];
    forall i | 0 <= i < |widened| { skb[i] := widened[i]; }
    assert skb[..] == widened && widened[56..] == inner[20..];
    var ip, udp, gtp := IpHeader(len, local, pgw), UdpHeader(len), GtpHeader(len, teid);
    FourStores(inner, at, room, ip, udp, gtp);
    if 1 in fails { return false, skb[..]; }
    StoredTail(skb[..], 0, ip, 56);
    Store(skb, 0, ip);
    if 2 in fails { return false, skb[..]; }
    StoredTail(skb[..], 20, udp, 56);
    Store(skb, 20, udp);
    if 3 in fails { return false, skb[..]; }
    StoredTail(skb[..], 28, gtp, 56);
    Store(skb, 28, gtp);
    if 4 in fails { return false, skb[..]; }
    StoredTail(skb[..], 36, innerIp, 56);
    Store(skb, 36, innerIp);
    return true, skb[..];
  }

  lemma StoredTail(b: Bytes, at: nat, d: Bytes, from: nat)
    requires at + |d| <= from <= |b|
    ensures Stored(b, at, d)[from..] == b[from..]
  {}

  lemma FourStores(inner: Bytes, at: nat, room: Bytes, ip: Bytes, udp: Bytes, gtp: Bytes)
    requires at <= 20 <= |inner| && |room| == OUTER && |ip| == 20 && |udp| == 8 && |gtp| == 8
    ensures var b := inner[..at] + room + inner[at..];
            Stored(Stored(Stored(Stored(b, 0, ip), 20, udp), 28, gtp), 36, inner[..20]) == ip + udp + gtp + inner
  {
    var b := inner[..at] + room + inner[at..];
    var b1 := Stored(b, 0, ip);
    StoredNext(b, [], ip);
    var b2 := Stored(b1, 20, udp);
    StoredNext(b1, ip, udp);
    var b3 := Stored(b2, 28, gtp);
    StoredNext(b2, ip + udp, gtp);
    var b4 := Stored(b3, 36, inner[..20]);
    StoredNext(b3, ip + udp + gtp, inner[..20]);
    assert b[56..] == inner[20..];
    assert b1[56..] == b[56..] && b2[56..] == b1[56..] && b3[56..] == b2[56..];
    assert b4 == b4[..56] + b4[56..];
    assert inner == inner[..20] + inner[20..];
  }

  // ------------------------------------------------------------------- decap

  /** The frame is passed unchanged, dropped, passed without its outer headers, or passed after
      the header was removed only in part. */
  datatype Verdict = Pass | Drop | Stripped(frame: Bytes) | Mangled(frame: Bytes)

  /** The maps XDP reads: the local address, whether the outer peer is checked, the TEIDs; and
      whether bpf_xdp_adjust_head works. */
  datatype Config = Config(local: Option<Addr>, checkPeer: bool, teids: map<nat, TcTable.TeidEntry>, adjusts: bool)

  /** The PGW address and the UE address that teid_map has for a TEID. */
  function Peer(c: Config, teid: nat): Addr
    requires teid in c.teids
  {
    Tft.Ip4Bytes(c.teids[teid].pgw)
  }

  function Inner(c: Config, teid: nat): Addr
    requires teid in c.teids
  {
    Tft.Ip4Bytes(c.teids[teid].paa)
  }

  function ExtLen(flags: byte): nat {
    if flags % 8 != 0 then 4 else 0
  }

  /** The EtherType for an inner packet that starts with this octet. */
  function GuessType(first: byte): Option<Bytes> {
    if first / 16 == 4 then Some([0x08, 0x00]) else if first / 16 == 6 then Some([0x86, 0xDD]) else None
  }

  /** The frame with its Ethernet header copied in front of the inner packet, with the inner
      type: what is passed on when the head cannot be moved. */
  function Copied(f: Bytes, encap: nat, t: Bytes): Bytes
    requires 14 <= encap && encap + 14 <= |f| && |t| == 2
  {
    Stored(Stored(f, encap, f[..14]), encap + 12, t)
  }

  /** remove_gtp_header: the Ethernet header moves up to the inner packet and takes its type. */
  function RemoveHeader(frame: Bytes, flags: byte, adjusts: bool): Verdict {
    var encap := OUTER + ExtLen(flags);
    if |frame| < encap + 14 + 1 then Pass else
    var t := GuessType(frame[encap + 14]);
    if t.None? then Pass
    else if !adjusts then Mangled(Copied(frame, encap, t.value))
    else
      var frame' := frame[..12] + t.value + frame[encap + 14..];
      if t.value == [0x08, 0x00] && |frame'| < 34 then Mangled(frame') else Stripped(frame')
  }

  lemma MovedUp(f: Bytes, encap: nat, t: Bytes)
    requires 14 <= encap && encap + 14 <= |f| && |t| == 2
    ensures Copied(f, encap, t)[encap..] == f[..12] + t + f[encap + 14..]
  {
    var g := Stored(f, encap, f[..14]);
    var h := Stored(g, encap + 12, t);
    assert g[encap..encap + 12] == f[..12];
    assert h[encap..] == h[encap..encap + 12] + h[encap + 12..encap + 14] + h[encap + 14..];
    assert h[encap..encap + 12] == g[encap..encap + 12] && h[encap + 14..] == g[encap + 14..];
    assert g[encap + 14..] == f[encap + 14..];
  }

  /** The copy happens in the frame itself, before its head is moved. */
  method RemoveGtpHeader(frame: array<byte>, flags: byte, adjusts: bool) returns (v: Verdict)
    modifies frame
    ensures v == RemoveHeader(old(frame[..]), flags, adjusts)
  {
    var encap := OUTER;
    if flags % 8 != 0 { encap := encap + 4; }
    if 14 > frame.Length || encap + 14 > frame.Length || encap + 14 + 1 > frame.Length { return Pass; }
    var t := GuessType(frame[encap + 14]);
    if t.None? { return Pass; }
    ghost var was := frame[..];
    var eth := frame[..14];
    Store(frame, encap, eth);
    Store(frame, encap + 12, t.value);
    if !adjusts { return Mangled(frame[..]); }
    MovedUp(was, encap, t.value);
    var data := frame[encap..];
    if data[12..14] == [0x08, 0x00] && |data| < 34 { return Mangled(data); }
    v := Stripped(data);
  }

  /** gtpu_decap_func on an Ethernet frame. */
  function Decap(c: Config, f: Bytes): Verdict {
    if |f| < 14 || GetU16(f, 12) != 0x0800 || |f| < 34 || f[23] != 17 then Pass
    else if c.local.None? || f[30..34] != c.local.value then Pass
    else
      var ihl: int := (f[14] % 16) * 4;
      var u := 14 + ihl;
      if |f| < u + 8 || GetU16(f, u + 2) != PORT then Pass
      else if |f| < u + 16 || f[u + 9] != G_PDU then Pass
      else
        var teid := GetU32(f, u + 12);
        var data := u + 16 + ExtLen(f[u + 8]);
        if teid !in c.teids then Pass
        else if c.checkPeer && Peer(c, teid) != [0, 0, 0, 0] && f[26..30] != Peer(c, teid) then Drop
        else if |f| < data + 20 then Pass
        else if f[data + 16..data + 20] != Inner(c, teid) then Drop
        else RemoveHeader(f, f[u + 8], c.adjusts)
  }

  lemma OuterFields(len: nat, teid: nat, local: Addr, pgw: Addr)
    ensures var h := Outer(len, teid, local, pgw);
            && h[0] == 0x45 && h[9] == 17 && h[12..16] == local && h[16..20] == pgw
            && h[22..24] == U16(PORT) && h[28] == 0x30 && h[29] == G_PDU
            && h[30..32] == U16(GtpLen(len)) && h[32..36] == U32(teid)
  {
    var h, ip := Outer(len, teid, local, pgw), IpHeader(len, local, pgw);
    var h0 := IpHeader0(len, local, pgw);
    assert h[..20] == ip && h[20..28] == UdpHeader(len) && h[28..36] == GtpHeader(len, teid);
    assert h0[12..16] == local && h0[16..20] == pgw && ip[12..20] == h0[12..20];
    assert h[12..16] == ip[12..16] && h[16..20] == ip[16..20];
    assert h[9] == ip[9] == h0[9] && h[0] == ip[0] == h0[0];
    assert h[22..24] == UdpHeader(len)[2..4];
    var g := GtpHeader(len, teid);
    assert g[2..4] == U16(GtpLen(len)) && g[4..8] == U32(teid);
    assert h[28] == g[0] && h[29] == g[1] && h[30..32] == g[2..4] && h[32..36] == g[4..8];
  }

  lemma FrameFields(eth: Bytes, len: nat, teid: nat, local: Addr, pgw: Addr, inner: Bytes)
    requires |eth| == 14 && teid < P32
    ensures var f := eth + Outer(len, teid, local, pgw) + inner;
            && |f| == 50 + |inner| && f[14] == 0x45 && f[23] == 17 && f[26..30] == local && f[30..34] == pgw
            && GetU16(f, 36) == PORT && f[42] == 0x30 && f[43] == G_PDU && GetU32(f, 46) == teid
            && f[50..] == inner && f[..12] == eth[..12] && GetU16(f, 12) == GetU16(eth, 12)
  {
    var h := Outer(len, teid, local, pgw);
    var f := eth + h + inner;
    OuterFields(len, teid, local, pgw);
    assert f[14..50] == h;
    assert f[26..30] == h[12..16] && f[30..34] == h[16..20];
    assert f[36..38] == h[22..24] && f[46..50] == h[32..36];
    assert f[14] == h[0] && f[23] == h[9] && f[42] == h[28] && f[43] == h[29];
    Read16(f, 36, PORT);
    Read32(f, 46, teid);
  }

  /** A G-PDU without options and extensions, as XDP reads it. */
  ghost predicate Plain(f: Bytes, teid: nat, from: Addr, to: Addr) {
    && |f| >= 50 && GetU16(f, 12) == 0x0800 && f[14] == 0x45 && f[23] == 17 && f[26..30] == from && f[30..34] == to
    && GetU16(f, 36) == PORT && f[42] == 0x30 && f[43] == G_PDU && GetU32(f, 46) == teid
  }

  /** A source that the peer check lets through for this TEID. */
  predicate PeerPasses(c: Config, teid: nat, from: Addr)
    requires teid in c.teids
  {
    !c.checkPeer || Peer(c, teid) == [0, 0, 0, 0] || from == Peer(c, teid)
  }

  /** A plain G-PDU on the interface that has the local address. */
  lemma PlainVerdict(c: Config, f: Bytes, teid: nat, from: Addr, to: Addr)
    requires Plain(f, teid, from, to) && c.local == Some(to) && |f| >= 70 && f[50] == 0x45
    ensures Decap(c, f) == if teid !in c.teids then Pass
                           else if !PeerPasses(c, teid, from) || f[66..70] != Inner(c, teid) then Drop
                           else if c.adjusts then Stripped(f[..12] + [0x08, 0x00] + f[50..])
                           else Mangled(Copied(f, OUTER, [0x08, 0x00]))
  {}

  lemma PlainDropped(c: Config, f: Bytes, teid: nat, from: Addr, to: Addr)
    requires Plain(f, teid, from, to) && c.local == Some(to) && teid in c.teids && c.checkPeer
    requires Peer(c, teid) != from && Peer(c, teid) != [0, 0, 0, 0]
    ensures Decap(c, f) == Drop
  {}

  /** Encap and decap are inverse: the endpoint that the outer header addresses, knowing the
      TEID with the sender and the inner destination, hands on the inner packet unchanged. */
  lemma DecapUndoesEncap(c: Config, eth: Bytes, len: nat, teid: nat, local: Addr, pgw: Addr, inner: Bytes)
    requires |eth| == 14 && GetU16(eth, 12) == 0x0800 && OptionFree(inner) && teid < P32
    requires c.local == Some(pgw) && teid in c.teids
    requires Peer(c, teid) == local && Inner(c, teid) == inner[16..20]
    ensures var f := eth + Outer(len, teid, local, pgw) + inner;
            Decap(c, f) == if c.adjusts then Stripped(eth[..12] + [0x08, 0x00] + inner)
                           else Mangled(Copied(f, OUTER, [0x08, 0x00]))
  {
    var f := eth + Outer(len, teid, local, pgw) + inner;
    FrameFields(eth, len, teid, local, pgw, inner);
    assert f[66..70] == f[50..][16..20];
    assert f[50] == f[50..][0];
    PlainVerdict(c, f, teid, local, pgw);
  }

  /** From any other source the packet is dropped while the peer check is on. */
  lemma WrongPeerDropped(c: Config, eth: Bytes, len: nat, teid: nat, local: Addr, pgw: Addr, inner: Bytes)
    requires |eth| == 14 && GetU16(eth, 12) == 0x0800 && teid < P32
    requires c.local == Some(pgw) && teid in c.teids && c.checkPeer
    requires Peer(c, teid) != local && Peer(c, teid) != [0, 0, 0, 0]
    ensures Decap(c, eth + Outer(len, teid, local, pgw) + inner) == Drop
  {
    FrameFields(eth, len, teid, local, pgw, inner);
    PlainDropped(c, eth + Outer(len, teid, local, pgw) + inner, teid, local, pgw);
  }

  /** Where the inner packet starts, if the outer IP header has no options: behind four more
      octets when a GTP flag announces them. */
  function InnerAt(flags: byte): nat {
    if flags % 8 == 0 then 50 else 54
  }

  function TypeOf(first: byte): Bytes {
    if first / 16 == 4 then [0x08, 0x00] else [0x86, 0xDD]
  }

  /** What a frame must be to be handed on: IPv4 to our address, UDP to port 2152, a G-PDU on a
      known TEID, from its peer if peers are checked, with the UE's address where an inner
      header of that length has its destination. */
  ghost predicate Handed(c: Config, f: Bytes) {
    && |f| >= 34 && f[12..14] == [0x08, 0x00] && f[23] == 17 && c.local == Some(f[30..34])
    && var u: int := 14 + (f[14] % 16) * 4;
    && |f| >= u + 16 && f[u + 2..u + 4] == [8, 104] && f[u + 9] == 255
    && var teid, data := GetU32(f, u + 12), u + (if f[u + 8] % 8 == 0 then 16 else 20);
    && teid in c.teids
    && (c.checkPeer ==> Tft.Ip4Bytes(c.teids[teid].pgw) in [[0, 0, 0, 0], f[26..30]])
    && |f| >= data + 20 && f[data + 16..data + 20] == Tft.Ip4Bytes(c.teids[teid].paa)
  }

  lemma TwoOctets(f: Bytes, i: nat, a: byte, b: byte)
    requires i + 2 <= |f|
    ensures f[i..i + 2] == [a, b] <==> GetU16(f, i) == a * 256 + b
  {
    Shift(f[i], f[i + 1]);
    Shift(a, b);
  }

  /** Only such frames are handed on. Their first twelve octets stay, the type is that of the
      inner packet, and what follows starts at octet 50, or 54 with optional GTP fields. */
  lemma DecapStrips(c: Config, f: Bytes)
    requires Decap(c, f).Stripped?
    ensures Handed(c, f) &&
            var flags := f[14 + (f[14] % 16) * 4 + 8];
            var at := InnerAt(flags);
            && |f| > at && (f[at] / 16 == 4 || f[at] / 16 == 6)
            && Decap(c, f).frame == f[..12] + TypeOf(f[at]) + f[at..]
  {
    TwoOctets(f, 12, 0x08, 0x00);
    TwoOctets(f, 14 + (f[14] % 16) * 4 + 2, 8, 104);
  }

  /** The inner packet is handed on whole exactly if the outer IP header has no options: the
      length removed does not depend on its length. */
  lemma StripsInnerIff(c: Config, f: Bytes)
    requires Decap(c, f).Stripped?
    ensures Handed(c, f) &&
            var u: int := 14 + (f[14] % 16) * 4;
            var at, data := InnerAt(f[u + 8]), u + (if f[u + 8] % 8 == 0 then 16 else 20);
            Decap(c, f).frame == f[..12] + TypeOf(f[at]) + f[data..] <==> f[14] % 16 == 5
  {
    DecapStrips(c, f);
    var u: int := 14 + (f[14] % 16) * 4;
    var at, data := InnerAt(f[u + 8]), u + (if f[u + 8] % 8 == 0 then 16 else 20);
    assert |f[..12] + TypeOf(f[at]) + f[at..]| == 14 + |f| - at;
    assert |f[..12] + TypeOf(f[at]) + f[data..]| == 14 + |f| - data;
  }

  /** And such a frame without outer options is handed on, unless the inner packet is neither
      IPv4 nor IPv6; if the head cannot be moved it is passed as the copy left it. */
  lemma HandedIsStripped(c: Config, f: Bytes)
    requires Handed(c, f) && f[14] % 16 == 5
    ensures var at := InnerAt(f[42]);
            Decap(c, f) == if f[at] / 16 != 4 && f[at] / 16 != 6 then Pass
                           else if c.adjusts then Stripped(f[..12] + TypeOf(f[at]) + f[at..])
                           else Mangled(Copied(f, at - 14, TypeOf(f[at])))
  {
    TwoOctets(f, 12, 0x08, 0x00);
    TwoOctets(f, 36, 8, 104);
  }

  // ------------------------------------------------------- user-space parser

  datatype Packet = Packet(kind: byte, teid: nat, seqNo: nat, payload: Bytes)

  /** Walks the extension headers; None when one is truncated or has length zero. */
  function SkipExtensions(b: Bytes, end: nat, offset: nat, next: byte): Option<nat>
    requires offset <= end <= |b|
    decreases end - offset
  {
    if next == 0 then Some(offset)
    else if end < offset + 1 then None
    else
      var extLen: int := (b[offset] as int) * 4;
      if extLen == 0 || end < offset + extLen then None
      else SkipExtensions(b, end, offset + extLen, b[offset + extLen - 1])
  }

  function ParseGtpu(b: Bytes): Option<Packet> {
    if |b| < 8 || b[0] / 32 != 1 || b[0] / 16 % 2 == 0 || GetU16(b, 2) > |b| - 8 then None else
    var end := 8 + GetU16(b, 2);
    if b[0] % 8 == 0 then Some(Packet(b[1], GetU32(b, 4), 0, b[8..end]))
    else if end < 12 then None
    else
      match SkipExtensions(b, end, 12, b[11])
      case None => None
      case Some(offset) =>
        if offset > end then None else Some(Packet(b[1], GetU32(b, 4), GetU16(b, 8), b[offset..end]))
  }

  method SkipExtensionHeaders(b: Bytes, end: nat, first: byte) returns (r: Option<nat>)
    requires 12 <= end <= |b|
    ensures r == SkipExtensions(b, end, 12, first)
    ensures r.Some? ==> r.value <= end
  {
    var nextExt, offset := first, 12;
    while nextExt != 0
      invariant 12 <= offset <= end
      invariant SkipExtensions(b, end, 12, first) == SkipExtensions(b, end, offset, nextExt)
      decreases end - offset, nextExt
    {
      if end < offset + 1 { return None; }
      var extLen: int := (b[offset] as int) * 4;
      if extLen == 0 || end < offset + extLen { return None; }
      nextExt := b[offset + extLen - 1];
      offset := offset + extLen;
    }
    r := Some(offset);
  }

  method ParseGTPU(b: Bytes) returns (r: Option<Packet>)
    ensures r == ParseGtpu(b)
  {
    if |b| < 8 { return None; }
    if b[0] / 32 != 1 || b[0] / 16 % 2 == 0 { return None; }
    var length := GetU16(b, 2);
    if length > |b| - 8 { return None; }
    var end := 8 + length;
    if b[0] % 8 == 0 { return Some(Packet(b[1], GetU32(b, 4), 0, b[8..end])); }
    if end < 12 { return None; }
    var offset := SkipExtensionHeaders(b, end, b[11]);
    if offset.None? { return None; }
    r := Some(Packet(b[1], GetU32(b, 4), GetU16(b, 8), b[offset.value..end]));
  }

  lemma GtpFields(len: nat, teid: nat, rest: Bytes)
    requires len < P16 && teid < P32
    ensures var b := GtpHeader(len, teid) + rest;
            b[0] == 0x30 && b[1] == G_PDU && GetU16(b, 2) == len && GetU32(b, 4) == teid && b[8..] == rest
  {
    var b := GtpHeader(len, teid) + rest;
    assert b[2..4] == U16(GtpLen(len)) && b[4..8] == U32(teid);
    Read16(b, 2, len);
    Read32(b, 4, teid);
  }

  /** The user-space parser finds the TEID and the packet that the outer header announces. */
  lemma ParseUndoesEncap(len: nat, teid: nat, local: Addr, pgw: Addr, inner: Bytes)
    requires len <= |inner| && len < P16 && teid < P32
    ensures ParseGtpu((Outer(len, teid, local, pgw) + inner)[28..]) == Some(Packet(G_PDU, teid, 0, inner[..len]))
  {
    var b := GtpHeader(len, teid) + inner;
    assert (Outer(len, teid, local, pgw) + inner)[28..] == b;
    GtpFields(len, teid, inner);
    assert b[8..8 + len] == b[8..][..len];
  }

  /** A GTP-U extension header: its type, and what stands between its length and the type of
      the next one. */
  datatype Extension = Extension(kind: byte, body: Bytes)

  predicate ExtensionFits(x: Extension) {
    x.kind != 0 && (|x.body| + 2) % 4 == 0 && |x.body| + 2 <= 1020
  }

  predicate ExtensionsFit(xs: seq<Extension>) {
    forall i :: 0 <= i < |xs| ==> ExtensionFits(xs[i])
  }

  /** The type that announces a chain whose last type octet is `last`. */
  function FirstType(xs: seq<Extension>, last: byte): byte {
    if xs == [] then last else xs[0].kind
  }

  /** A length in units of four octets, the body, the next type. */
  function ExtensionBytes(x: Extension, next: byte): Bytes
    requires ExtensionFits(x)
  {
    [(|x.body| + 2) / 4] + x.body + [next]
  }

  function ChainBytes(xs: seq<Extension>, last: byte): Bytes
    requires ExtensionsFit(xs)
  {
    if xs == [] then [] else
    assert ExtensionFits(xs[0]);
    ExtensionBytes(xs[0], FirstType(xs[1..], last)) + ChainBytes(xs[1..], last)
  }

  lemma OneSkipped(b: Bytes, offset: nat, x: Extension, next: byte)
    requires ExtensionFits(x) && offset <= |b| && ExtensionBytes(x, next) <= b[offset..]
    ensures SkipExtensions(b, |b|, offset, x.kind) == SkipExtensions(b, |b|, offset + |x.body| + 2, next)
  {
    var w, n := ExtensionBytes(x, next), |x.body| + 2;
    assert |w| == n && n == 4 * (n / 4);
    assert b[offset] == w[0] && b[offset + n - 1] == w[n - 1] == next;
  }

  lemma NextInChain(b: Bytes, offset: nat, one: Bytes, more: Bytes)
    requires offset <= |b| && one + more <= b[offset..]
    ensures one <= b[offset..] && offset + |one| <= |b| && more <= b[offset + |one|..]
  {
    assert b[offset + |one|..] == b[offset..][|one|..];
    assert one == (one + more)[..|one|] && more == (one + more)[|one|..];
  }

  lemma ChainGoesOn(b: Bytes, offset: nat, xs: seq<Extension>, last: byte)
    requires ExtensionsFit(xs) && xs != [] && offset <= |b| && ChainBytes(xs, last) <= b[offset..]
    ensures var offset', more := offset + |xs[0].body| + 2, ChainBytes(xs[1..], last);
            offset' <= |b| && more <= b[offset'..] && offset + |ChainBytes(xs, last)| == offset' + |more|
    ensures ExtensionsFit(xs[1..])
  {
    assert ExtensionFits(xs[0]);
    NextInChain(b, offset, ExtensionBytes(xs[0], FirstType(xs[1..], last)), ChainBytes(xs[1..], last));
  }

  lemma StepInChain(b: Bytes, offset: nat, xs: seq<Extension>, last: byte, r: Option<nat>)
    requires ExtensionsFit(xs) && xs != [] && offset + |xs[0].body| + 2 <= |b| && ChainBytes(xs, last) <= b[offset..]
    requires SkipExtensions(b, |b|, offset + |xs[0].body| + 2, FirstType(xs[1..], last)) == r
    ensures SkipExtensions(b, |b|, offset, FirstType(xs, last)) == r
  {
    assert ExtensionFits(xs[0]);
    var next := FirstType(xs[1..], last);
    NextInChain(b, offset, ExtensionBytes(xs[0], next), ChainBytes(xs[1..], last));
    OneSkipped(b, offset, xs[0], next);
  }

  /** A whole chain is skipped, whatever follows. */
  lemma {:induction false} ChainSkipped(b: Bytes, offset: nat, xs: seq<Extension>, last: byte, end: nat, r: Option<nat>)
    requires ExtensionsFit(xs) && offset <= |b| && ChainBytes(xs, last) <= b[offset..]
    requires end == offset + |ChainBytes(xs, last)| && SkipExtensions(b, |b|, end, last) == r
    ensures SkipExtensions(b, |b|, offset, FirstType(xs, last)) == r
    decreases |xs|
  {
    if xs == [] {
    } else {
      var more, next := xs[1..], offset + |xs[0].body| + 2;
      ChainGoesOn(b, offset, xs, last);
      ChainSkipped(b, next, more, last, end, r);
      StepInChain(b, offset, xs, last, r);
    }
  }

  /** A chain ends with type zero, or is refused where it cannot go on. */
  lemma ChainEnds(b: Bytes, offset: nat, last: byte)
    requires offset <= |b|
    ensures last == 0 ==> SkipExtensions(b, |b|, offset, last) == Some(offset)
    ensures last != 0 && (offset == |b| || b[offset] == 0 || |b| < offset + 4 * (b[offset] as int)) ==>
              SkipExtensions(b, |b|, offset, last) == None
  {}

  /** What the parser makes of a header once the extensions are skipped. */
  lemma ParsedBehind(b: Bytes, offset: nat)
    requires |b| >= 12 && b[0] / 16 == 3 && b[0] % 8 != 0 && GetU16(b, 2) == |b| - 8 && 12 <= offset <= |b|
    ensures SkipExtensions(b, |b|, 12, b[11]) == Some(offset) ==>
              ParseGtpu(b) == Some(Packet(b[1], GetU32(b, 4), GetU16(b, 8), b[offset..]))
    ensures SkipExtensions(b, |b|, 12, b[11]) == None ==> ParseGtpu(b) == None
  {
    assert b[offset..|b|] == b[offset..];
  }

  /** The parser finds the payload behind any chain of extension headers, and refuses a chain
      that goes on with a length of zero or beyond the packet. */
  lemma ExtensionsParsed(b: Bytes, xs: seq<Extension>, last: byte)
    requires ExtensionsFit(xs) && |b| >= 12 && b[0] / 16 == 3 && b[0] % 8 != 0 && GetU16(b, 2) == |b| - 8
    requires b[11] == FirstType(xs, last) && ChainBytes(xs, last) <= b[12..]
    ensures var n := 12 + |ChainBytes(xs, last)|;
            && (last == 0 ==> ParseGtpu(b) == Some(Packet(b[1], GetU32(b, 4), GetU16(b, 8), b[n..])))
            && (last != 0 && (n == |b| || b[n] == 0 || |b| < n + 4 * (b[n] as int)) ==> ParseGtpu(b) == None)
  {
    var n := 12 + |ChainBytes(xs, last)|;
    ChainSkipped(b, 12, xs, last, n, SkipExtensions(b, |b|, n, last));
    ChainEnds(b, n, last);
    ParsedBehind(b, n);
  }

  function PathMessage(kind: byte, seqNo: nat, payload: Bytes): Bytes {
    [0x32, kind] + U16(4 + |payload|) + U32(0) + U16(seqNo) + [0, 0] + payload
  }

  /** encodePathMessage refuses what the length field cannot carry. */
  function EncodePathMessage(kind: byte, seqNo: nat, payload: Bytes): Option<Bytes> {
    if |payload| + 4 > 0xffff then None else Some(PathMessage(kind, seqNo, payload))
  }

  lemma PathTooLong(kind: byte, seqNo: nat, payload: Bytes)
    ensures EncodePathMessage(kind, seqNo, payload).None? <==> |payload| > 65531
  {}

  /** A path message has the sequence number flag set and no extension. */
  lemma PathRoundTrip(kind: byte, seqNo: nat, payload: Bytes)
    requires seqNo < P16 && EncodePathMessage(kind, seqNo, payload).Some?
    ensures ParseGtpu(EncodePathMessage(kind, seqNo, payload).value) == Some(Packet(kind, 0, seqNo, payload))
    ensures EncodePathMessage(kind, seqNo, payload).value[0] == 0x32
    ensures EncodePathMessage(kind, seqNo, payload).value[10..12] == [0, 0]
  {
    var b := PathMessage(kind, seqNo, payload);
    assert b[2..4] == U16(4 + |payload|) && b[4..8] == U32(0) && b[8..10] == U16(seqNo);
    Read16(b, 2, 4 + |payload|);
    Read32(b, 4, 0);
    Read16(b, 8, seqNo);
    assert b[12..] == payload;
    assert b[12..8 + (4 + |payload|)] == payload;
  }
}
