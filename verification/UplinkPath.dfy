/** The TC program as a whole: from the octets of a UE's packet to the GTP-U packet on S2b. */
module UplinkPath {
  import opened Octets
  import opened Tft
  import opened TcRules
  import opened TcTable
  import GtpuWire

  /** What the program reads off an option-free IPv4 packet; TCP and UDP have ports if the
      packet is long enough to carry them. */
  function PacketOf(b: Bytes): Packet
    requires |b| >= 20
  {
    Packet(Ip4At(b, 12), Ip4At(b, 16), b[9],
           if (b[9] == 6 || b[9] == 17) && |b| >= 24 then Some((GetU16(b, 20), GetU16(b, 22))) else None)
  }

  function Encapsulated(e: UeEntry, teid: nat, inner: Bytes): Bytes
    requires |inner| >= 20
  {
    GtpuWire.Outer(GetU16(inner, 2), teid, Ip4Bytes(e.local), Ip4Bytes(e.pgw)) + inner
  }

  /** What becomes of a packet: the kernel goes on with it, it leaves by an interface towards a
      next hop, or it is dropped. */
  datatype TcVerdict = TcOk(frame: Bytes) | Redirect(ifindex: nat, nextHop: Ip4, frame: Bytes) | Shot

  /** The packets that the program encapsulates. */
  predicate FromUe(m: Maps, protocol: nat, inner: Bytes) {
    protocol == 0x0800 && GtpuWire.OptionFree(inner) && PacketOf(inner).src in m.ue
  }

  /** tc_gtpu_encap_func. Packets of unknown UEs and packets that are not option-free IPv4 are
      left to the kernel unchanged, and so is a packet whose room cannot be opened; `fails` names
      failing helper calls, 0 to 4 those of the rewriting and 5 the redirect. */
  method TcGtpuEncap(m: Maps, protocol: nat, inner: Bytes, at: nat, room: Bytes, fails: set<nat>) returns (v: TcVerdict)
    requires at <= 20 && |room| == GtpuWire.OUTER
    ensures !FromUe(m, protocol, inner) || 0 in fails ==> v == TcOk(inner)
    ensures v.Redirect? <==> FromUe(m, protocol, inner) && {0, 1, 2, 3, 4, 5} !! fails
    ensures v.Shot? <==> FromUe(m, protocol, inner) && {0, 1, 2, 3, 4} !! fails && 5 in fails
    ensures v.Redirect? ==>
              var p := PacketOf(inner);
              var e := m.ue[p.src];
              Classify(m, p).Some? && v == Redirect(e.ifindex, e.pgw, Encapsulated(e, Classify(m, p).value, inner))
    ensures v.TcOk? ==> v.frame == inner || |v.frame| == |inner| + GtpuWire.OUTER
  {
    if protocol != 0x0800 || |inner| < 20 { return TcOk(inner); }
    var p := PacketOf(inner);
    if p.src !in m.ue { return TcOk(inner); }
    if inner[0] != 0x45 { return TcOk(inner); }
    var teid := SelectTeid(m, p);
    var e := m.ue[p.src];
    var ok, frame := GtpuWire.Encap(inner, teid.value, Ip4Bytes(e.local), Ip4Bytes(e.pgw), at, room, fails);
    if !ok { return TcOk(frame); }
    if 5 in fails { return Shot; }
    v := Redirect(e.ifindex, e.pgw, frame);
  }

  predicate TeidsFit(s: Uplinks) {
    s.defaultTeid < P32 && forall e :: e in s.bearers ==> s.bearers[e].teid < P32
  }

  lemma ChoiceFits(s: Uplinks, p: Packet, teid: nat)
    requires TeidsFit(s) && IsChoice(s, p, teid)
    ensures teid < P32
  {
    if b, f :| Best(s, p, b, f) && teid == b.teid {
      assert Candidate(s, p, b, f);
      var e :| e in s.bearers && s.bearers[e] == b;
    }
  }

  // ------------------------------------------------ the octets of a packet

  /** An option-free IPv4 datagram: eight octets from version to fragment offset, time to live,
      protocol, header checksum, the two addresses and the payload. */
  function Datagram(pre: Bytes, ttl: byte, protocol: byte, sum: Bytes, src: Ip4, dst: Ip4, body: Bytes): (b: Bytes)
    requires |pre| == 8 && |sum| == 2
    ensures |b| == 20 + |body|
  {
    pre + [ttl, protocol] + sum + Ip4Bytes(src) + Ip4Bytes(dst) + body
  }

  lemma DatagramFields(pre: Bytes, ttl: byte, protocol: byte, sum: Bytes, src: Ip4, dst: Ip4, body: Bytes)
    requires |pre| == 8 && |sum| == 2
    ensures var b := Datagram(pre, ttl, protocol, sum, src, dst, body);
            && b[..8] == pre && b[9] == protocol && b[20..] == body && Ip4At(b, 12) == src && Ip4At(b, 16) == dst
  {
    var b := Datagram(pre, ttl, protocol, sum, src, dst, body);
    assert b[12..16] == Ip4Bytes(src) && b[16..20] == Ip4Bytes(dst);
    Ip4RoundTrip(src, b, 12);
    Ip4RoundTrip(dst, b, 16);
  }

  function Word(high: byte, low: byte): nat {
    (high as int) * 256 + (low as int)
  }

  /** The packet that a datagram is: for TCP and UDP with at least four octets of payload, the
      first two are the source port and the next two the destination port. */
  function Described(protocol: byte, src: Ip4, dst: Ip4, body: Bytes): Packet {
    Packet(src, dst, protocol,
           if protocol in {6, 17} && |body| >= 4
           then Some((Word(body[0], body[1]), Word(body[2], body[3]))) else None)
  }

  /** The program reads every datagram as what it is. */
  lemma DatagramRead(pre: Bytes, ttl: byte, protocol: byte, sum: Bytes, src: Ip4, dst: Ip4, body: Bytes)
    requires |pre| == 8 && |sum| == 2
    ensures PacketOf(Datagram(pre, ttl, protocol, sum, src, dst, body)) == Described(protocol, src, dst, body)
  {
    var b := Datagram(pre, ttl, protocol, sum, src, dst, body);
    DatagramFields(pre, ttl, protocol, sum, src, dst, body);
    if |body| >= 4 {
      assert b[20] == b[20..][0] && b[21] == b[20..][1] && b[22] == b[20..][2] && b[23] == b[20..][3];
    }
  }

  /** A payload that starts with encoded ports is read as those ports, source first. */
  lemma PortsRead(pre: Bytes, ttl: byte, protocol: byte, sum: Bytes, src: Ip4, dst: Ip4, sport: nat, dport: nat, rest: Bytes)
    requires |pre| == 8 && |sum| == 2 && sport < P16 && dport < P16
    ensures PacketOf(Datagram(pre, ttl, protocol, sum, src, dst, U16(sport) + U16(dport) + rest))
            == Packet(src, dst, protocol, if protocol in {6, 17} then Some((sport, dport)) else None)
  {
    var body := U16(sport) + U16(dport) + rest;
    DatagramRead(pre, ttl, protocol, sum, src, dst, body);
    assert body[..2] == U16(sport) && body[2..4] == U16(dport);
    Read16(body, 0, sport);
    Read16(body, 2, dport);
  }

  lemma Carried(e: UeEntry, teid: nat, inner: Bytes)
    requires |inner| >= 20 && GetU16(inner, 2) == |inner| && teid < P32
    ensures var out := Encapsulated(e, teid, inner);
            && out[12..16] == Ip4Bytes(e.local) && out[16..20] == Ip4Bytes(e.pgw)
            && GtpuWire.ParseGtpu(out[28..]) == Some(GtpuWire.Packet(255, teid, 0, inner))
  {
    GtpuWire.ParseUndoesEncap(|inner|, teid, Ip4Bytes(e.local), Ip4Bytes(e.pgw), inner);
    GtpuWire.OuterFields(|inner|, teid, Ip4Bytes(e.local), Ip4Bytes(e.pgw));
    var h := GtpuWire.Outer(|inner|, teid, Ip4Bytes(e.local), Ip4Bytes(e.pgw));
    assert (h + inner)[12..16] == h[12..16] && (h + inner)[16..20] == h[16..20];
    assert inner[..|inner|] == inner;
  }

  /** From filters and octets to the wire: once the session's compiled rules are in the table,
      every datagram of the UE leaves in a GTP-U packet from our address to the PGW that carries
      it unchanged, under the TEID of a best matching filter's bearer, or of the default bearer
      if no filter matches. */
  lemma UplinkEndToEnd(s: Uplinks, order: seq<byte>, m: Maps, pre: Bytes, ttl: byte, protocol: byte, sum: Bytes,
                       src: Ip4, dst: Ip4, body: Bytes)
    requires IsOrder(s, order) && |Compile(s, order)| <= 32 && TeidsFit(s)
    requires |pre| == 8 && |sum| == 2 && pre[0] == 0x45 && Word(pre[2], pre[3]) == 20 + |body|
    requires src in m.ue && NewTable(s.defaultTeid, m, src, Compile(s, order))
    ensures var p := Described(protocol, src, dst, body);
            var inner := Datagram(pre, ttl, protocol, sum, src, dst, body);
            FromUe(m, 0x0800, inner) && Classify(m, PacketOf(inner)).Some? &&
            var teid := Classify(m, PacketOf(inner)).value;
            var out := Encapsulated(m.ue[src], teid, inner);
            && IsChoice(s, p, teid) && out[12..16] == Ip4Bytes(m.ue[src].local) && out[16..20] == Ip4Bytes(m.ue[src].pgw)
            && GtpuWire.ParseGtpu(out[28..]) == Some(GtpuWire.Packet(255, teid, 0, inner))
  {
    var p := Described(protocol, src, dst, body);
    var inner := Datagram(pre, ttl, protocol, sum, src, dst, body);
    DatagramFields(pre, ttl, protocol, sum, src, dst, body);
    DatagramRead(pre, ttl, protocol, sum, src, dst, body);
    assert inner[0] == inner[..8][0] && inner[2] == inner[..8][2] && inner[3] == inner[..8][3];
    MeaningPreserved(s, order, p);
    var teid := Classify(m, p).value;
    ChoiceFits(s, p, teid);
    Carried(m.ue[src], teid, inner);
  }
}
