/** The XDP program with the maps that the GTP-U manager keeps: which downlink packets reach
    which UE. */
module DownlinkPath {
  import opened Octets
  import opened Tft
  import opened GtpuIndex
  import opened GtpuWire

  /** While index and teid_map agree with the sessions, as they do after every run, a G-PDU is
      handed on if and only if it comes on the local TEID of some session's bearer, from that
      bearer's PGW address (unless peers are not checked or that address is zero), and is
      addressed to that session's UE; the inner packet is unchanged if the frame's head can be
      moved. On a TEID of no bearer it is left to the kernel, otherwise it is
      dropped. */
  lemma DownlinkReachesOwner(st: State, c: Config, eth: Bytes, len: nat, teid: nat, from: GtpuWire.Addr, to: GtpuWire.Addr, inner: Bytes)
    requires Inverse(st.ix) && Mirrors(st) && c.teids == st.teids && c.local == Some(to)
    requires |eth| == 14 && GetU16(eth, 12) == 0x0800 && OptionFree(inner) && teid < P32
    ensures var f := eth + Outer(len, teid, from, to) + inner;
            var v := Decap(c, f);
            && ((exists id, ebi :: Receives(st.ix, id, ebi, teid)) <==> v != Pass)
            && (forall id, ebi :: Receives(st.ix, id, ebi, teid) ==>
                  var pgw := st.ix.sessions[id].bearers[ebi].pgw;
                  pgw.V4? &&
                  v == if c.checkPeer && Ip4Bytes(pgw.ip) != [0, 0, 0, 0] && from != Ip4Bytes(pgw.ip) then Drop
                       else if inner[16..20] != Ip4Bytes(st.ix.sessions[id].paa) then Drop
                       else if c.adjusts then Stripped(eth[..12] + [0x08, 0x00] + inner)
                       else Mangled(Copied(f, OUTER, [0x08, 0x00])))
  {
    var f := eth + Outer(len, teid, from, to) + inner;
    FrameFields(eth, len, teid, from, to, inner);
    assert f[66..70] == f[50..][16..20] && f[50] == f[50..][0];
    PlainVerdict(c, f, teid, from, to);
    if teid in st.ix.byLocal { Owner(st.ix, teid); }
    forall id, ebi | Receives(st.ix, id, ebi, teid)
      ensures teid in st.ix.byLocal && st.ix.byLocal[teid] == Ref(id, ebi)
    {
      assert Points(st.ix, id, ebi, teid);
    }
  }
}
