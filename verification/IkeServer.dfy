/** The handlers as they are written: in-place updates of the SA table, the session table
    and the kernel, one call at a time, proved against the functions of IkeLifecycle. */
module IkeServer {
  import opened Octets
  import opened IkeLifecycle
  import opened XfrmDeletes
  import opened SessionFsm

  datatype Direction = In | Fwd | Out

  /** An XFRM policy, identified by direction and the UE's traffic selector. */
  datatype Policy = Policy(dir: Direction, remoteTs: nat)

  datatype Call = AddInbound | AddOutbound | AddPolicy(dir: Direction)

  predicate PoliciesAddable(ts: nat, refused: set<Call>, policies: set<Policy>) {
    && {AddPolicy(In), AddPolicy(Fwd), AddPolicy(Out)} !! refused
    && {Policy(In, ts), Policy(Fwd, ts), Policy(Out, ts)} !! policies
  }

  /** Adds that must fail: those the kernel refuses, and those of a stuck state. */
  function Prevented(stuck: set<EspState>, local: Option<Ip>, remote: Ip, c: Child, refused: set<Call>): Faults {
    Faults(AddInbound in refused || (local.Some? && Inbound(local.value, remote, c) in stuck),
           AddOutbound in refused || (local.Some? && Outbound(local.value, remote, c) in stuck),
           false)
  }

  /** The policies after removing those of a CHILD SA, as deletes `first` to `first + 2`. */
  function PoliciesAfter(policies: set<Policy>, failing: set<nat>, first: nat, ts: nat): set<Policy> {
    policies - (if first in failing then {} else {Policy(Out, ts)})
    - (if first + 1 in failing then {} else {Policy(Fwd, ts)})
    - (if first + 2 in failing then {} else {Policy(In, ts)})
  }

  /** The policies after a teardown of the SA. */
  function PoliciesRemoved(policies: set<Policy>, failing: set<nat>, first: nat, sa: IkeSa, ts: nat): set<Policy> {
    if Removable(sa) then PoliciesAfter(policies, failing, first, ts) else policies
  }

  /** How many policies were added when the adds stop, and so how many deletes undo them. */
  function PolicyUndos(ts: nat, refused: set<Call>, policies: set<Policy>): nat {
    if AddPolicy(In) in refused || Policy(In, ts) in policies then 0
    else if AddPolicy(Fwd) in refused || Policy(Fwd, ts) in policies then 1
    else 2
  }

  /** The policies when those added have been undone, as deletes `first` and following. */
  function PoliciesUndone(policies: set<Policy>, failing: set<nat>, first: nat, ts: nat, undos: nat): set<Policy> {
    if undos == 0 then policies
    else if undos == 1 then policies + (if first in failing then {Policy(In, ts)} else {})
    else policies + (if first in failing then {Policy(Fwd, ts)} else {})
         + (if first + 1 in failing then {Policy(In, ts)} else {})
  }

  /** Of the policies of a CHILD SA each goes with its own delete, unless that is refused; no
      other does. */
  lemma PoliciesAfterAt(policies: set<Policy>, failing: set<nat>, first: nat, p: Policy, ts: nat)
    ensures p in PoliciesAfter(policies, failing, first, ts)
            <==> p in policies && (p.remoteTs == ts ==> first + (match p.dir case Out => 0 case Fwd => 1 case In => 2) in failing)
  {}

  /** And of the policies that a failed install added, those whose undo delete is refused stay. */
  lemma PoliciesUndoneAt(policies: set<Policy>, failing: set<nat>, first: nat, p: Policy, ts: nat, refused: set<Call>)
    ensures var undos := PolicyUndos(ts, refused, policies);
            && undos <= 2
            && (undos >= 1 <==> AddPolicy(In) !in refused && Policy(In, ts) !in policies)
            && (undos == 2 <==> undos >= 1 && AddPolicy(Fwd) !in refused && Policy(Fwd, ts) !in policies)
            && (p in PoliciesUndone(policies, failing, first, ts, undos)
                <==> p in policies || (p == Policy(In, ts) && undos >= 1 && first + undos - 1 in failing)
                     || (p == Policy(Fwd, ts) && undos == 2 && first in failing))
  {}

  /** The kernel as the functions here take it. */
  datatype Xfrm = Xfrm(t: Tables, policies: set<Policy>, deletes: nat, failing: set<nat>)

  /** The SA that the implicit detach tears down. */
  ghost function Target(s: State, spi: nat, imsi: string, apn: string): (t: Option<nat>)
    ensures t.Some? ==> t.value in s.sas && t.value != spi
  {
    var found := FindSingleActive(s, imsi, apn);
    if found.None? then None else
    var other := s.sessions[found.value].ikeSpiI;
    if other !in s.sas || other == spi then None else Some(other)
  }

  /** The kernel after the detach, but for the delete count. */
  ghost function Detached(s: State, k: Xfrm, spi: nat, imsi: string, apn: string, ts: nat): Xfrm {
    match Target(s, spi, imsi, apn)
    case None => k
    case Some(other) =>
      k.(t := AfterAll(k.t, k.failing, TeardownDeletes(s.sas[other], k.deletes)),
         policies := PoliciesRemoved(k.policies, k.failing, k.deletes, s.sas[other], ts))
  }

  function Moved(s: State, spi: nat, remote: Ip): State
    requires spi in s.sas
  {
    s.(sas := s.sas[spi := s.sas[spi].(remote := remote)])
  }

  /** The faults of the final round: adds that the kernel refuses or a stuck state prevents, and
      policies that cannot be added, all after the detach. `otherTs` is the detached UE's
      selector. */
  ghost function FinalFaults(s: State, k: Xfrm, spi: nat, localSpi: nat, ts: nat, otherTs: nat, refused: set<Call>): Faults
    requires spi in s.sas
  {
    var sa := s.sas[spi];
    var k1 := if sa.handover then k else Detached(s, k, spi, sa.imsi, sa.apn, otherTs);
    Prevented(k1.t.stuck, sa.localIp, sa.remote, sa.cur.(inSpi := localSpi), refused)
      .(policies := !PoliciesAddable(ts, refused, k1.policies))
  }

  function EapBegun(sessions: map<SessionId, Session>, id: SessionId, r: Round1): Session {
    var found := if id in sessions then sessions[id] else Session("", "", 0, 0, Child(0, 0), New, false);
    found.(imsi := r.imsi, apn := r.apn, ikeSpiI := id.spiI, ikeSpiR := id.spiR,
           phase := Transition(found.phase, EapAuthenticating))
  }

  function Round1Sa(sa: IkeSa, remote: Ip, r: Round1): IkeSa {
    if !r.parsed then sa.(remote := remote)
    else if !r.proposalOk then sa.(remote := remote, imsi := r.imsi, apn := r.apn)
    else
      sa.(remote := remote, imsi := r.imsi, apn := r.apn, esp := sa.esp || r.espSpi.Some?,
          cur := if r.espSpi.Some? then sa.cur.(outSpi := r.espSpi.value) else sa.cur,
          handover := sa.handover || r.handover,
          sessionId := Some(SessionId(sa.spiI, sa.spiR)),
          eapRound := if r.swmAnswers then 1 else 0)
  }

  lemma Round1Is(s: State, spi: nat, remote: Ip, r: Round1)
    requires spi in s.sas && s.sas[spi].phase == Auth && s.sas[spi].eapRound == 0
    ensures var id := SessionId(s.sas[spi].spiI, s.sas[spi].spiR);
            AuthRound1(s, spi, remote, r)
            == s.(sas := s.sas[spi := Round1Sa(s.sas[spi], remote, r)],
                  sessions := if r.parsed && r.proposalOk then s.sessions[id := EapBegun(s.sessions, id, r)]
                              else s.sessions)
  {}

  /** Kernel XFRM tables and the package's record of inbound SPIs. `refused` names the adds that
      fail although the object does not exist yet; `failing` the deletes, by their number. */
  class Kernel {
    var states: set<EspState>
    var policies: set<Policy>
    var inboundSpis: set<nat>
    var deletes: nat
    const failing: set<nat>
    /** States whose last delete was refused: still in the kernel, and given up by the program. */
    ghost var stuck: set<EspState>

    ghost predicate Valid()
      reads this
    {
      stuck <= states
    }

    ghost function T(): Tables
      reads this
    {
      Tables(states, stuck)
    }

    ghost function Snapshot(): Xfrm
      reads this
    {
      Xfrm(T(), policies, deletes, failing)
    }

    /** What the program believes to be in the kernel. */
    ghost function Kept(): set<EspState>
      reads this
    {
      states - stuck
    }

    /** Every delete since number `first` succeeded. */
    ghost predicate Worked(first: nat)
      reads this
    {
      forall n: nat :: first <= n < deletes ==> n !in failing
    }

    ghost function AddFaults(local: Option<Ip>, remote: Ip, c: Child, refused: set<Call>): Faults
      reads this
    {
      Prevented(stuck, local, remote, c, refused)
    }

    constructor (failing: set<nat>)
      ensures states == {} && policies == {} && inboundSpis == {} && stuck == {} && deletes == 0
      ensures this.failing == failing
    {
      states, policies, inboundSpis, deletes, stuck := {}, {}, {}, 0, {};
      this.failing := failing;
    }

    method StateAdd(st: EspState, refuse: bool) returns (ok: bool)
      modifies this`states
      ensures ok == (!refuse && st !in old(states))
      ensures states == if ok then old(states) + {st} else old(states)
    {
      ok := !refuse && st !in states;
      if ok { states := states + {st}; }
    }

    /** Deleting a state that does not exist is an error too. */
    method StateDel(st: EspState) returns (ok: bool)
      requires Valid()
      modifies this`states, this`stuck, this`deletes
      ensures Valid() && deletes == old(deletes) + 1
      ensures ok == (old(deletes) !in failing && st in old(states))
      ensures T() == After(old(T()), failing, Delete(old(deletes), st)) && Kept() == old(Kept()) - {st}
    {
      ok := deletes !in failing && st in states;
      if deletes !in failing {
        states, stuck := states - {st}, stuck - {st};
      } else {
        stuck := stuck + ({st} * states);
      }
      deletes := deletes + 1;
    }

    method PolicyAdd(p: Policy, refuse: bool) returns (ok: bool)
      modifies this`policies
      ensures ok == (!refuse && p !in old(policies))
      ensures policies == if ok then old(policies) + {p} else old(policies)
    {
      ok := !refuse && p !in policies;
      if ok { policies := policies + {p}; }
    }

    method PolicyDel(p: Policy) returns (ok: bool)
      modifies this`policies, this`deletes
      ensures ok == (old(deletes) !in failing && p in old(policies)) && deletes == old(deletes) + 1
      ensures policies == if old(deletes) in failing then old(policies) else old(policies) - {p}
    {
      ok := deletes !in failing && p in policies;
      if deletes !in failing { policies := policies - {p}; }
      deletes := deletes + 1;
    }

    /** Takes both states back after a failed add. */
    method Undo(inbound: EspState, outbound: EspState)
      requires Valid()
      modifies this`states, this`stuck, this`deletes
      ensures Valid() && deletes == old(deletes) + 2 && Kept() == old(Kept()) - {inbound, outbound}
      ensures T() == AfterAll(old(T()), failing, [Delete(old(deletes), inbound), Delete(old(deletes) + 1, outbound)])
      ensures Worked(old(deletes)) ==> states == old(states) - {inbound, outbound} && stuck == old(stuck) - {inbound, outbound}
    {
      AfterTwo(T(), failing, Delete(deletes, inbound), Delete(deletes + 1, outbound));
      var _ := StateDel(inbound);
      var _ := StateDel(outbound);
    }

    /** Only the first of the two adds works. */
    ghost predicate HalfAdded(local: Option<Ip>, remote: Ip, c: Child, refused: set<Call>)
      reads this
    {
      && Resolves(local, remote) && AddInbound !in refused && Inbound(local.value, remote, c) !in states
      && !AddSucceeds(Kept(), local, remote, c, AddFaults(local, remote, c, refused))
    }

    /** All of a CHILD SA or nothing: whichever of the five calls fails, the earlier ones are
        undone, each under its delete number. The tables are as before if no undo delete was
        refused. */
    method InstallChildSA(local: Option<Ip>, remote: Ip, c: Child, ts: nat, refused: set<Call>) returns (ok: bool)
      requires Valid()
      modifies this
      ensures Valid() && old(deletes) <= deletes
      ensures var added := AddSucceeds(old(Kept()), local, remote, c, old(AddFaults(local, remote, c, refused)));
              var undos := PolicyUndos(ts, refused, old(policies));
              && ok == (added && PoliciesAddable(ts, refused, old(policies)))
              && (!added ==> policies == old(policies))
              && (!added && !old(HalfAdded(local, remote, c, refused)) ==> T() == old(T()))
              && (added && !ok ==>
                    && policies == PoliciesUndone(old(policies), failing, old(deletes), ts, undos)
                    && T() == AfterAll(Tables(old(states) + PairStates(local, remote, c), old(stuck)), failing,
                                       [Delete(old(deletes) + undos, Inbound(local.value, remote, c)),
                                        Delete(old(deletes) + undos + 1, Outbound(local.value, remote, c))]))
      ensures ok ==> states == old(states) + PairStates(local, remote, c) && stuck == old(stuck) && deletes == old(deletes)
      ensures ok ==> policies == old(policies) + {Policy(In, ts), Policy(Fwd, ts), Policy(Out, ts)}
      ensures ok ==> inboundSpis == old(inboundSpis) + {c.inSpi}
      ensures !ok ==> Kept() == old(Kept())
      ensures old(HalfAdded(local, remote, c, refused)) ==>
                T() == After(Tables(old(states) + {Inbound(local.value, remote, c)}, old(stuck)), failing,
                             Delete(old(deletes), Inbound(local.value, remote, c)))
      ensures !ok && Worked(old(deletes)) ==> states == old(states) && stuck == old(stuck) && policies == old(policies)
      ensures !ok && c.inSpi !in old(inboundSpis) ==> inboundSpis == old(inboundSpis)
    {
      if !Resolves(local, remote) { return false; }
      ok := AddChildSAStates(local, remote, c, refused);
      if !ok { return; }
      var inbound, outbound := Inbound(local.value, remote, c), Outbound(local.value, remote, c);
      ok := AddPolicies(ts, refused);
      if !ok {
        Undo(inbound, outbound);
        inboundSpis := inboundSpis - {c.inSpi};
      }
    }

    /** The three policies in their order; a failing add deletes the ones before it. */
    method AddPolicies(ts: nat, refused: set<Call>) returns (ok: bool)
      modifies this`policies, this`deletes
      ensures ok == PoliciesAddable(ts, refused, old(policies))
      ensures ok ==> policies == old(policies) + {Policy(In, ts), Policy(Fwd, ts), Policy(Out, ts)}
      ensures ok ==> deletes == old(deletes)
      ensures !ok ==> var undos := PolicyUndos(ts, refused, old(policies));
                      && deletes == old(deletes) + undos
                      && policies == PoliciesUndone(old(policies), failing, old(deletes), ts, undos)
      ensures !ok && Worked(old(deletes)) ==> policies == old(policies)
    {
      ok := PolicyAdd(Policy(In, ts), AddPolicy(In) in refused);
      if !ok { return; }
      ok := PolicyAdd(Policy(Fwd, ts), AddPolicy(Fwd) in refused);
      if !ok {
        var _ := PolicyDel(Policy(In, ts));
        return;
      }
      ok := PolicyAdd(Policy(Out, ts), AddPolicy(Out) in refused);
      if !ok {
        var _ := PolicyDel(Policy(Fwd, ts));
        var _ := PolicyDel(Policy(In, ts));
      }
    }

    method AddChildSAStates(local: Option<Ip>, remote: Ip, c: Child, refused: set<Call>) returns (ok: bool)
      requires Valid()
      modifies this`states, this`inboundSpis, this`stuck, this`deletes
      ensures Valid() && old(deletes) <= deletes
      ensures ok == AddSucceeds(old(Kept()), local, remote, c, old(AddFaults(local, remote, c, refused)))
      ensures ok ==> states == old(states) + PairStates(local, remote, c) && stuck == old(stuck) && deletes == old(deletes)
      ensures ok ==> inboundSpis == old(inboundSpis) + {c.inSpi}
      ensures !ok ==> Kept() == old(Kept())
      ensures !ok && !old(HalfAdded(local, remote, c, refused)) ==> T() == old(T()) && deletes == old(deletes)
      ensures old(HalfAdded(local, remote, c, refused)) ==>
                && deletes == old(deletes) + 1
                && T() == After(Tables(old(states) + {Inbound(local.value, remote, c)}, old(stuck)), failing,
                                Delete(old(deletes), Inbound(local.value, remote, c)))
      ensures !ok && Worked(old(deletes)) ==> states == old(states) && stuck == old(stuck)
      ensures !ok && c.inSpi !in old(inboundSpis) ==> inboundSpis == old(inboundSpis)
    {
      if !Resolves(local, remote) { return false; }
      var inbound, outbound := Inbound(local.value, remote, c), Outbound(local.value, remote, c);
      ok := StateAdd(inbound, AddInbound in refused);
      if !ok { return; }
      inboundSpis := inboundSpis + {c.inSpi};
      ok := StateAdd(outbound, AddOutbound in refused);
      if !ok {
        var _ := StateDel(inbound);
        inboundSpis := inboundSpis - {c.inSpi};
      }
    }

    /** Both deletes are made whatever the first gives; `ok` says that both worked. */
    method RemoveChildSAStates(local: Option<Ip>, remote: Ip, c: Child) returns (ok: bool)
      requires Valid()
      modifies this`states, this`inboundSpis, this`stuck, this`deletes
      ensures Valid() && deletes == old(deletes) + (if Resolves(local, remote) then 2 else 0)
      ensures T() == AfterAll(old(T()), failing, PairDeletes(local, remote, c, old(deletes)))
      ensures Kept() == old(Kept()) - PairStates(local, remote, c)
      ensures Worked(old(deletes)) ==> states == old(states) - PairStates(local, remote, c) && stuck <= old(stuck)
      ensures ok ==> Worked(old(deletes)) && Resolves(local, remote) && PairStates(local, remote, c) <= old(states)
      ensures Resolves(local, remote) ==> inboundSpis == old(inboundSpis) - {c.inSpi}
    {
      if !Resolves(local, remote) { return false; }
      var outbound, inbound := Outbound(local.value, remote, c), Inbound(local.value, remote, c);
      AfterTwo(T(), failing, Delete(deletes, outbound), Delete(deletes + 1, inbound));
      var out := StateDel(outbound);
      var inb := StateDel(inbound);
      inboundSpis := inboundSpis - {c.inSpi};
      ok := out && inb;
    }

    method RemoveChildSA(local: Option<Ip>, remote: Ip, c: Child, ts: nat) returns (ok: bool)
      requires Valid()
      modifies this
      ensures Valid() && deletes == old(deletes) + (if Resolves(local, remote) then 5 else 0)
      ensures T() == AfterAll(old(T()), failing, PairDeletes(local, remote, c, old(deletes) + 3))
      ensures policies == if Resolves(local, remote) then PoliciesAfter(old(policies), failing, old(deletes), ts)
                          else old(policies)
      ensures Kept() == old(Kept()) - PairStates(local, remote, c)
      ensures Worked(old(deletes)) ==> states == old(states) - PairStates(local, remote, c) && stuck <= old(stuck)
      ensures ok ==> Worked(old(deletes)) && Resolves(local, remote) && PairStates(local, remote, c) <= old(states)
    {
      if !Resolves(local, remote) { return false; }
      var outPol := PolicyDel(Policy(Out, ts));
      var fwdPol := PolicyDel(Policy(Fwd, ts));
      var inPol := PolicyDel(Policy(In, ts));
      var both := RemoveChildSAStates(local, remote, c);
      ok := outPol && fwdPol && inPol && both;
    }
  }

  class Server {
    const xfrm: Kernel
    var sas: map<nat, IkeSa>
    var sessions: map<SessionId, Session>
    ghost var live: set<nat>
    ghost var used: set<nat>

    /** The abstract state these fields stand for. */
    ghost function View(): State
      reads this, xfrm
    {
      State(sas, sessions, xfrm.Kept(), live, used)
    }

    constructor (failing: set<nat>)
      ensures View() == Init && fresh(xfrm) && xfrm.Valid()
      ensures xfrm.Snapshot() == Xfrm(Tables({}, {}), {}, 0, failing)
    {
      xfrm := new Kernel(failing);
      sas, sessions, live, used := map[], map[], {}, {};
    }

    /** storeSA at the end of handleIKESAInit. */
    method StoreSa(spiI: nat, spiR: nat, remote: Ip, localIp: Option<Ip>)
      modifies this
      ensures View() == SaInit(old(View()), spiI, spiR, remote, localIp)
    {
      sas := sas[spiI := InitSa(spiI, spiR, remote, localIp)];
      live, used := live - {spiI}, used + {spiI};
    }

    /** The SA's session, found or created, enters EAP. */
    method BeginEap(id: SessionId, r: Round1)
      modifies this`sessions
      ensures sessions == old(sessions)[id := EapBegun(old(sessions), id, r)]
    {
      var sess := Session("", "", 0, 0, Child(0, 0), New, false);
      if id in sessions { sess := sessions[id]; }
      sess := sess.(imsi := r.imsi, apn := r.apn, ikeSpiI := id.spiI, ikeSpiR := id.spiR);
      sessions := sessions[id := sess.(phase := Transition(sess.phase, EapAuthenticating))];
    }

    /** What the first round puts into the record, as far as it gets. */
    method FillIn(sa0: IkeSa, remote: Ip, r: Round1) returns (sa: IkeSa)
      ensures sa == Round1Sa(sa0, remote, r)
    {
      sa := sa0.(remote := remote);
      if !r.parsed { return; }
      sa := sa.(imsi := r.imsi, apn := r.apn);
      if !r.proposalOk { return; }
      if r.espSpi.Some? { sa := sa.(esp := true, cur := sa.cur.(outSpi := r.espSpi.value)); }
      if r.handover { sa := sa.(handover := true); }
      sa := sa.(sessionId := Some(SessionId(sa.spiI, sa.spiR)));
      sa := sa.(eapRound := if r.swmAnswers then 1 else 0);
    }

    /** handleAuthRound1 up to the SWm answer: the record, then the session. */
    method HandleAuthRound1(spi: nat, remote: Ip, r: Round1)
      modifies this`sas, this`sessions
      ensures View() == AuthRound1(old(View()), spi, remote, r)
    {
      if spi !in sas || sas[spi].phase != Auth || sas[spi].eapRound != 0 { return; }
      Round1Is(View(), spi, remote, r);
      var sa := FillIn(sas[spi], remote, r);
      sas := sas[spi := sa];
      if r.parsed && r.proposalOk { BeginEap(SessionId(sa.spiI, sa.spiR), r); }
    }

    /** An EAP answer from SWm that reports success. */
    method HandleEapSuccess(spi: nat, remote: Ip, msk64: bool, permanent: Option<string>)
      modifies this`sas, this`sessions
      ensures View() == EapSuccess(old(View()), spi, remote, msk64, permanent)
    {
      if spi !in sas || sas[spi].phase != Auth || sas[spi].eapRound == 0 { return; }
      var sa := sas[spi].(remote := remote, eapRound := sas[spi].eapRound + 1, hasMsk := msk64);
      if permanent.Some? { sa := sa.(imsi := permanent.value); }
      sas := sas[spi := sa];
      if sa.sessionId.None? || sa.sessionId.value !in sessions { return; }
      var sess := sessions[sa.sessionId.value];
      if permanent.Some? { sess := sess.(imsi := permanent.value); }
      sessions := sessions[sa.sessionId.value := sess.(phase := Transition(sess.phase, EapAuthenticated))];
    }

    /** FindSingleActiveByIMSIAPN: a scan in no particular order that gives up on a second hit. */
    method FindSingleActiveByImsiApn(imsi: string, apn: string) returns (found: Option<SessionId>)
      ensures found == FindSingleActive(View(), imsi, apn)
    {
      if imsi == "" { return None; }
      ghost var s := View();
      found := None;
      var rest := sessions.Keys;
      while rest != {}
        invariant rest <= sessions.Keys
        invariant found.None? ==> forall id :: ActiveFor(s, id, imsi, apn) ==> id in rest
        invariant found.Some? ==> ActiveFor(s, found.value, imsi, apn) && found.value !in rest
        invariant found.Some? ==> forall id :: ActiveFor(s, id, imsi, apn) && id != found.value ==> id in rest
      {
        var id :| id in rest;
        rest := rest - {id};
        var sess := sessions[id];
        if sess.imsi != imsi || (apn != "" && sess.apn != apn) || sess.phase != Active { continue; }
        assert ActiveFor(s, id, imsi, apn);
        if found.Some? {
          assert ActiveFor(s, found.value, imsi, apn) && id != found.value;
          return None;
        }
        found := Some(id);
      }
      assert found.Some? ==> OnlyActive(s, found.value, imsi, apn);
    }

    method RemoveXfrmChildSa(spi: nat, ts: nat)
      requires spi in sas
      requires xfrm.Valid()
      modifies this`live, xfrm
      ensures xfrm.Valid() && old(xfrm.deletes) <= xfrm.deletes
      ensures xfrm.Worked(old(xfrm.deletes)) ==> xfrm.stuck <= old(xfrm.stuck)
      ensures View() == RemoveChildSa(old(View()), spi)
      ensures xfrm.T() == AfterAll(old(xfrm.T()), xfrm.failing, CurDeletes(old(sas[spi]), old(xfrm.deletes)))
      ensures xfrm.deletes == old(xfrm.deletes) + CurCalls(old(sas[spi]))
      ensures xfrm.policies == PoliciesRemoved(old(xfrm.policies), xfrm.failing, old(xfrm.deletes), old(sas[spi]), ts)
    {
      var sa := sas[spi];
      if !sa.esp || sa.localIp.None? || sa.cur.inSpi == 0 { return; }
      var _ := xfrm.RemoveChildSA(sa.localIp, sa.remote, sa.cur, ts);
      live := live - {spi};
    }

    /** CleaningUp, Deleted, and out of the session table. */
    method EndSession(id: Option<SessionId>)
      modifies this`sessions
      ensures sessions == if id.Some? then old(sessions) - {id.value} else old(sessions)
    {
      if id.None? || id.value !in sessions { return; }
      sessions := sessions[id.value := sessions[id.value].(phase := Transition(sessions[id.value].phase, CleaningUp))];
      sessions := sessions[id.value := sessions[id.value].(phase := Transition(sessions[id.value].phase, Deleted))];
      sessions := sessions - {id.value};
    }

    /** The kernel side of fullTeardown: current pair with its policies, then the pending pair. */
    method RemovePairs(spi: nat, ts: nat)
      requires spi in sas && xfrm.Valid()
      modifies this`live, xfrm
      ensures xfrm.Valid() && old(xfrm.deletes) <= xfrm.deletes
      ensures xfrm.Worked(old(xfrm.deletes)) ==> xfrm.stuck <= old(xfrm.stuck)
      ensures xfrm.Kept() == DropPending(RemoveChildSa(old(View()), spi), spi).kernel
      ensures live == RemoveChildSa(old(View()), spi).live
      ensures xfrm.T() == AfterAll(old(xfrm.T()), xfrm.failing, TeardownDeletes(sas[spi], old(xfrm.deletes)))
      ensures xfrm.policies == PoliciesRemoved(old(xfrm.policies), xfrm.failing, old(xfrm.deletes), sas[spi], ts)
    {
      var sa := sas[spi];
      ghost var t, first := xfrm.T(), xfrm.deletes;
      AfterAllAppend(t, xfrm.failing, CurDeletes(sa, first), PendDeletes(sa, first + CurCalls(sa)));
      RemoveXfrmChildSa(spi, ts);
      if sa.pending.Some? && sa.localIp.Some? {
        var _ := xfrm.RemoveChildSAStates(sa.localIp, sa.remote, sa.pending.value);
      }
    }

    method FullTeardown(spi: nat, ts: nat)
      requires spi in sas
      requires xfrm.Valid()
      modifies this, xfrm
      ensures xfrm.Valid() && old(xfrm.deletes) <= xfrm.deletes
      ensures xfrm.Worked(old(xfrm.deletes)) ==> xfrm.stuck <= old(xfrm.stuck)
      ensures View() == Teardown(old(View()), spi)
      ensures xfrm.T() == AfterAll(old(xfrm.T()), xfrm.failing, TeardownDeletes(old(sas[spi]), old(xfrm.deletes)))
      ensures xfrm.policies == PoliciesRemoved(old(xfrm.policies), xfrm.failing, old(xfrm.deletes), old(sas[spi]), ts)
      ensures live <= old(live)
    {
      var id := sas[spi].sessionId;
      RemovePairs(spi, ts);
      EndSession(id);
      sas := sas - {spi};
      live := live - {spi};
    }

    /** One SPI of the CHILD SA delete branch of handleInformational: promote, remove or abort. */
    method DeleteEspSpi(spi: nat, x: nat, ts: nat)
      requires spi in sas && xfrm.Valid()
      modifies this, xfrm
      ensures xfrm.Valid() && spi in sas && xfrm.deletes == old(xfrm.deletes) + EspCalls(old(sas[spi]), x)
      ensures xfrm.Worked(old(xfrm.deletes)) ==> xfrm.stuck <= old(xfrm.stuck)
      ensures View() == EspDelete1(old(View()), spi, x)
      ensures xfrm.T() == AfterAll(old(xfrm.T()), xfrm.failing, EspDeletes(old(sas[spi]), x, old(xfrm.deletes)))
    {
      var sa := sas[spi];
      if sa.esp && (x == sa.cur.inSpi || x == sa.cur.outSpi) {
        if sa.pending.Some? {
          var _ := xfrm.RemoveChildSAStates(sa.localIp, sa.remote, sa.cur);
          sas := sas[spi := sa.(cur := sa.pending.value, pending := None)];
          live := live + {spi};
          if sa.sessionId.Some? && sa.sessionId.value in sessions {
            sessions := sessions[sa.sessionId.value :=
                          sessions[sa.sessionId.value].(esp := sa.pending.value)];
          }
        } else {
          RemoveXfrmChildSa(spi, ts);
        }
      } else if sa.pending.Some? && (x == sa.pending.value.inSpi || x == sa.pending.value.outSpi) {
        var _ := xfrm.RemoveChildSAStates(sa.localIp, sa.remote, sa.pending.value);
        sas := sas[spi := sa.(pending := None)];
      }
    }

    /** SPI by SPI. */
    method DeleteEspSpis(spi: nat, xs: seq<nat>, ts: nat)
      requires spi in sas && xfrm.Valid()
      modifies this, xfrm
      ensures xfrm.Valid() && old(xfrm.deletes) <= xfrm.deletes
      ensures xfrm.Worked(old(xfrm.deletes)) ==> xfrm.stuck <= old(xfrm.stuck)
      ensures View() == EspDeleteAll(old(View()), spi, xs)
      ensures xfrm.T() == EspTables(old(View()), old(xfrm.T()), xfrm.failing, spi, xs, old(xfrm.deletes))
    {
      ghost var s, t, first := View(), xfrm.T(), xfrm.deletes;
      ghost var goal, tables := EspDeleteAll(s, spi, xs), EspTables(s, t, xfrm.failing, spi, xs, first);
      var i := 0;
      assert xs[0..] == xs;
      while i < |xs|
        invariant 0 <= i <= |xs| && spi in sas && xfrm.Valid() && old(xfrm.deletes) <= xfrm.deletes
        invariant xfrm.Worked(old(xfrm.deletes)) ==> xfrm.stuck <= old(xfrm.stuck)
        invariant s == View() && t == xfrm.T() && first == xfrm.deletes
        invariant goal == EspDeleteAll(s, spi, xs[i..])
        invariant tables == EspTables(s, t, xfrm.failing, spi, xs[i..], first)
      {
        EspStep(s, t, xfrm.failing, spi, xs, i, first);
        DeleteEspSpi(spi, xs[i], ts);
        s, t, first := View(), xfrm.T(), xfrm.deletes;
        i := i + 1;
      }
    }

    method HandleChildSaRekey(spi: nat, remote: Ip, c: Child, refused: set<Call>)
      requires xfrm.Valid()
      modifies this`sas, xfrm
      ensures xfrm.Valid() && old(xfrm.deletes) <= xfrm.deletes
      ensures xfrm.Worked(old(xfrm.deletes)) ==> xfrm.stuck <= old(xfrm.stuck)
      ensures View() == (if spi !in old(sas) then old(View()) else
                         ChildRekey(old(View()), spi, remote, c,
                                    old(xfrm.AddFaults(sas[spi].localIp, remote, c, refused))))
    {
      if spi !in sas || sas[spi].phase != Established { return; }
      var ok := xfrm.AddChildSAStates(sas[spi].localIp, remote, c, refused);
      if !ok { return; }
      sas := sas[spi := sas[spi].(pending := Some(c))];
    }

    method HandleIkeSaRekey(spi: nat, newI: nat, newR: nat)
      modifies this
      ensures View() == IkeRekey(old(View()), spi, newI, newR)
    {
      if spi !in sas || sas[spi].phase != Established || newI == 0 { return; }
      var sa := sas[spi];
      sas := sas[newI := IkeSa(newI, newR, sa.remote, sa.localIp, Established, 0, false, sa.imsi, sa.apn, false,
                               sa.esp, sa.cur, None, sa.sessionId)];
      live := if spi in live then live + {newI} else live - {newI};
      used := used + {newI};
      if sa.sessionId.Some? && sa.sessionId.value in sessions {
        sessions := sessions[sa.sessionId.value :=
                      sessions[sa.sessionId.value].(ikeSpiI := newI, ikeSpiR := newR)];
      }
      if newI != spi {
        sas := sas[spi := sa.(sessionId := None, esp := false)];
        live := live - {spi};
      }
    }

    /** The implicit detach of the subscriber's only active session for the APN. */
    method DetachOther(spi: nat, imsi: string, apn: string, ts: nat)
      requires xfrm.Valid()
      modifies this, xfrm
      ensures xfrm.Valid() && old(xfrm.deletes) <= xfrm.deletes
      ensures xfrm.Worked(old(xfrm.deletes)) ==> xfrm.stuck <= old(xfrm.stuck)
      ensures View() == Detach(old(View()), spi, imsi, apn)
      ensures xfrm.Snapshot() == Detached(old(View()), old(xfrm.Snapshot()), spi, imsi, apn, ts).(deletes := xfrm.deletes)
      ensures spi in old(sas) ==> spi in sas && sas[spi] == old(sas)[spi]
      ensures Target(old(View()), spi, imsi, apn).None? ==> xfrm.deletes == old(xfrm.deletes)
      ensures live <= old(live)
    {
      var found := FindSingleActiveByImsiApn(imsi, apn);
      if found.Some? {
        assert ActiveFor(View(), found.value, imsi, apn);
        var other := sessions[found.value].ikeSpiI;
        if other in sas && other != spi {
          FullTeardown(other, ts);
        }
      }
    }

    /** handleAuthFinal. The faults that the model's event has are those of the kernel. */
    method HandleAuthFinal(spi: nat, remote: Ip, f: Final, ts: nat, otherTs: nat, refused: set<Call>)
        returns (ghost faults: Faults)
      requires xfrm.Valid()
      modifies this, xfrm
      ensures xfrm.Valid() && old(xfrm.deletes) <= xfrm.deletes
      ensures xfrm.Worked(old(xfrm.deletes)) ==> xfrm.stuck <= old(xfrm.stuck)
      ensures View() == AuthFinal(old(View()), spi, remote, f.(faults := faults))
      ensures spi in old(sas) ==> faults == FinalFaults(Moved(old(View()), spi, remote), old(xfrm.Snapshot()), spi, f.localSpi,
                                                        ts, otherTs, refused)
      ensures spi !in old(sas) || !f.authOk || !old(sas)[spi].hasMsk ==>
                sessions == old(sessions) && live == old(live) && xfrm.Snapshot() == old(xfrm.Snapshot())
      ensures spi in old(sas) && spi in live && spi !in old(live) ==>
                var s0 := Moved(old(View()), spi, remote);
                var sa := s0.sas[spi];
                sa.handover || Target(s0, spi, sa.imsi, sa.apn).None? ==>
                  xfrm.deletes == old(xfrm.deletes) && xfrm.stuck == old(xfrm.stuck)
    {
      faults := f.faults;
      if spi !in sas { return; }
      faults := FinalFaults(Moved(View(), spi, remote), xfrm.Snapshot(), spi, f.localSpi, ts, otherTs, refused);
      if sas[spi].phase != Auth || sas[spi].eapRound == 0 { return; }
      sas := sas[spi := sas[spi].(remote := remote)];
      faults := Continue(spi, f, ts, otherTs, refused);
    }

    /** From the SA with its address on. */
    method Continue(spi: nat, f: Final, ts: nat, otherTs: nat, refused: set<Call>) returns (ghost faults: Faults)
      requires spi in sas && xfrm.Valid()
      modifies this, xfrm
      ensures xfrm.Valid() && old(xfrm.deletes) <= xfrm.deletes
      ensures xfrm.Worked(old(xfrm.deletes)) ==> xfrm.stuck <= old(xfrm.stuck)
      ensures faults == FinalFaults(old(View()), old(xfrm.Snapshot()), spi, f.localSpi, ts, otherTs, refused)
      ensures var s0, sa := old(View()), old(sas)[spi];
              View() == if !sa.hasMsk || !f.authOk then s0 else
                        var s1 := if sa.handover then s0 else Detach(s0, spi, sa.imsi, sa.apn);
                        if !f.s2bOk || sa.imsi == "" || sa.apn == "" then s1 else
                        FinalInstall(s1, spi, f.(faults := faults))
      ensures !f.authOk || !old(sas)[spi].hasMsk ==>
                sessions == old(sessions) && live == old(live) && xfrm.Snapshot() == old(xfrm.Snapshot())
      ensures var sa := old(sas)[spi];
              (sa.handover || Target(old(View()), spi, sa.imsi, sa.apn).None?) && spi in live && spi !in old(live) ==>
                xfrm.deletes == old(xfrm.deletes) && xfrm.stuck == old(xfrm.stuck)
    {
      var sa := sas[spi];
      faults := FinalFaults(View(), xfrm.Snapshot(), spi, f.localSpi, ts, otherTs, refused);
      if !sa.hasMsk || !f.authOk { return; }
      if !sa.handover { DetachOther(spi, sa.imsi, sa.apn, otherTs); }
      if !f.s2bOk || sa.imsi == "" || sa.apn == "" { return; }
      Finish(spi, f, ts, refused);
    }

    /** The part of handleAuthFinal after the S2b answer. */
    method Finish(spi: nat, f: Final, ts: nat, refused: set<Call>)
      requires spi in sas
      requires xfrm.Valid()
      modifies this, xfrm
      ensures xfrm.Valid() && old(xfrm.deletes) <= xfrm.deletes
      ensures xfrm.Worked(old(xfrm.deletes)) ==> xfrm.stuck <= old(xfrm.stuck)
      ensures View() == FinalInstall(old(View()), spi, f.(faults :=
        Prevented(old(xfrm.stuck), old(sas)[spi].localIp, old(sas)[spi].remote, old(sas)[spi].cur.(inSpi := f.localSpi), refused)
          .(policies := !PoliciesAddable(ts, refused, old(xfrm.policies)))))
      ensures spi in live && spi !in old(live) ==> xfrm.deletes == old(xfrm.deletes) && xfrm.stuck == old(xfrm.stuck)
    {
      StoreS2b(sas[spi].sessionId);
      if !f.spiOk { return; }
      sas := sas[spi := sas[spi].(cur := sas[spi].cur.(inSpi := f.localSpi), phase := Established)];
      var sa := sas[spi];
      if !sa.esp || sa.localIp.None? { return; }
      var ok := xfrm.InstallChildSA(sa.localIp, sa.remote, sa.cur, ts, refused);
      if !ok { return; }
      live := live + {spi};
      Activate(sa.sessionId, sa.cur, f.gtpuOk);
    }

    /** The S2b context and its two transitions. */
    method StoreS2b(id: Option<SessionId>)
      modifies this`sessions
      ensures View() == UpdateSession(old(View()), id, S2bDone)
    {
      if id.None? || id.value !in sessions { return; }
      var sess := sessions[id.value];
      var p := Transition(sess.phase, S2bCreateSessionSent);
      sessions := sessions[id.value := sess.(hasS2b := true, phase := Transition(p, S2bAccepted))];
    }

    /** The ESP SPIs, the GTP-U install and, if it worked, the last two transitions. */
    method Activate(id: Option<SessionId>, c: Child, gtpuOk: bool)
      modifies this`sessions
      ensures View() == UpdateSession(old(View()), id, (sess: Session) => Installed(sess, c, gtpuOk))
    {
      if id.None? || id.value !in sessions { return; }
      var sess := sessions[id.value];
      sessions := sessions[id.value := sess.(esp := c, phase := Transition(sess.phase, GtpuInstalling))];
      if gtpuOk {
        var p := Transition(sessions[id.value].phase, DatapathInstalling);
        sessions := sessions[id.value := sessions[id.value].(phase := Transition(p, Active))];
      }
    }
  }
}
