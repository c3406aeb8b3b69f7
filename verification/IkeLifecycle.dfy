/** IKE SA table, session table and kernel ESP states, and the handlers that change
    them: IKE_SA_INIT, IKE_AUTH, CREATE_CHILD_SA, INFORMATIONAL, the reapers and the
    deletes that the PGW starts. One handler runs at a time here; outcomes that the
    network, the random generator or the kernel decide are fields of the event. */
module IkeLifecycle {
  import opened Octets
  import opened SessionFsm

  datatype Ip = V4(addr: nat) | V6(addr: nat)

  /** Kernel ESP state: the kernel identifies a state by SPI and endpoints. */
  datatype EspState = EspState(src: Ip, dst: Ip, spi: nat)

  /** The two SPIs of a CHILD SA: ours (inbound) and the UE's (outbound). */
  datatype Child = Child(inSpi: nat, outSpi: nat)

  /** Session ids are the two IKE SPIs printed at fixed width, so a pair stands for the string. */
  datatype SessionId = SessionId(spiI: nat, spiR: nat)

  datatype IkePhase = Auth | Established

  datatype IkeSa = IkeSa(
    spiI: nat,
    spiR: nat,
    remote: Ip,
    localIp: Option<Ip>,
    phase: IkePhase,
    eapRound: nat,
    hasMsk: bool,
    imsi: string,
    apn: string,
    handover: bool,
    esp: bool,                    // espProp != nil
    cur: Child,                   // localESPSPI, peerESPSPI
    pending: Option<Child>,       // pendingESPProp != nil and its SPIs
    sessionId: Option<SessionId>)

  datatype Session = Session(
    imsi: string,
    apn: string,
    ikeSpiI: nat,
    ikeSpiR: nat,
    esp: Child,                   // ESPInboundSPI, ESPOutboundSPI
    phase: Phase,
    hasS2b: bool)

  /** `sas`, `sessions` and `kernel` are the program's; `live` and `used` are history:
      the IKE SAs whose current pair was installed and not removed since, and every
      initiator SPI that ever named an IKE SA. */
  datatype State = State(
    sas: map<nat, IkeSa>,
    sessions: map<SessionId, Session>,
    kernel: set<EspState>,
    live: set<nat>,
    used: set<nat>)

  const Init := State(map[], map[], {}, {}, {})

  // ------------------------------------------------------------------ XFRM

  predicate Resolves(local: Option<Ip>, remote: Ip) {
    local.Some? && local.value.V4? == remote.V4?
  }

  function Inbound(local: Ip, remote: Ip, c: Child): EspState {
    EspState(remote, local, c.inSpi)
  }

  function Outbound(local: Ip, remote: Ip, c: Child): EspState {
    EspState(local, remote, c.outSpi)
  }

  function PairStates(local: Option<Ip>, remote: Ip, c: Child): set<EspState> {
    if Resolves(local, remote) then
      {Inbound(local.value, remote, c), Outbound(local.value, remote, c)}
    else {}
  }

  /** Which kernel calls refuse for reasons of their own (memory, permissions, ...). */
  datatype Faults = Faults(inbound: bool, outbound: bool, policies: bool)

  /** Both states or neither: the second add is undone when it fails, and so are both
      when a policy cannot be added. An add of a state that exists always fails. */
  predicate AddSucceeds(kernel: set<EspState>, local: Option<Ip>, remote: Ip, c: Child, f: Faults) {
    && Resolves(local, remote)
    && !f.inbound && !f.outbound && !f.policies
    && Inbound(local.value, remote, c) !in kernel
    && Outbound(local.value, remote, c) !in kernel
    && Inbound(local.value, remote, c) != Outbound(local.value, remote, c)
  }

  // -------------------------------------------------------------- handlers

  function InitSa(spiI: nat, spiR: nat, remote: Ip, localIp: Option<Ip>): IkeSa {
    IkeSa(spiI, spiR, remote, localIp, Auth, 0, false, "", "", false,
          false, Child(0, 0), None, None)
  }

  /** handleIKESAInit, once the gates are passed: storeSA replaces whatever the SPI named. */
  function SaInit(s: State, spiI: nat, spiR: nat, remote: Ip, localIp: Option<Ip>): State {
    s.(sas := s.sas[spiI := InitSa(spiI, spiR, remote, localIp)],
       live := s.live - {spiI},
       used := s.used + {spiI})
  }

  /** What the first IKE_AUTH request carried: `parsed` is a usable IDi, `proposalOk` an
      acceptable ESP proposal (or none), `espSpi` the UE's SPI from it. */
  datatype Round1 = Round1(parsed: bool, proposalOk: bool, imsi: string, apn: string,
                           espSpi: Option<nat>, handover: bool, swmAnswers: bool)

  /** handleAuthRound1 up to the SWm answer. */
  function AuthRound1(s: State, spi: nat, remote: Ip, r: Round1): State {
    if spi !in s.sas || s.sas[spi].phase != Auth || s.sas[spi].eapRound != 0 then s else
    if !r.parsed then s.(sas := s.sas[spi := s.sas[spi].(remote := remote)]) else
    var sa := s.sas[spi].(remote := remote, imsi := r.imsi, apn := r.apn);
    if !r.proposalOk then s.(sas := s.sas[spi := sa]) else
    var id := SessionId(sa.spiI, sa.spiR);
    var sa' := sa.(
                   esp := sa.esp || r.espSpi.Some?,
                   cur := if r.espSpi.Some? then sa.cur.(outSpi := r.espSpi.value) else sa.cur,
                   handover := sa.handover || r.handover,
                   sessionId := Some(id),
                   eapRound := if r.swmAnswers then 1 else 0);
    var found := if id in s.sessions then s.sessions[id]
                 else Session("", "", 0, 0, Child(0, 0), New, false);
    var sess := found.(imsi := r.imsi, apn := r.apn, ikeSpiI := sa.spiI, ikeSpiR := sa.spiR,
                       phase := Transition(found.phase, EapAuthenticating));
    s.(sas := s.sas[spi := sa'], sessions := s.sessions[id := sess])
  }

  /** An EAP answer from SWm that reports success, with the permanent identity if it gives one. */
  function EapSuccess(s: State, spi: nat, remote: Ip, msk64: bool, permanent: Option<string>): State {
    if spi !in s.sas || s.sas[spi].phase != Auth || s.sas[spi].eapRound == 0 then s else
    var sa := s.sas[spi];
    var sa' := sa.(remote := remote, eapRound := sa.eapRound + 1, hasMsk := msk64,
                   imsi := if permanent.Some? then permanent.value else sa.imsi);
    var s1 := s.(sas := s.sas[spi := sa']);
    if sa.sessionId.None? || sa.sessionId.value !in s.sessions then s1 else
    var sess := s.sessions[sa.sessionId.value];
    s1.(sessions := s.sessions[sa.sessionId.value :=
          sess.(imsi := if permanent.Some? then permanent.value else sess.imsi,
                phase := Transition(sess.phase, EapAuthenticated))])
  }

  /** removeXFRMChildSA: nothing to do without a proposal, a local address or an own SPI. */
  function RemoveChildSa(s: State, spi: nat): State
    requires spi in s.sas
  {
    var sa := s.sas[spi];
    if !sa.esp || sa.localIp.None? || sa.cur.inSpi == 0 then s else
    s.(kernel := s.kernel - PairStates(sa.localIp, sa.remote, sa.cur), live := s.live - {spi})
  }

  function DropPending(s: State, spi: nat): State
    requires spi in s.sas
  {
    var sa := s.sas[spi];
    if sa.pending.None? then s else
    s.(kernel := s.kernel - PairStates(sa.localIp, sa.remote, sa.pending.value),
       sas := s.sas[spi := sa.(pending := None)])
  }

  /** fullTeardown: kernel states, session and table entry. */
  function Teardown(s: State, spi: nat): State
    requires spi in s.sas
  {
    var s1 := DropPending(RemoveChildSa(s, spi), spi);
    var id := s.sas[spi].sessionId;
    s1.(sas := s1.sas - {spi}, live := s1.live - {spi},
        sessions := if id.Some? then s1.sessions - {id.value} else s1.sessions)
  }

  /** Promotion of the pending CHILD SA when the UE deletes the old one. */
  function Promote(s: State, spi: nat): State
    requires spi in s.sas && s.sas[spi].pending.Some?
  {
    var sa := s.sas[spi];
    var sa' := sa.(cur := sa.pending.value, pending := None);
    s.(kernel := s.kernel - PairStates(sa.localIp, sa.remote, sa.cur),
       sas := s.sas[spi := sa'],
       live := s.live + {spi},
       sessions := if sa.sessionId.Some? && sa.sessionId.value in s.sessions
                   then s.sessions[sa.sessionId.value := s.sessions[sa.sessionId.value].(esp := sa'.cur)]
                   else s.sessions)
  }

  /** One SPI of a DELETE{ESP} payload. */
  function EspDelete1(s: State, spi: nat, x: nat): (s': State)
    requires spi in s.sas
    ensures spi in s'.sas
  {
    var sa := s.sas[spi];
    if sa.esp && (x == sa.cur.inSpi || x == sa.cur.outSpi) then
      if sa.pending.Some? then Promote(s, spi) else RemoveChildSa(s, spi)
    else if sa.pending.Some? && (x == sa.pending.value.inSpi || x == sa.pending.value.outSpi) then
      DropPending(s, spi)
    else s
  }

  function EspDeleteAll(s: State, spi: nat, xs: seq<nat>): (s': State)
    requires spi in s.sas
    ensures spi in s'.sas
    decreases |xs|
  {
    if xs == [] then s else EspDeleteAll(EspDelete1(s, spi, xs[0]), spi, xs[1..])
  }

  /** handleChildSARekey after negotiation: install the new pair, remember it as pending.
      `remote` is the source of the request, which need not be sa.remote. */
  function ChildRekey(s: State, spi: nat, remote: Ip, c: Child, f: Faults): State {
    if spi !in s.sas || s.sas[spi].phase != Established then s else
    var sa := s.sas[spi];
    if !AddSucceeds(s.kernel, sa.localIp, remote, c, f.(policies := false)) then s else
    s.(kernel := s.kernel + PairStates(sa.localIp, remote, c),
       sas := s.sas[spi := sa.(pending := Some(c))])
  }

  /** handleIKESARekey after the response is sent: the new IKE SA takes over the current
      CHILD SA and the session, the old one keeps only its pending pair. */
  function IkeRekey(s: State, spi: nat, newI: nat, newR: nat): State {
    if spi !in s.sas || s.sas[spi].phase != Established || newI == 0 then s else
    var sa := s.sas[spi];
    var sa2 := IkeSa(newI, newR, sa.remote, sa.localIp, Established, 0, false, sa.imsi, sa.apn, false,
                     sa.esp, sa.cur, None, sa.sessionId);
    // The new SA is stored first; the old record is cleared afterwards through its pointer,
    // which is no longer in the table if both SPIs are the same.
    var sas1 := s.sas[newI := sa2];
    var sas2 := if newI == spi then sas1 else sas1[spi := sa.(sessionId := None, esp := false)];
    s.(sas := sas2,
       live := (if spi in s.live then s.live + {newI} else s.live - {newI}) - (if newI == spi then {} else {spi}),
       used := s.used + {newI},
       sessions := if sa.sessionId.Some? && sa.sessionId.value in s.sessions
                   then s.sessions[sa.sessionId.value :=
                          s.sessions[sa.sessionId.value].(ikeSpiI := newI, ikeSpiR := newR)]
                   else s.sessions)
  }

  predicate ActiveFor(s: State, id: SessionId, imsi: string, apn: string) {
    id in s.sessions && s.sessions[id].phase == Active && s.sessions[id].imsi == imsi
    && (apn == "" || s.sessions[id].apn == apn)
  }

  ghost predicate OnlyActive(s: State, id: SessionId, imsi: string, apn: string) {
    ActiveFor(s, id, imsi, apn) && forall other :: ActiveFor(s, other, imsi, apn) ==> other == id
  }

  /** FindSingleActiveByIMSIAPN: a session only when exactly one qualifies. */
  ghost function FindSingleActive(s: State, imsi: string, apn: string): Option<SessionId> {
    if imsi != "" && exists id :: OnlyActive(s, id, imsi, apn) then
      var id :| OnlyActive(s, id, imsi, apn);
      Some(id)
    else None
  }

  /** The implicit detach of handleAuthFinal. An SA that finds itself would wait for its own
      lock; that case changes nothing here. */
  ghost function Detach(s: State, spi: nat, imsi: string, apn: string): State {
    var found := FindSingleActive(s, imsi, apn);
    if found.None? then s else
    var other := s.sessions[found.value].ikeSpiI;
    if other !in s.sas || other == spi then s else Teardown(s, other)
  }

  datatype Final = Final(authOk: bool, s2bOk: bool, spiOk: bool,
                         localSpi: nat, faults: Faults, gtpuOk: bool)

  function UpdateSession(s: State, id: Option<SessionId>, f: Session -> Session): State {
    if id.Some? && id.value in s.sessions then
      s.(sessions := s.sessions[id.value := f(s.sessions[id.value])])
    else s
  }

  function S2bDone(sess: Session): Session {
    sess.(hasS2b := true,
          phase := Transition(Transition(sess.phase, S2bCreateSessionSent), S2bAccepted))
  }

  /** XFRM is in place: SPIs and GTPUInstalling; then, if the GTP-U session could be
      added, the two last transitions. */
  function Installed(sess: Session, c: Child, gtpuOk: bool): Session {
    var p := Transition(sess.phase, GtpuInstalling);
    sess.(esp := c,
          phase := if gtpuOk then Transition(Transition(p, DatapathInstalling), Active) else p)
  }

  /** handleAuthFinal from the moment S2b answered: SPI, XFRM, GTP-U, activation. */
  function FinalInstall(s: State, spi: nat, f: Final): State
    requires spi in s.sas
  {
    var s2 := UpdateSession(s, s.sas[spi].sessionId, S2bDone);
    if !f.spiOk then s2 else
    var sa := s.sas[spi].(cur := s.sas[spi].cur.(inSpi := f.localSpi), phase := Established);
    var s3 := s2.(sas := s2.sas[spi := sa]);
    if !sa.esp || !AddSucceeds(s.kernel, sa.localIp, sa.remote, sa.cur, f.faults) then s3 else
    var s4 := s3.(kernel := s3.kernel + PairStates(sa.localIp, sa.remote, sa.cur),
                  live := s3.live + {spi});
    UpdateSession(s4, sa.sessionId, (sess: Session) => Installed(sess, sa.cur, f.gtpuOk))
  }

  /** handleAuthFinal. */
  ghost function AuthFinal(s: State, spi: nat, remote: Ip, f: Final): State {
    if spi !in s.sas || s.sas[spi].phase != Auth || s.sas[spi].eapRound == 0 then s else
    var sa := s.sas[spi].(remote := remote);
    var s0 := s.(sas := s.sas[spi := sa]);
    if !sa.hasMsk || !f.authOk then s0 else
    var s1 := if sa.handover then s0 else Detach(s0, spi, sa.imsi, sa.apn);
    if !f.s2bOk || sa.imsi == "" || sa.apn == "" then s1 else
    FinalInstall(s1, spi, f)
  }

  /** handlePGWDelete, and handlePGWDeleteBearer for the default bearer without handover. */
  function PgwDelete(s: State, id: SessionId): State {
    s.(sessions := s.sessions - {id})
  }

  /** handlePGWDeleteBearer for the default bearer after a handover: the session stays,
      without S2b context. */
  function PgwHandoverDelete(s: State, id: SessionId): State {
    UpdateSession(s, Some(id), (sess: Session) => sess.(hasS2b := false,
      phase := Transition(Transition(sess.phase, CleaningUp), Deleted)))
  }

  datatype Event =
    | EvInit(spiI: nat, spiR: nat, remote: Ip, localIp: Option<Ip>)
    | EvRound1(spi: nat, remote: Ip, round1: Round1)
    | EvEapSuccess(spi: nat, remote: Ip, msk64: bool, permanent: Option<string>)
    | EvFinal(spi: nat, remote: Ip, final: Final)
    | EvChildRekey(spi: nat, remote: Ip, child: Child, faults: Faults)
    | EvIkeRekey(spi: nat, newI: nat, newR: nat)
    | EvEspDelete(spi: nat, xs: seq<nat>)
    | EvTeardown(spi: nat)                    // DELETE{IKE} from the UE or a DPD timeout
    | EvExpire(spi: nat)                      // half-open reaper
    | EvPgwDelete(id: SessionId)
    | EvPgwHandoverDelete(id: SessionId)

  ghost function Step(s: State, e: Event): State {
    match e
    case EvInit(spiI, spiR, remote, localIp) => SaInit(s, spiI, spiR, remote, localIp)
    case EvRound1(spi, remote, r) => AuthRound1(s, spi, remote, r)
    case EvEapSuccess(spi, remote, msk64, permanent) => EapSuccess(s, spi, remote, msk64, permanent)
    case EvFinal(spi, remote, f) => AuthFinal(s, spi, remote, f)
    case EvChildRekey(spi, remote, c, f) => ChildRekey(s, spi, remote, c, f)
    case EvIkeRekey(spi, newI, newR) => IkeRekey(s, spi, newI, newR)
    case EvEspDelete(spi, xs) => if spi in s.sas then EspDeleteAll(s, spi, xs) else s
    case EvTeardown(spi) => if spi in s.sas then Teardown(s, spi) else s
    case EvExpire(spi) =>
      if spi in s.sas && s.sas[spi].phase == Auth then
        s.(sas := s.sas - {spi}, live := s.live - {spi})
      else s
    case EvPgwDelete(id) => PgwDelete(s, id)
    case EvPgwHandoverDelete(id) => PgwHandoverDelete(s, id)
  }

  ghost function Run(s: State, es: seq<Event>): State
  {
    if es == [] then s else Step(Run(s, es[..|es|-1]), es[|es|-1])
  }
}
