/** Which IKE SA a session belongs to, and how many sessions are active for one
    subscriber and APN, over whole runs of the handlers. */
module IkeSessions {
  import opened Octets
  import opened IkeLifecycle
  import opened SessionFsm

  predicate Holds(s: State, spi: nat, id: SessionId) {
    spi in s.sas && s.sas[spi].sessionId == Some(id)
  }

  /** An SA still in IKE_AUTH: it holds at most the session named after its own SPIs, which
      is not active, and once EAP runs both agree on subscriber and APN. */
  predicate Attaching(s: State, spi: nat)
    requires spi in s.sas
  {
    var sa := s.sas[spi];
    var id := SessionId(sa.spiI, sa.spiR);
    && sa.pending.None?
    && (sa.sessionId == None || sa.sessionId == Some(id))
    && (id in s.sessions ==> s.sessions[id].phase != Active)
    && (sa.eapRound > 0 ==> sa.sessionId == Some(id))
    && (sa.eapRound > 0 && id in s.sessions ==>
          s.sessions[id].imsi == sa.imsi && s.sessions[id].apn == sa.apn)
  }

  /** An active session: its IkeSPII names an established SA that holds it, and its ESP SPIs
      are that SA's current pair. */
  predicate Anchored(s: State, id: SessionId)
    requires id in s.sessions
  {
    var spi := s.sessions[id].ikeSpiI;
    Holds(s, spi, id) && s.sas[spi].phase == Established && s.sas[spi].cur == s.sessions[id].esp
  }

  /** What must hold of one SA record and the session it holds. */
  predicate SaOk(s: State, a: nat)
    requires a in s.sas
  {
    var sa := s.sas[a];
    && sa.spiI == a && a in s.used
    && (sa.phase == Auth ==> Attaching(s, a))
    && (sa.sessionId.Some? ==>
          var id := sa.sessionId.value;
          && id.spiI in s.used
          && (id in s.sessions ==> s.sessions[id].ikeSpiI == a)
          && (id.spiI in s.sas && s.sas[id.spiI].phase == Auth ==> a == id.spiI))
  }

  predicate SessionOk(s: State, id: SessionId)
    requires id in s.sessions
  {
    id.spiI in s.used && (s.sessions[id].phase == Active ==> Anchored(s, id))
  }

  ghost predicate Inv(s: State) {
    && (forall a :: a in s.sas ==> SaOk(s, a))
    && (forall id :: id in s.sessions ==> SessionOk(s, id))
  }

  predicate ActiveId(s: State, id: SessionId) {
    id in s.sessions && s.sessions[id].phase == Active
  }

  predicate SameSubscriber(x: Session, y: Session) {
    x.imsi == y.imsi && x.apn == y.apn
  }

  /** At most one active session per subscriber and APN. */
  ghost predicate Unique(s: State) {
    forall i, j :: ActiveId(s, i) && ActiveId(s, j) && SameSubscriber(s.sessions[i], s.sessions[j]) ==> i == j
  }

  /** Initiator SPIs are distinct over the whole run. */
  predicate Distinct(s: State, e: Event) {
    match e
    case EvInit(spiI, _, _, _) => spiI !in s.used
    case EvIkeRekey(_, newI, _) => newI !in s.used
    case _ => true
  }

  // ------------------------------------------------------------- one event

  lemma InitKeeps(s: State, spiI: nat, spiR: nat, remote: Ip, localIp: Option<Ip>)
    requires Inv(s) && spiI !in s.used
    ensures Inv(SaInit(s, spiI, spiR, remote, localIp))
  {}

  /** An SA in IKE_AUTH and the session named after it change together; the session is not
      active before or after. */
  lemma AttachKeeps(s: State, spi: nat, s': State)
    requires Inv(s) && spi in s.sas && s.sas[spi].phase == Auth
    requires spi in s'.sas && s'.sas == s.sas[spi := s'.sas[spi]] && s'.used == s.used
    requires s'.sas[spi].spiI == spi && s'.sas[spi].spiR == s.sas[spi].spiR
    requires s'.sas[spi].phase == Auth && Attaching(s', spi)
    requires var id := SessionId(spi, s.sas[spi].spiR);
             && (forall x :: x in s'.sessions && x != id ==> x in s.sessions && s'.sessions[x] == s.sessions[x])
             && (id in s'.sessions && s'.sas[spi].sessionId == Some(id) ==> s'.sessions[id].ikeSpiI == spi)
    ensures Inv(s')
  {
    var id := SessionId(spi, s.sas[spi].spiR);
    forall a | a in s'.sas && a != spi ensures SaOk(s', a) {
      assert SaOk(s, a);
      assert s.sas[a].sessionId != Some(id);
    }
    forall x | x in s'.sessions ensures SessionOk(s', x) {
      if x != id {
        assert SessionOk(s, x);
      }
    }
  }

  lemma Round1Keeps(s: State, spi: nat, remote: Ip, r: Round1)
    requires Inv(s)
    ensures Inv(AuthRound1(s, spi, remote, r))
  {
    if spi in s.sas && s.sas[spi].phase == Auth && s.sas[spi].eapRound == 0 {
      assert SaOk(s, spi);
      AttachKeeps(s, spi, AuthRound1(s, spi, remote, r));
    }
  }

  lemma EapKeeps(s: State, spi: nat, remote: Ip, msk64: bool, permanent: Option<string>)
    requires Inv(s)
    ensures Inv(EapSuccess(s, spi, remote, msk64, permanent))
  {
    if spi in s.sas && s.sas[spi].phase == Auth && s.sas[spi].eapRound != 0 {
      assert SaOk(s, spi);
      AttachKeeps(s, spi, EapSuccess(s, spi, remote, msk64, permanent));
    }
  }

  lemma TeardownKeeps(s: State, spi: nat)
    requires Inv(s) && spi in s.sas
    ensures Inv(Teardown(s, spi))
  {}

  lemma ChildRekeyKeeps(s: State, spi: nat, remote: Ip, c: Child, f: Faults)
    requires Inv(s)
    ensures Inv(ChildRekey(s, spi, remote, c, f))
  {}

  lemma IkeRekeyKeeps(s: State, spi: nat, newI: nat, newR: nat)
    requires Inv(s) && newI !in s.used
    ensures Inv(IkeRekey(s, spi, newI, newR))
  {}

  lemma PromoteKeeps(s: State, spi: nat)
    requires Inv(s) && spi in s.sas && s.sas[spi].pending.Some?
    requires s.sas[spi].phase == Established
    ensures Inv(Promote(s, spi))
  {}

  lemma RemovalKeeps(s: State, spi: nat, s': State)
    requires Inv(s) && spi in s.sas
    requires s' == RemoveChildSa(s, spi) || s' == DropPending(s, spi)
    ensures Inv(s')
  {}

  lemma {:induction false} EspDeleteKeeps(s: State, spi: nat, xs: seq<nat>)
    requires Inv(s) && spi in s.sas
    ensures Inv(EspDeleteAll(s, spi, xs))
    ensures EspDeleteAll(s, spi, xs).sessions.Keys == s.sessions.Keys
    ensures forall id :: id in s.sessions ==>
              EspDeleteAll(s, spi, xs).sessions[id].(esp := s.sessions[id].esp) == s.sessions[id]
    decreases |xs|
  {
    if xs == [] {
    } else {
      var s1 := EspDelete1(s, spi, xs[0]);
      assert Inv(s1) by {
        if s.sas[spi].pending.Some? && s1 == Promote(s, spi) {
          PromoteKeeps(s, spi);
        } else if s1 != s {
          RemovalKeeps(s, spi, s1);
        }
      }
      EspDeleteKeeps(s1, spi, xs[1..]);
    }
  }

  // --------------------------------------------------------------- AuthFinal

  /** The new session's record changes once its SA is established. */
  lemma EstablishKeeps(s: State, spi: nat, s': State)
    requires Inv(s) && spi in s.sas && s.sas[spi].phase == Auth && s.sas[spi].sessionId.Some?
    requires spi in s'.sas && s'.sas == s.sas[spi := s'.sas[spi]] && s'.used == s.used
    requires s'.sas[spi].spiI == spi && s'.sas[spi].spiR == s.sas[spi].spiR
    requires s'.sas[spi].sessionId == s.sas[spi].sessionId && s'.sas[spi].phase == Established
    requires var id := s.sas[spi].sessionId.value;
             && s'.sessions.Keys == s.sessions.Keys
             && (forall x :: x in s'.sessions && x != id ==> s'.sessions[x] == s.sessions[x])
             && (id in s'.sessions ==> s'.sessions[id].ikeSpiI == s.sessions[id].ikeSpiI)
             && (id in s'.sessions && s'.sessions[id].phase == Active ==> s'.sessions[id].esp == s'.sas[spi].cur)
    ensures Inv(s')
  {
    var id := s.sas[spi].sessionId.value;
    assert SaOk(s, spi);
    forall a | a in s'.sas ensures SaOk(s', a) {
      assert SaOk(s, a);
      assert a != spi ==> s.sas[a].sessionId != Some(id);
    }
    forall x | x in s'.sessions ensures SessionOk(s', x) {
      assert SessionOk(s, x);
    }
  }

  lemma FinalInstallKeeps(s: State, spi: nat, f: Final)
    requires Inv(s) && spi in s.sas && s.sas[spi].phase == Auth && s.sas[spi].eapRound > 0
    ensures Inv(FinalInstall(s, spi, f))
  {
    assert SaOk(s, spi) && Attaching(s, spi);
    var s' := FinalInstall(s, spi, f);
    if f.spiOk {
      EstablishKeeps(s, spi, s');
    } else {
      AttachKeeps(s, spi, s');
    }
  }

  lemma AuthFinalKeeps(s: State, spi: nat, remote: Ip, f: Final)
    requires Inv(s)
    ensures Inv(AuthFinal(s, spi, remote, f))
  {
    if spi in s.sas && s.sas[spi].phase == Auth && s.sas[spi].eapRound != 0 {
      assert SaOk(s, spi);
      var sa := s.sas[spi].(remote := remote);
      var s0 := s.(sas := s.sas[spi := sa]);
      AttachKeeps(s, spi, s0);
      if sa.hasMsk && f.authOk {
        DetachKeeps(s0, spi, sa.imsi, sa.apn);
        var s1 := if sa.handover then s0 else Detach(s0, spi, sa.imsi, sa.apn);
        if f.s2bOk && sa.imsi != "" && sa.apn != "" {
          FinalInstallKeeps(s1, spi, f);
        }
      }
    }
  }

  // -------------------------------------------------------------- uniqueness

  /** No session became active or changed subscriber. */
  ghost predicate NoNewActive(s: State, s': State) {
    forall id :: ActiveId(s', id) ==> ActiveId(s, id) && SameSubscriber(s.sessions[id], s'.sessions[id])
  }

  lemma NoNewActiveUnique(s: State, s': State)
    requires Unique(s) && NoNewActive(s, s')
    ensures Unique(s')
  {}

  /** The implicit detach leaves no active session for the subscriber and APN. */
  lemma DetachClears(s: State, spi: nat, imsi: string, apn: string)
    requires Inv(s) && Unique(s) && spi in s.sas && s.sas[spi].phase == Auth
    requires imsi != "" && apn != ""
    ensures var s' := Detach(s, spi, imsi, apn);
            NoNewActive(s, s') && forall id :: !ActiveFor(s', id, imsi, apn)
  {
    var s' := Detach(s, spi, imsi, apn);
    forall id ensures !ActiveFor(s', id, imsi, apn) {
      if ActiveFor(s, id, imsi, apn) {
        assert SessionOk(s, id);
        assert forall other :: ActiveFor(s, other, imsi, apn) ==> ActiveId(s, other);
        assert OnlyActive(s, id, imsi, apn);
      }
    }
  }

  lemma FinalInstallActive(s: State, spi: nat, f: Final, id: SessionId)
    requires Inv(s) && spi in s.sas && s.sas[spi].phase == Auth && s.sas[spi].eapRound > 0
    requires ActiveId(FinalInstall(s, spi, f), id)
    ensures id in s.sessions && SameSubscriber(s.sessions[id], FinalInstall(s, spi, f).sessions[id])
    ensures ActiveId(s, id) ||
            (s.sas[spi].sessionId == Some(id) && s.sessions[id].imsi == s.sas[spi].imsi
             && s.sessions[id].apn == s.sas[spi].apn)
  {
    assert SaOk(s, spi);
  }

  lemma DetachKeeps(s: State, spi: nat, imsi: string, apn: string)
    requires Inv(s) && spi in s.sas && s.sas[spi].phase == Auth
    ensures var s' := Detach(s, spi, imsi, apn);
            Inv(s') && NoNewActive(s, s') && spi in s'.sas && s'.sas[spi] == s.sas[spi]
  {
    if Detach(s, spi, imsi, apn) != s {
      TeardownKeeps(s, s.sessions[FindSingleActive(s, imsi, apn).value].ikeSpiI);
    }
  }

  lemma AuthFinalUnique(s: State, spi: nat, remote: Ip, f: Final)
    requires Inv(s) && Unique(s)
    requires spi in s.sas ==> !s.sas[spi].handover
    ensures Unique(AuthFinal(s, spi, remote, f))
  {
    if spi in s.sas && s.sas[spi].phase == Auth && s.sas[spi].eapRound != 0 {
      assert SaOk(s, spi);
      var sa := s.sas[spi].(remote := remote);
      var s0 := s.(sas := s.sas[spi := sa]);
      AttachKeeps(s, spi, s0);
      NoNewActiveUnique(s, s0);
      DetachKeeps(s0, spi, sa.imsi, sa.apn);
      var s1 := Detach(s0, spi, sa.imsi, sa.apn);
      NoNewActiveUnique(s0, s1);
      if sa.hasMsk && f.authOk && f.s2bOk && sa.imsi != "" && sa.apn != "" {
        DetachClears(s0, spi, sa.imsi, sa.apn);
        FinalInstallUnique(s1, spi, f);
      }
    }
  }

  lemma FinalInstallUnique(s: State, spi: nat, f: Final)
    requires Inv(s) && Unique(s) && spi in s.sas && s.sas[spi].phase == Auth && s.sas[spi].eapRound > 0
    requires forall id :: !ActiveFor(s, id, s.sas[spi].imsi, s.sas[spi].apn)
    ensures Unique(FinalInstall(s, spi, f))
  {
    var s' := FinalInstall(s, spi, f);
    forall i, j | ActiveId(s', i) && ActiveId(s', j) && SameSubscriber(s'.sessions[i], s'.sessions[j])
      ensures i == j
    {
      FinalInstallActive(s, spi, f, i);
      FinalInstallActive(s, spi, f, j);
      assert !ActiveFor(s, i, s.sas[spi].imsi, s.sas[spi].apn);
      assert !ActiveFor(s, j, s.sas[spi].imsi, s.sas[spi].apn);
    }
  }

  /** A handover attach skips the detach. If it activates its session, sessions stay unique
      if and only if none was active for that subscriber and APN before. */
  lemma HandoverUniqueIff(s: State, spi: nat, remote: Ip, f: Final)
    requires Inv(s) && Unique(s) && spi in s.sas && s.sas[spi].phase == Auth && s.sas[spi].handover
    requires s.sas[spi].sessionId.Some? && ActiveId(AuthFinal(s, spi, remote, f), s.sas[spi].sessionId.value)
    ensures Unique(AuthFinal(s, spi, remote, f))
            <==> forall id :: !ActiveFor(s, id, s.sas[spi].imsi, s.sas[spi].apn)
  {
    assert SaOk(s, spi) && Attaching(s, spi);
    var sa := s.sas[spi].(remote := remote);
    var s0 := s.(sas := s.sas[spi := sa]);
    var s' := AuthFinal(s, spi, remote, f);
    var id := sa.sessionId.value;
    AttachKeeps(s, spi, s0);
    assert s' == FinalInstall(s0, spi, f);
    FinalInstallActive(s0, spi, f, id);
    if forall x :: !ActiveFor(s, x, sa.imsi, sa.apn) {
      assert forall x :: ActiveFor(s0, x, sa.imsi, sa.apn) ==> ActiveFor(s, x, sa.imsi, sa.apn);
      FinalInstallUnique(s0, spi, f);
    } else {
      var x :| ActiveFor(s, x, sa.imsi, sa.apn);
      assert x != id && ActiveId(s', x) && SameSubscriber(s'.sessions[x], s'.sessions[id]);
    }
  }

  // -------------------------------------------------------------- whole runs

  lemma StepKeeps(s: State, e: Event)
    requires Inv(s) && Distinct(s, e)
    ensures Inv(Step(s, e))
  {
    match e
    case EvInit(spiI, spiR, remote, localIp) => InitKeeps(s, spiI, spiR, remote, localIp);
    case EvRound1(spi, remote, r) => Round1Keeps(s, spi, remote, r);
    case EvEapSuccess(spi, remote, msk64, permanent) => EapKeeps(s, spi, remote, msk64, permanent);
    case EvFinal(spi, remote, f) => AuthFinalKeeps(s, spi, remote, f);
    case EvChildRekey(spi, remote, c, f) => ChildRekeyKeeps(s, spi, remote, c, f);
    case EvIkeRekey(spi, newI, newR) => IkeRekeyKeeps(s, spi, newI, newR);
    case EvEspDelete(spi, xs) => if spi in s.sas { EspDeleteKeeps(s, spi, xs); }
    case EvTeardown(spi) => if spi in s.sas { TeardownKeeps(s, spi); }
    case EvExpire(spi) => ExpireKeeps(s, spi);
    case EvPgwDelete(id) => PgwKeeps(s, Step(s, e));
    case EvPgwHandoverDelete(id) => PgwKeeps(s, Step(s, e));
  }

  /** A delete from the PGW takes a session away or ends it. */
  lemma PgwKeeps(s: State, s': State)
    requires Inv(s) && s'.sas == s.sas && s'.used == s.used && NoNewActive(s, s')
    requires s'.sessions.Keys <= s.sessions.Keys
    requires forall id :: id in s'.sessions ==>
               s'.sessions[id].(phase := s.sessions[id].phase, hasS2b := s.sessions[id].hasS2b) == s.sessions[id]
    ensures Inv(s')
  {
    forall a | a in s'.sas ensures SaOk(s', a) { assert SaOk(s, a); }
    forall id | id in s'.sessions ensures SessionOk(s', id) {
      assert SessionOk(s, id);
      assert ActiveId(s', id) ==> ActiveId(s, id);
    }
  }

  lemma ExpireKeeps(s: State, spi: nat)
    requires Inv(s)
    ensures Inv(Step(s, EvExpire(spi)))
  {
    var s' := Step(s, EvExpire(spi));
    forall a | a in s'.sas ensures SaOk(s', a) { assert SaOk(s, a); }
    forall id | id in s'.sessions ensures SessionOk(s', id) { assert SessionOk(s, id); }
  }

  predicate NoHandover(e: Event) {
    e.EvRound1? ==> !e.round1.handover
  }

  predicate NoneHandsOver(s: State) {
    forall a :: a in s.sas ==> !s.sas[a].handover
  }

  lemma Round1NoNewActive(s: State, spi: nat, remote: Ip, r: Round1)
    requires Inv(s)
    ensures NoNewActive(s, AuthRound1(s, spi, remote, r))
  {
    if spi in s.sas { assert SaOk(s, spi); }
  }

  lemma EapNoNewActive(s: State, spi: nat, remote: Ip, msk64: bool, permanent: Option<string>)
    requires Inv(s)
    ensures NoNewActive(s, EapSuccess(s, spi, remote, msk64, permanent))
  {
    if spi in s.sas { assert SaOk(s, spi); }
  }

  lemma RekeyNoNewActive(s: State, e: Event)
    requires Inv(s) && (e.EvInit? || e.EvChildRekey? || e.EvIkeRekey?)
    ensures NoNewActive(s, Step(s, e))
  {}

  lemma TeardownNoNewActive(s: State, spi: nat)
    requires spi in s.sas
    ensures NoNewActive(s, Teardown(s, spi))
  {
    var s' := Teardown(s, spi);
    forall id | ActiveId(s', id) ensures ActiveId(s, id) && s.sessions[id] == s'.sessions[id] {}
  }

  lemma PgwNoNewActive(s: State, id: SessionId)
    ensures NoNewActive(s, PgwDelete(s, id)) && NoNewActive(s, PgwHandoverDelete(s, id))
  {}

  lemma StepUnique(s: State, e: Event)
    requires Inv(s) && Unique(s) && NoneHandsOver(s) && NoHandover(e)
    ensures Unique(Step(s, e))
  {
    if e.EvFinal? {
      AuthFinalUnique(s, e.spi, e.remote, e.final);
    } else {
      if e.EvEspDelete? {
        if e.spi in s.sas { EspDeleteKeeps(s, e.spi, e.xs); }
      } else if e.EvRound1? {
        Round1NoNewActive(s, e.spi, e.remote, e.round1);
      } else if e.EvEapSuccess? {
        EapNoNewActive(s, e.spi, e.remote, e.msk64, e.permanent);
      } else if e.EvInit? || e.EvChildRekey? || e.EvIkeRekey? {
        RekeyNoNewActive(s, e);
      } else if e.EvTeardown? {
        if e.spi in s.sas { TeardownNoNewActive(s, e.spi); }
      } else if e.EvPgwDelete? || e.EvPgwHandoverDelete? {
        PgwNoNewActive(s, e.id);
      }
      NoNewActiveUnique(s, Step(s, e));
    }
  }

  predicate SameFrame(x: IkeSa, y: IkeSa) {
    x.handover == y.handover && x.phase == y.phase && x.sessionId == y.sessionId
  }

  lemma {:induction false} EspDeleteFrame(s: State, spi: nat, xs: seq<nat>, a: nat)
    requires spi in s.sas && a in s.sas
    ensures var s' := EspDeleteAll(s, spi, xs);
            a in s'.sas && SameFrame(s'.sas[a], s.sas[a]) && s'.used == s.used && s'.sas.Keys == s.sas.Keys
    decreases |xs|
  {
    if xs == [] {
    } else {
      var s1 := EspDelete1(s, spi, xs[0]);
      assert a in s1.sas && SameFrame(s1.sas[a], s.sas[a]) && s1.used == s.used && s1.sas.Keys == s.sas.Keys;
      EspDeleteFrame(s1, spi, xs[1..], a);
    }
  }

  lemma TeardownFrame(s: State, spi: nat, a: nat)
    requires spi in s.sas && a in Teardown(s, spi).sas
    ensures a in s.sas && Teardown(s, spi).sas[a] == s.sas[a] && Teardown(s, spi).used == s.used
  {}

  lemma InstallFrame(s: State, spi: nat, f: Final, a: nat)
    requires spi in s.sas && a in FinalInstall(s, spi, f).sas
    ensures var s' := FinalInstall(s, spi, f);
            && a in s.sas && s'.used == s.used
            && s'.sas[a].handover == s.sas[a].handover && s'.sas[a].sessionId == s.sas[a].sessionId
            && (s.sas[a].phase == Established ==> s'.sas[a].phase == Established)
  {}

  lemma DetachFrame(s: State, spi: nat, imsi: string, apn: string)
    ensures var s' := Detach(s, spi, imsi, apn);
            && s'.used == s.used && (spi in s.sas ==> spi in s'.sas)
            && forall a :: a in s'.sas ==> a in s.sas && s'.sas[a] == s.sas[a]
  {
    var s' := Detach(s, spi, imsi, apn);
    if s' != s {
      forall a | a in s'.sas ensures a in s.sas && s'.sas[a] == s.sas[a] {
        TeardownFrame(s, s.sessions[FindSingleActive(s, imsi, apn).value].ikeSpiI, a);
      }
    }
  }

  lemma FinalFrame(s: State, spi: nat, remote: Ip, f: Final, a: nat)
    requires a in AuthFinal(s, spi, remote, f).sas
    ensures var s' := AuthFinal(s, spi, remote, f);
            && a in s.sas && s'.used == s.used
            && s'.sas[a].handover == s.sas[a].handover && s'.sas[a].sessionId == s.sas[a].sessionId
            && (s.sas[a].phase == Established ==> s'.sas[a].phase == Established)
  {
    if spi in s.sas && s.sas[spi].phase == Auth && s.sas[spi].eapRound != 0 {
      var sa := s.sas[spi].(remote := remote);
      var s0 := s.(sas := s.sas[spi := sa]);
      if sa.hasMsk && f.authOk {
        DetachFrame(s0, spi, sa.imsi, sa.apn);
        var s1 := if sa.handover then s0 else Detach(s0, spi, sa.imsi, sa.apn);
        if f.s2bOk && sa.imsi != "" && sa.apn != "" {
          InstallFrame(s1, spi, f, a);
        }
      }
    }
  }

  lemma StepNoHandover(s: State, e: Event, a: nat)
    requires NoneHandsOver(s) && NoHandover(e) && a in Step(s, e).sas
    ensures !Step(s, e).sas[a].handover
  {
    match e
    case EvEspDelete(spi, xs) => if spi in s.sas { EspDeleteFrame(s, spi, xs, spi); EspDeleteFrame(s, spi, xs, a); }
    case EvFinal(spi, remote, f) => FinalFrame(s, spi, remote, f, a);
    case EvTeardown(spi) => if spi in s.sas { TeardownFrame(s, spi, a); }
    case _ =>
  }

  ghost predicate DistinctRun(s: State, es: seq<Event>) {
    forall i :: 0 <= i < |es| ==> Distinct(Run(s, es[..i]), es[i])
  }

  /** In every run with distinct initiator SPIs, IKE rekeys included, sessions and SAs stay
      tied as Inv says; without handover attaches there is at most one active session per
      subscriber and APN. */
  lemma {:induction false} RunKeeps(es: seq<Event>)
    requires DistinctRun(Init, es)
    ensures Inv(Run(Init, es))
    ensures (forall e :: e in es ==> NoHandover(e)) ==> Unique(Run(Init, es)) && NoneHandsOver(Run(Init, es))
  {
    if es == [] {
    } else {
      var front := es[..|es|-1];
      assert forall i :: 0 <= i < |front| ==> front[..i] == es[..i];
      RunKeeps(front);
      var s, e := Run(Init, front), es[|es|-1];
      StepKeeps(s, e);
      if forall x :: x in es ==> NoHandover(x) {
        StepUnique(s, e);
        forall a | a in Step(s, e).sas ensures !Step(s, e).sas[a].handover { StepNoHandover(s, e, a); }
      }
    }
  }

  /** What Inv says of an active session: its IkeSPII names the one SA in the table that
      holds its id, and its ESP SPIs are that SA's current pair. */
  lemma ActiveNamesItsSa(s: State, id: SessionId)
    requires Inv(s) && ActiveId(s, id)
    ensures var spi := s.sessions[id].ikeSpiI;
            && Holds(s, spi, id) && s.sas[spi].phase == Established
            && s.sas[spi].cur == s.sessions[id].esp
            && forall a :: Holds(s, a, id) ==> a == spi
  {
    assert SessionOk(s, id);
    forall a | Holds(s, a, id) ensures a == s.sessions[id].ikeSpiI { assert SaOk(s, a); }
  }

  predicate Away(s: State, spi: nat) {
    spi in s.used && (spi in s.sas ==> s.sas[spi].phase == Established && s.sas[spi].sessionId.None?)
  }

  lemma StepAway(s: State, e: Event, spi: nat)
    requires Away(s, spi) && Distinct(s, e)
    ensures Away(Step(s, e), spi)
  {
    var s' := Step(s, e);
    match e
    case EvEspDelete(x, xs) =>
      if x in s.sas {
        EspDeleteFrame(s, x, xs, x);
        if spi in s.sas { EspDeleteFrame(s, x, xs, spi); }
      }
    case EvFinal(x, remote, f) =>
      if spi in s'.sas { FinalFrame(s, x, remote, f, spi); }
      FinalUsed(s, x, remote, f);
    case EvTeardown(x) => if x in s.sas && spi in s'.sas { TeardownFrame(s, x, spi); }
    case _ =>
  }

  lemma FinalUsed(s: State, spi: nat, remote: Ip, f: Final)
    ensures AuthFinal(s, spi, remote, f).used == s.used
  {}

  /** Once an SA was rekeyed away it never holds a session again, so tearing it down, now or
      after any further events, leaves every session as it is. */
  lemma {:induction false} RekeyedAwayIsHarmless(s: State, spi: nat, es: seq<Event>)
    requires Away(s, spi) && DistinctRun(s, es)
    ensures Away(Run(s, es), spi)
    ensures spi in Run(s, es).sas ==> Teardown(Run(s, es), spi).sessions == Run(s, es).sessions
  {
    if es == [] {
    } else {
      var front := es[..|es|-1];
      assert forall i :: 0 <= i < |front| ==> front[..i] == es[..i];
      RekeyedAwayIsHarmless(s, spi, front);
      StepAway(Run(s, front), es[|es|-1], spi);
    }
  }

  /** Right after an IKE rekey the old SA is in that state. */
  lemma IkeRekeyDetaches(s: State, spi: nat, newI: nat, newR: nat)
    requires Inv(s) && spi in s.sas && s.sas[spi].phase == Established && newI != 0 && newI !in s.used
    ensures var s' := IkeRekey(s, spi, newI, newR);
            && spi in s'.sas && Away(s', spi)
            && newI in s'.sas && s'.sas[newI].sessionId == s.sas[spi].sessionId
            && s'.sas[newI].cur == s.sas[spi].cur
            && (forall id :: ActiveId(s, id) ==> ActiveId(s', id))
  {
    assert SaOk(s, spi);
  }

  // ------------------------------------------------- what an event leaves alone

  /** Events for an SPI that names no SA, or an SA in the wrong phase, change nothing. */
  lemma GuardsHold(s: State, e: Event)
    ensures !e.EvInit? && !e.EvPgwDelete? && !e.EvPgwHandoverDelete? && e.spi !in s.sas ==> Step(s, e) == s
    ensures e.EvRound1? && e.spi in s.sas && (s.sas[e.spi].phase != Auth || s.sas[e.spi].eapRound != 0) ==> Step(s, e) == s
    ensures (e.EvEapSuccess? || e.EvFinal?) && e.spi in s.sas && (s.sas[e.spi].phase != Auth || s.sas[e.spi].eapRound == 0)
            ==> Step(s, e) == s
    ensures (e.EvChildRekey? || e.EvIkeRekey?) && e.spi in s.sas && s.sas[e.spi].phase != Established ==> Step(s, e) == s
    ensures e.EvExpire? && e.spi in s.sas && s.sas[e.spi].phase == Established ==> Step(s, e) == s
    ensures e.EvIkeRekey? && e.newI == 0 ==> Step(s, e) == s
  {}

  /** The reaper takes away a half-open SA and nothing else; the PGW's deletes touch one session
      and neither SAs nor the kernel. */
  lemma DeletesTouchOne(s: State, e: Event)
    ensures e.EvExpire? && e.spi in s.sas && s.sas[e.spi].phase == Auth ==>
              Step(s, e) == s.(sas := s.sas - {e.spi}, live := s.live - {e.spi})
    ensures e.EvPgwDelete? ==> Step(s, e) == s.(sessions := s.sessions - {e.id})
    ensures e.EvPgwHandoverDelete? && e.id !in s.sessions ==> Step(s, e) == s
    ensures e.EvPgwHandoverDelete? && e.id in s.sessions ==>
              var s' := Step(s, e);
              && s'.sas == s.sas && s'.kernel == s.kernel && s'.live == s.live && s'.sessions.Keys == s.sessions.Keys
              && (forall i :: i in s.sessions && i != e.id ==> s'.sessions[i] == s.sessions[i])
              && s'.sessions[e.id] == s.sessions[e.id].(hasS2b := false, phase := s'.sessions[e.id].phase)
              && s'.sessions[e.id].phase == (if s.sessions[e.id].phase == New then New else Deleted)
  {
    if e.EvPgwHandoverDelete? && e.id in s.sessions {
      assert s.sessions[e.id].phase == New || Step(s, e).sessions[e.id].phase == Deleted;
    }
  }

  /** The implicit detach tears down the SA of the subscriber's only active session on the APN,
      or of the only one at all if none is named; with two or none it does nothing. */
  lemma DetachOnly(s: State, spi: nat, imsi: string, apn: string)
    ensures Detach(s, spi, imsi, apn) != s ==>
              exists id :: OnlyActive(s, id, imsi, apn) && s.sessions[id].ikeSpiI in s.sas && s.sessions[id].ikeSpiI != spi
                && Detach(s, spi, imsi, apn) == Teardown(s, s.sessions[id].ikeSpiI)
    ensures forall id, id' :: id != id' && ActiveFor(s, id, imsi, apn) && ActiveFor(s, id', imsi, apn) ==>
              Detach(s, spi, imsi, apn) == s
    ensures forall id :: OnlyActive(s, id, imsi, apn) && imsi != "" ==>
              var other := s.sessions[id].ikeSpiI;
              Detach(s, spi, imsi, apn) == if other !in s.sas || other == spi then s else Teardown(s, other)
  {}

  lemma TeardownLeaves(s: State, spi: nat, id: SessionId)
    requires spi in s.sas && id in s.sessions
    ensures id in Teardown(s, spi).sessions ==> Teardown(s, spi).sessions[id] == s.sessions[id]
  {}

  lemma UpdateOnward(s: State, at: Option<SessionId>, f: Session -> Session, id: SessionId)
    requires id in s.sessions && forall x: Session :: Rank(x.phase) <= Rank(f(x).phase)
    ensures id in UpdateSession(s, at, f).sessions && Rank(s.sessions[id].phase) <= Rank(UpdateSession(s, at, f).sessions[id].phase)
  {}

  lemma InstallOnward(s: State, spi: nat, f: Final, id: SessionId)
    requires spi in s.sas && id in s.sessions
    ensures var s' := FinalInstall(s, spi, f); id in s'.sessions && Rank(s.sessions[id].phase) <= Rank(s'.sessions[id].phase)
  {
    UpdateOnward(s, s.sas[spi].sessionId, S2bDone, id);
    assert forall x: Session, c: Child, ok: bool :: Rank(x.phase) <= Rank(Installed(x, c, ok).phase);
  }

  lemma DetachLeaves(s: State, spi: nat, imsi: string, apn: string, id: SessionId)
    requires id in s.sessions
    ensures var s' := Detach(s, spi, imsi, apn); id in s'.sessions ==> s'.sessions[id] == s.sessions[id]
  {
    var found := FindSingleActive(s, imsi, apn);
    if found.Some? && s.sessions[found.value].ikeSpiI in s.sas {
      TeardownLeaves(s, s.sessions[found.value].ikeSpiI, id);
    }
  }

  lemma FinalOnward(s: State, spi: nat, remote: Ip, f: Final, id: SessionId)
    requires id in s.sessions
    ensures var s' := AuthFinal(s, spi, remote, f); id in s'.sessions ==> Rank(s.sessions[id].phase) <= Rank(s'.sessions[id].phase)
  {
    if spi in s.sas && s.sas[spi].phase == Auth && s.sas[spi].eapRound > 0 {
      var sa := s.sas[spi].(remote := remote);
      var s0 := s.(sas := s.sas[spi := sa]);
      DetachLeaves(s0, spi, sa.imsi, sa.apn, id);
      var s1 := if sa.handover then s0 else Detach(s0, spi, sa.imsi, sa.apn);
      if id in s1.sessions { InstallOnward(s1, spi, f, id); }
    }
  }

  lemma {:induction false} EspDeletesKeep(s: State, spi: nat, xs: seq<nat>, id: SessionId)
    requires spi in s.sas && id in s.sessions
    ensures var s' := EspDeleteAll(s, spi, xs); id in s'.sessions && s'.sessions[id].phase == s.sessions[id].phase
    decreases |xs|
  {
    if xs == [] {
    } else {
      EspDeletesKeep(EspDelete1(s, spi, xs[0]), spi, xs[1..], id);
    }
  }

  /** No event moves a session back: while it is in the table its phase only goes forward, and
      one that is over stays over. */
  lemma PhasesOnward(s: State, e: Event, id: SessionId)
    requires id in s.sessions && id in Step(s, e).sessions
    ensures Rank(s.sessions[id].phase) <= Rank(Step(s, e).sessions[id].phase)
    ensures Ended(s.sessions[id].phase) ==> Ended(Step(s, e).sessions[id].phase)
  {
    match e
    case EvFinal(spi, remote, f) => FinalOnward(s, spi, remote, f, id);
    case EvEspDelete(spi, xs) => if spi in s.sas { EspDeletesKeep(s, spi, xs, id); }
    case EvTeardown(spi) => if spi in s.sas { TeardownLeaves(s, spi, id); }
    case _ =>
  }
}
