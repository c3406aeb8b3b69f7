/** What an attach takes: over every run, whatever is active, live or in the kernel goes back to a
    verified final IKE_AUTH after an EAP success with a 64-octet key. */
module IkeAuth {
  import opened Octets
  import opened IkeLifecycle
  import opened SessionFsm

  // ------------------------------------------------------------------ history

  /** A new SA in IKE_AUTH takes this initiator SPI. */
  predicate Creates(e: Event, spi: nat) {
    e.EvInit? && e.spiI == spi
  }

  /** A first IKE_AUTH with an identity and a proposal, which SWm answered. */
  predicate Asks(e: Event, spi: nat) {
    e.EvRound1? && e.spi == spi && e.round1.parsed && e.round1.proposalOk && e.round1.swmAnswers
  }

  predicate Keys(e: Event, spi: nat) {
    e.EvEapSuccess? && e.spi == spi && e.msk64
  }

  /** A final IKE_AUTH whose AUTH payload was verified and whose session the PGW accepted. */
  predicate Proves(e: Event, spi: nat) {
    e.EvFinal? && e.spi == spi && e.final.authOk && e.final.s2bOk && e.final.spiOk
  }

  ghost predicate Asked(es: seq<Event>, spi: nat) {
    exists b :: 0 <= b < |es| && Asks(es[b], spi) && forall k :: b < k < |es| ==> !Creates(es[k], spi)
  }

  /** Asked and then keyed, by the SA that has the SPI now. */
  ghost predicate Keyed(es: seq<Event>, spi: nat) {
    exists b, c :: 0 <= b < c < |es| && Asks(es[b], spi) && Keys(es[c], spi)
      && forall k :: b < k < |es| ==> !Creates(es[k], spi)
  }

  /** Event `d` proves the identity of an SA that was keyed before. */
  ghost predicate ProvedAt(es: seq<Event>, spi: nat, d: nat) {
    d < |es| && Proves(es[d], spi) && Keyed(es[..d], spi)
  }

  ghost predicate Proved(es: seq<Event>, spi: nat) {
    exists d: nat :: ProvedAt(es, spi, d)
  }

  /** And the GTP-U session could be added. */
  ghost predicate Activated(es: seq<Event>, spi: nat) {
    exists d: nat :: ProvedAt(es, spi, d) && es[d].final.gtpuOk
  }

  lemma StillAsked(es: seq<Event>, e: Event, spi: nat)
    requires Asked(es, spi) && !Creates(e, spi)
    ensures Asked(es + [e], spi)
  {
    var all := es + [e];
    assert forall k :: 0 <= k < |es| ==> all[k] == es[k];
    var b :| 0 <= b < |es| && Asks(es[b], spi) && forall k :: b < k < |es| ==> !Creates(es[k], spi);
    assert Asks(all[b], spi);
  }

  lemma StillKeyed(es: seq<Event>, e: Event, spi: nat)
    requires Keyed(es, spi) && !Creates(e, spi)
    ensures Keyed(es + [e], spi)
  {
    var all := es + [e];
    assert forall k :: 0 <= k < |es| ==> all[k] == es[k];
    var b, c :| 0 <= b < c < |es| && Asks(es[b], spi) && Keys(es[c], spi)
                && forall k :: b < k < |es| ==> !Creates(es[k], spi);
    assert Asks(all[b], spi) && Keys(all[c], spi);
  }

  lemma StillProved(es: seq<Event>, e: Event, spi: nat)
    ensures Proved(es, spi) ==> Proved(es + [e], spi)
    ensures Activated(es, spi) ==> Activated(es + [e], spi)
  {
    var all := es + [e];
    forall d: nat | ProvedAt(es, spi, d) ensures ProvedAt(all, spi, d) {
      assert all[..d] == es[..d] && all[d] == es[d];
    }
  }

  // ---------------------------------------------------------------- invariant

  /** What the history says of one SA. */
  ghost predicate SaEarned(es: seq<Event>, a: nat, sa: IkeSa, live: bool) {
    && sa.spiI == a
    && (sa.phase == Auth ==>
          && !live && sa.pending.None?
          && (sa.sessionId.None? || sa.sessionId == Some(SessionId(a, sa.spiR)))
          && (sa.eapRound > 0 ==> Asked(es, a) && sa.sessionId.Some?)
          && (sa.hasMsk ==> sa.eapRound > 0 && Keyed(es, a)))
    && (sa.phase == Established ==> exists x :: Proved(es, x))
    && (sa.phase == Established && sa.esp ==> sa.sessionId.Some? && Proved(es, sa.sessionId.value.spiI))
    && (live ==> sa.esp)
  }

  ghost predicate Earned(s: State, es: seq<Event>) {
    && (forall a :: a in s.sas ==> SaEarned(es, a, s.sas[a], a in s.live))
    && (forall id :: id in s.sessions && s.sessions[id].phase == Active ==> Activated(es, id.spiI))
    && s.live <= s.sas.Keys
    && (s.kernel != {} ==> exists x :: Proved(es, x))
  }

  /** Nothing that the history speaks of changed, but that the SA may have stopped being live. */
  predicate SameAuth(x: IkeSa, y: IkeSa) {
    x.spiI == y.spiI && x.spiR == y.spiR && x.phase == y.phase && x.eapRound == y.eapRound && x.hasMsk == y.hasMsk
    && x.esp == y.esp && x.sessionId == y.sessionId && (x.phase == Auth ==> x.pending == y.pending)
  }

  lemma SaCarried(es: seq<Event>, e: Event, a: nat, x: IkeSa, y: IkeSa, live: bool, live': bool)
    requires SaEarned(es, a, x, live) && SameAuth(x, y) && !Creates(e, a)
    requires live' ==> live || (y.esp && y.phase == Established)
    ensures SaEarned(es + [e], a, y, live')
  {
    if Asked(es, a) { StillAsked(es, e, a); }
    if Keyed(es, a) { StillKeyed(es, e, a); }
    if x.phase == Established {
      var p :| Proved(es, p);
      StillProved(es, e, p);
      if x.esp { StillProved(es, e, x.sessionId.value.spiI); }
    }
  }

  /** The parts of a step that the history has to follow. */
  ghost predicate Follows(s: State, es: seq<Event>, e: Event, s': State) {
    && (forall a :: a in s'.sas ==>
          || SaEarned(es + [e], a, s'.sas[a], a in s'.live)
          || (&& a in s.sas && SameAuth(s.sas[a], s'.sas[a]) && !Creates(e, a)
              && (a in s'.live ==> a in s.live || (s'.sas[a].esp && s'.sas[a].phase == Established))))
    && (forall id :: id in s'.sessions && s'.sessions[id].phase == Active ==>
          (id in s.sessions && s.sessions[id].phase == Active) || Activated(es + [e], id.spiI))
    && s'.live <= s'.sas.Keys
    && (s'.kernel != {} ==> s.kernel != {} || exists x :: Proved(es + [e], x))
  }

  lemma Carry(s: State, es: seq<Event>, e: Event, s': State)
    requires Earned(s, es) && Follows(s, es, e, s')
    ensures Earned(s', es + [e])
  {
    forall a | a in s'.sas ensures SaEarned(es + [e], a, s'.sas[a], a in s'.live) {
      if !SaEarned(es + [e], a, s'.sas[a], a in s'.live) {
        SaCarried(es, e, a, s.sas[a], s'.sas[a], a in s.live, a in s'.live);
      }
    }
    forall id | id in s'.sessions && s'.sessions[id].phase == Active ensures Activated(es + [e], id.spiI) {
      StillProved(es, e, id.spiI);
    }
    if s'.kernel != {} && s.kernel != {} {
      var x :| Proved(es, x);
      StillProved(es, e, x);
    }
  }

  // -------------------------------------------------------------- one event

  lemma JustAsked(es: seq<Event>, e: Event, spi: nat)
    requires Asks(e, spi)
    ensures Asked(es + [e], spi)
  {
    var all := es + [e];
    assert all[|es|] == e;
  }

  lemma JustKeyed(es: seq<Event>, e: Event, spi: nat)
    requires Asked(es, spi) && Keys(e, spi)
    ensures Keyed(es + [e], spi)
  {
    var all := es + [e];
    var b :| 0 <= b < |es| && Asks(es[b], spi) && forall k :: b < k < |es| ==> !Creates(es[k], spi);
    assert forall k :: 0 <= k < |es| ==> all[k] == es[k];
    assert all[|es|] == e && Asks(all[b], spi) && Keys(all[|es|], spi);
  }

  lemma JustProved(es: seq<Event>, e: Event, spi: nat)
    requires Keyed(es, spi) && Proves(e, spi)
    ensures Proved(es + [e], spi) && (e.final.gtpuOk ==> Activated(es + [e], spi))
  {
    var all := es + [e];
    assert all[..|es|] == es && all[|es|] == e;
    assert ProvedAt(all, spi, |es|);
  }

  lemma InitFollows(s: State, es: seq<Event>, e: Event)
    requires Earned(s, es) && e.EvInit?
    ensures Follows(s, es, e, Step(s, e))
  {}

  lemma Round1Follows(s: State, es: seq<Event>, e: Event)
    requires Earned(s, es) && e.EvRound1?
    ensures Follows(s, es, e, Step(s, e))
  {
    var s' := Step(s, e);
    if e.spi in s.sas && s.sas[e.spi].phase == Auth && s.sas[e.spi].eapRound == 0 {
      assert SaEarned(es, e.spi, s.sas[e.spi], e.spi in s.live);
      if Asks(e, e.spi) { JustAsked(es, e, e.spi); }
      assert SaEarned(es + [e], e.spi, s'.sas[e.spi], e.spi in s'.live);
    }
  }

  /** One SA changed, and is earned again. */
  lemma OneFollows(s: State, es: seq<Event>, e: Event, s': State, spi: nat)
    requires Earned(s, es) && spi in s'.sas && s'.sas == s.sas[spi := s'.sas[spi]] && s'.live == s.live
    requires s'.kernel == s.kernel && SaEarned(es + [e], spi, s'.sas[spi], spi in s'.live)
    requires forall a :: a != spi ==> !Creates(e, a)
    requires forall id :: id in s'.sessions && s'.sessions[id].phase == Active ==>
               id in s.sessions && s.sessions[id].phase == Active
    ensures Follows(s, es, e, s')
  {}

  lemma EapFollows(s: State, es: seq<Event>, e: Event)
    requires Earned(s, es) && e.EvEapSuccess?
    ensures Follows(s, es, e, Step(s, e))
  {
    var s' := Step(s, e);
    if e.spi in s.sas && s.sas[e.spi].phase == Auth && s.sas[e.spi].eapRound != 0 {
      assert SaEarned(es, e.spi, s.sas[e.spi], e.spi in s.live);
      StillAsked(es, e, e.spi);
      if e.msk64 { JustKeyed(es, e, e.spi); }
      OneFollows(s, es, e, s', e.spi);
    }
  }

  /** SAs, sessions, live SAs and kernel states only leave. */
  ghost predicate Shrinks(s: State, s': State) {
    && (forall a :: a in s'.sas ==> a in s.sas && SameAuth(s.sas[a], s'.sas[a]))
    && (forall id :: id in s'.sessions && s'.sessions[id].phase == Active ==>
          id in s.sessions && s.sessions[id].phase == Active)
    && s'.live <= s'.sas.Keys && s'.live <= s.live && s'.kernel <= s.kernel
  }

  lemma ShrinkFollows(s: State, es: seq<Event>, e: Event, s': State)
    requires Earned(s, es) && Shrinks(s, s') && forall a :: a in s'.sas ==> !Creates(e, a)
    ensures Follows(s, es, e, s')
  {}

  lemma TeardownShrinks(s: State, spi: nat)
    requires spi in s.sas && s.live <= s.sas.Keys
    ensures Shrinks(s, Teardown(s, spi))
  {}

  lemma DetachShrinks(s: State, spi: nat, imsi: string, apn: string)
    requires s.live <= s.sas.Keys
    ensures Shrinks(s, Detach(s, spi, imsi, apn))
    ensures spi in s.sas ==> spi in Detach(s, spi, imsi, apn).sas && Detach(s, spi, imsi, apn).sas[spi] == s.sas[spi]
  {
    if Detach(s, spi, imsi, apn) != s {
      TeardownShrinks(s, s.sessions[FindSingleActive(s, imsi, apn).value].ikeSpiI);
    }
  }

  lemma ShrinksTwice(s: State, s1: State, s2: State)
    requires Shrinks(s, s1) && Shrinks(s1, s2)
    ensures Shrinks(s, s2)
  {}

  /** What the install of the final round can change. */
  lemma InstallParts(s: State, spi: nat, f: Final)
    requires spi in s.sas && s.sas[spi].phase == Auth && s.live <= s.sas.Keys
    ensures var s' := FinalInstall(s, spi, f);
            && (!f.spiOk ==> Shrinks(s, s'))
            && (f.spiOk ==>
                  && s'.sas == s.sas[spi := s'.sas[spi]] && s'.sas[spi].phase == Established
                  && s'.sas[spi].spiI == s.sas[spi].spiI && s'.sas[spi].esp == s.sas[spi].esp
                  && s'.sas[spi].sessionId == s.sas[spi].sessionId
                  && s'.live <= s.live + {spi} && (spi in s'.live ==> spi in s.live || s.sas[spi].esp)
                  && forall id :: id in s'.sessions && s'.sessions[id].phase == Active ==>
                       (id in s.sessions && s.sessions[id].phase == Active) || (s.sas[spi].sessionId == Some(id) && f.gtpuOk))
  {}

  lemma InstallFollows(s: State, es: seq<Event>, e: Event, s1: State)
    requires Earned(s, es) && Shrinks(s, s1) && e.EvFinal? && e.spi in s1.sas && Proves(e, e.spi)
    requires s1.sas[e.spi].phase == Auth && s1.sas[e.spi].eapRound > 0 && s1.sas[e.spi].hasMsk
    ensures Follows(s, es, e, FinalInstall(s1, e.spi, e.final))
  {
    var s' := FinalInstall(s1, e.spi, e.final);
    assert SaEarned(es, e.spi, s.sas[e.spi], e.spi in s.live);
    JustProved(es, e, e.spi);
    InstallParts(s1, e.spi, e.final);
    assert SaEarned(es + [e], e.spi, s'.sas[e.spi], e.spi in s'.live);
  }

  /** The final round is refused, stops after the detach, or goes on to install. */
  lemma FinalParts(s: State, spi: nat, remote: Ip, f: Final) returns (s1: State)
    requires s.live <= s.sas.Keys
    ensures Shrinks(s, s1)
    ensures var s' := AuthFinal(s, spi, remote, f);
            || s' == s1
            || (&& spi in s.sas && s.sas[spi].imsi != "" && s.sas[spi].apn != ""
                && spi in s1.sas && s' == FinalInstall(s1, spi, f) && f.authOk && f.s2bOk
                && s1.sas[spi].phase == Auth && s1.sas[spi].eapRound > 0 && s1.sas[spi].hasMsk)
  {
    s1 := s;
    if spi in s.sas && s.sas[spi].phase == Auth && s.sas[spi].eapRound != 0 {
      var sa := s.sas[spi].(remote := remote);
      var s0 := s.(sas := s.sas[spi := sa]);
      s1 := s0;
      if sa.hasMsk && f.authOk && !sa.handover {
        DetachShrinks(s0, spi, sa.imsi, sa.apn);
        s1 := Detach(s0, spi, sa.imsi, sa.apn);
        ShrinksTwice(s, s0, s1);
      }
    }
  }

  lemma FinalFollows(s: State, es: seq<Event>, e: Event)
    requires Earned(s, es) && e.EvFinal?
    ensures Follows(s, es, e, Step(s, e))
  {
    var s1 := FinalParts(s, e.spi, e.remote, e.final);
    if Step(s, e) == s1 {
      ShrinkFollows(s, es, e, s1);
    } else if !e.final.spiOk {
      InstallParts(s1, e.spi, e.final);
      ShrinksTwice(s, s1, Step(s, e));
      ShrinkFollows(s, es, e, Step(s, e));
    } else {
      InstallFollows(s, es, e, s1);
    }
  }

  lemma ChildRekeyFollows(s: State, es: seq<Event>, e: Event)
    requires Earned(s, es) && e.EvChildRekey?
    ensures Follows(s, es, e, Step(s, e))
  {
    if Step(s, e) != s {
      assert SaEarned(es, e.spi, s.sas[e.spi], e.spi in s.live);
      var x :| Proved(es, x);
      StillProved(es, e, x);
    } else {
      ShrinkFollows(s, es, e, s);
    }
  }

  lemma IkeRekeyParts(s: State, spi: nat, newI: nat, newR: nat)
    requires spi in s.sas && s.sas[spi].phase == Established && newI != 0 && s.live <= s.sas.Keys
    ensures var s' := IkeRekey(s, spi, newI, newR);
            && newI in s'.sas && s'.sas[newI].spiI == newI && s'.sas[newI].phase == Established
            && s'.sas[newI].esp == s.sas[spi].esp && s'.sas[newI].sessionId == s.sas[spi].sessionId
            && (newI in s'.live ==> spi in s.live)
            && (spi != newI ==> s'.sas[spi].spiI == s.sas[spi].spiI && s'.sas[spi].phase == Established
                                && !s'.sas[spi].esp && spi !in s'.live)
            && (forall a :: a in s'.sas && a != newI && a != spi ==>
                  a in s.sas && s'.sas[a] == s.sas[a] && (a in s'.live ==> a in s.live))
            && s'.live <= s'.sas.Keys && s'.kernel == s.kernel
            && (forall id :: id in s'.sessions ==> id in s.sessions && s'.sessions[id].phase == s.sessions[id].phase)
  {}

  /** The new SA and the one it takes over from have earned what they have. */
  lemma RekeyedEarned(s: State, es: seq<Event>, e: Event)
    requires Earned(s, es) && e.EvIkeRekey? && e.spi in s.sas && s.sas[e.spi].phase == Established && e.newI != 0
    ensures var s' := Step(s, e);
            && (exists x :: Proved(es + [e], x)) && e.newI in s'.sas
            && SaEarned(es + [e], e.newI, s'.sas[e.newI], e.newI in s'.live)
            && (e.spi != e.newI ==> e.spi in s'.sas && SaEarned(es + [e], e.spi, s'.sas[e.spi], e.spi in s'.live))
  {
    assert SaEarned(es, e.spi, s.sas[e.spi], e.spi in s.live);
    IkeRekeyParts(s, e.spi, e.newI, e.newR);
    var x :| Proved(es, x);
    StillProved(es, e, x);
    if s.sas[e.spi].esp { StillProved(es, e, s.sas[e.spi].sessionId.value.spiI); }
  }

  lemma IkeRekeyFollows(s: State, es: seq<Event>, e: Event)
    requires Earned(s, es) && e.EvIkeRekey?
    ensures Follows(s, es, e, Step(s, e))
  {
    if e.spi in s.sas && s.sas[e.spi].phase == Established && e.newI != 0 {
      RekeyedEarned(s, es, e);
      IkeRekeyParts(s, e.spi, e.newI, e.newR);
    } else {
      ShrinkFollows(s, es, e, s);
    }
  }

  /** Deletes keep everything of an SA but its pairs; a promotion makes an established SA live. */
  ghost predicate Deletes(s: State, s': State) {
    && s'.sas.Keys == s.sas.Keys && (forall a :: a in s.sas ==> SameAuth(s.sas[a], s'.sas[a]))
    && s'.sessions.Keys == s.sessions.Keys
    && (forall id :: id in s.sessions ==> s'.sessions[id].phase == s.sessions[id].phase)
    && s'.live <= s'.sas.Keys && s'.kernel <= s.kernel
    && (forall a :: a in s'.live && a !in s.live ==> s.sas[a].esp && s.sas[a].phase == Established)
  }

  /** An SA in IKE_AUTH has no pending pair. */
  ghost predicate NoEarlyPair(s: State) {
    forall a :: a in s.sas && s.sas[a].phase == Auth ==> s.sas[a].pending.None?
  }

  lemma EspDelete1Deletes(s: State, spi: nat, x: nat)
    requires spi in s.sas && s.live <= s.sas.Keys && NoEarlyPair(s)
    ensures Deletes(s, EspDelete1(s, spi, x)) && NoEarlyPair(EspDelete1(s, spi, x))
  {}

  lemma DeletesTwice(s: State, s1: State, s2: State)
    requires Deletes(s, s1) && Deletes(s1, s2)
    ensures Deletes(s, s2)
  {}

  lemma {:induction false} EspDeleteDeletes(s: State, spi: nat, xs: seq<nat>)
    requires spi in s.sas && s.live <= s.sas.Keys && NoEarlyPair(s)
    ensures Deletes(s, EspDeleteAll(s, spi, xs))
    decreases |xs|
  {
    if xs == [] {
    } else {
      var s1 := EspDelete1(s, spi, xs[0]);
      EspDelete1Deletes(s, spi, xs[0]);
      EspDeleteDeletes(s1, spi, xs[1..]);
      DeletesTwice(s, s1, EspDeleteAll(s, spi, xs));
    }
  }

  lemma EspDeleteFollows(s: State, es: seq<Event>, e: Event)
    requires Earned(s, es) && e.EvEspDelete?
    ensures Follows(s, es, e, Step(s, e))
  {
    if e.spi in s.sas {
      assert NoEarlyPair(s) by {
        forall a | a in s.sas ensures SaEarned(es, a, s.sas[a], a in s.live) {}
      }
      EspDeleteDeletes(s, e.spi, e.xs);
    } else {
      ShrinkFollows(s, es, e, s);
    }
  }

  lemma LeaveFollows(s: State, es: seq<Event>, e: Event)
    requires Earned(s, es) && (e.EvTeardown? || e.EvExpire? || e.EvPgwDelete? || e.EvPgwHandoverDelete?)
    ensures Follows(s, es, e, Step(s, e))
  {
    if e.EvTeardown? && e.spi in s.sas { TeardownShrinks(s, e.spi); }
    ShrinkFollows(s, es, e, Step(s, e));
  }

  lemma StepEarned(s: State, es: seq<Event>, e: Event)
    requires Earned(s, es)
    ensures Earned(Step(s, e), es + [e])
  {
    match e {
      case EvInit(_, _, _, _) => InitFollows(s, es, e);
      case EvRound1(_, _, _) => Round1Follows(s, es, e);
      case EvEapSuccess(_, _, _, _) => EapFollows(s, es, e);
      case EvFinal(_, _, _) => FinalFollows(s, es, e);
      case EvChildRekey(_, _, _, _) => ChildRekeyFollows(s, es, e);
      case EvIkeRekey(_, _, _) => IkeRekeyFollows(s, es, e);
      case EvEspDelete(_, _) => EspDeleteFollows(s, es, e);
      case _ => LeaveFollows(s, es, e);
    }
    Carry(s, es, e, Step(s, e));
  }

  lemma {:induction false} RunEarned(es: seq<Event>)
    ensures Earned(Run(Init, es), es)
  {
    if es == [] {
    } else {
      var front, e := es[..|es| - 1], es[|es| - 1];
      RunEarned(front);
      StepEarned(Run(Init, front), front, e);
      assert es == front + [e];
    }
  }

  /** Over every run, with no assumption on SPIs or order: an active session goes back to a final
      IKE_AUTH of the SA it is named after, with a verified AUTH payload, an accepting PGW and an
      installed GTP-U session; an SA that is live to one of the SA its session is named after;
      and any established SA or kernel state to some such event. Before that event, and after
      the SA's IKE_SA_INIT, came its first IKE_AUTH and then an EAP success with a key. */
  lemma AttachIsProved(es: seq<Event>)
    ensures var s := Run(Init, es);
            && (forall id :: id in s.sessions && s.sessions[id].phase == Active ==> Activated(es, id.spiI))
            && (forall a :: a in s.live ==>
                  a in s.sas && s.sas[a].sessionId.Some? && Proved(es, s.sas[a].sessionId.value.spiI))
            && ((s.kernel != {} || exists a :: a in s.sas && s.sas[a].phase == Established) ==> exists x :: Proved(es, x))
  {
    RunEarned(es);
    var s := Run(Init, es);
    forall a | a in s.sas ensures SaEarned(es, a, s.sas[a], a in s.live) {}
  }

  /** A final IKE_AUTH without a verified AUTH payload, or without a key, changes nothing but the
      address of its SA. */
  lemma UnprovedChangesNothing(s: State, spi: nat, remote: Ip, f: Final)
    requires !f.authOk || (spi in s.sas && !s.sas[spi].hasMsk)
    ensures var s' := Step(s, EvFinal(spi, remote, f));
            && s'.sessions == s.sessions && s'.kernel == s.kernel && s'.live == s.live && s'.used == s.used
            && s'.sas.Keys == s.sas.Keys && (forall a :: a in s.sas && a != spi ==> s'.sas[a] == s.sas[a])
            && (spi in s.sas ==> s'.sas[spi].(remote := s.sas[spi].remote) == s.sas[spi])
  {}

  /** One that the PGW does not accept, or of a subscriber or APN that is not known, installs
      and activates nothing. */
  lemma RefusedInstallsNothing(s: State, spi: nat, remote: Ip, f: Final)
    requires s.live <= s.sas.Keys
    requires !f.s2bOk || !f.spiOk || (spi in s.sas && (s.sas[spi].imsi == "" || s.sas[spi].apn == ""))
    ensures var s' := Step(s, EvFinal(spi, remote, f));
            && s'.kernel <= s.kernel && s'.live <= s.live
            && (forall id :: id in s'.sessions && s'.sessions[id].phase == Active ==>
                  id in s.sessions && s.sessions[id].phase == Active)
            && (forall a :: a in s'.sas ==> a in s.sas && s'.sas[a].phase == s.sas[a].phase)
  {
    var s' := Step(s, EvFinal(spi, remote, f));
    var s1 := FinalParts(s, spi, remote, f);
    if s' != s1 {
      InstallParts(s1, spi, f);
      ShrinksTwice(s, s1, s');
    }
  }
}
