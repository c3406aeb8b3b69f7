/** Runs of the handlers from the empty server: a whole attach, and runs that reach the failing
    side of each exact condition of IkeOwnership and IkeSessions. */
module IkeRuns {
  import opened Octets
  import opened IkeLifecycle
  import opened SessionFsm
  import Ownership = IkeOwnership
  import Sessions = IkeSessions

  /** A UE and what it and the server choose for one attach. */
  datatype Ue = Ue(spi: nat, spiR: nat, remote: Ip, local: Ip, imsi: string, apn: string,
                   handover: bool, child: Child)

  const NO_FAULTS := Faults(false, false, false)

  function Id(u: Ue): SessionId {
    SessionId(u.spi, u.spiR)
  }

  /** The states of a CHILD SA between the UE's address and ours: towards us under our SPI,
      towards the UE under its own. */
  function StatesOf(u: Ue, c: Child): set<EspState> {
    {EspState(u.remote, u.local, c.inSpi), EspState(u.local, u.remote, c.outSpi)}
  }

  function Pair(u: Ue): set<EspState> {
    StatesOf(u, u.child)
  }

  /** Both ends have addresses of one family, and the kernel has neither of two different states. */
  predicate Addable(u: Ue, c: Child, kernel: set<EspState>) {
    && u.local.V4? == u.remote.V4?
    && EspState(u.remote, u.local, c.inSpi) != EspState(u.local, u.remote, c.outSpi)
    && StatesOf(u, c) !! kernel
  }

  /** IKE_SA_INIT, the first IKE_AUTH, EAP success and the final IKE_AUTH, none refused. */
  function Attach(u: Ue): seq<Event> {
    [EvInit(u.spi, u.spiR, u.remote, Some(u.local)),
     EvRound1(u.spi, u.remote, Round1(true, true, u.imsi, u.apn, Some(u.child.outSpi), u.handover, true)),
     EvEapSuccess(u.spi, u.remote, true, None),
     EvFinal(u.spi, u.remote, Final(true, true, true, u.child.inSpi, NO_FAULTS, true))]
  }

  function Attached(u: Ue): IkeSa {
    IkeSa(u.spi, u.spiR, u.remote, Some(u.local), Established, 2, true, u.imsi, u.apn, u.handover,
          true, u.child, None, Some(Id(u)))
  }

  /** The SA before the final IKE_AUTH. */
  function Authenticated(u: Ue): IkeSa {
    Attached(u).(phase := Auth, cur := Child(0, u.child.outSpi))
  }

  function SessionOf(u: Ue, added: bool): Session {
    Session(u.imsi, u.apn, u.spi, u.spiR, if added then u.child else Child(0, 0),
            if added then Active else S2bAccepted, true)
  }

  /** The state after the three first events of the attach. */
  function Ready(s: State, u: Ue): State {
    s.(sas := s.sas[u.spi := Authenticated(u)],
       sessions := s.sessions[Id(u) := Session(u.imsi, u.apn, u.spi, u.spiR, Child(0, 0), EapAuthenticated, false)],
       live := s.live - {u.spi},
       used := s.used + {u.spi})
  }

  /** The state after all four: the pair is installed unless the kernel has one of its states. */
  function Done(s: State, u: Ue): State {
    var added := Addable(u, u.child, s.kernel);
    s.(sas := s.sas[u.spi := Attached(u)],
       sessions := s.sessions[Id(u) := SessionOf(u, added)],
       kernel := s.kernel + (if added then Pair(u) else {}),
       live := s.live - {u.spi} + (if added then {u.spi} else {}),
       used := s.used + {u.spi})
  }

  lemma Extend(s: State, es: seq<Event>, e: Event)
    ensures Run(s, es + [e]) == Step(Run(s, es), e)
  {
    assert (es + [e])[..|es|] == es;
  }

  lemma TornDown(es: seq<Event>, s: State, spi: nat)
    requires Run(Init, es) == s && spi in s.sas
    ensures Run(Init, es + [EvTeardown(spi)]) == Teardown(s, spi)
  {
    Extend(Init, es, EvTeardown(spi));
  }

  lemma {:induction false} Append(s: State, es: seq<Event>, fs: seq<Event>)
    ensures Run(s, es + fs) == Run(Run(s, es), fs)
    decreases |fs|
  {
    if fs == [] {
      assert es + fs == es;
    } else {
      var front := fs[..|fs| - 1];
      Append(s, es, front);
      Extend(s, es + front, fs[|fs| - 1]);
      assert es + fs == es + front + [fs[|fs| - 1]];
    }
  }

  lemma InitOf(s: State, u: Ue)
    requires Id(u) !in s.sessions
    ensures Step(Step(Step(s, Attach(u)[0]), Attach(u)[1]), Attach(u)[2]) == Ready(s, u)
  {
    var s1 := Step(s, Attach(u)[0]);
    var s2 := Step(s1, Attach(u)[1]);
    assert s2.sessions[Id(u)].phase == EapAuthenticating;
    assert s2.sas[u.spi].eapRound == 1 && s2.sas[u.spi].sessionId == Some(Id(u));
  }

  lemma Three(s: State, es: seq<Event>)
    requires |es| >= 3
    ensures Run(s, es[..3]) == Step(Step(Step(s, es[0]), es[1]), es[2])
  {
    assert es[..0] == [] && es[..1] == es[..0] + [es[0]];
    assert es[..2] == es[..1] + [es[1]] && es[..3] == es[..2] + [es[2]];
    Extend(s, es[..0], es[0]);
    Extend(s, es[..1], es[1]);
    Extend(s, es[..2], es[2]);
  }

  lemma InstallOf(s: State, u: Ue)
    ensures FinalInstall(Ready(s, u), u.spi, Attach(u)[3].final) == Done(s, u)
  {
    var s3 := Ready(s, u);
    assert s3.sas[u.spi].cur.(inSpi := u.child.inSpi) == u.child;
    assert s3.sas[u.spi].(cur := u.child, phase := Established) == Attached(u);
  }

  lemma FinalOf(s: State, u: Ue)
    requires u.imsi != "" && u.apn != ""
    requires u.handover || forall id :: !ActiveFor(Ready(s, u), id, u.imsi, u.apn)
    ensures Step(Ready(s, u), Attach(u)[3]) == FinalInstall(Ready(s, u), u.spi, Attach(u)[3].final)
  {
    var s3 := Ready(s, u);
    assert s3.sas[u.spi := s3.sas[u.spi].(remote := u.remote)] == s3.sas;
  }

  /** An attach that nothing refuses installs its pair and activates its session, unless the
      kernel holds a state of the pair: then the session stops at S2bAccepted. */
  lemma AttachRun(s: State, u: Ue)
    requires Id(u) !in s.sessions && u.imsi != "" && u.apn != ""
    requires u.handover || forall id :: !ActiveFor(s, id, u.imsi, u.apn)
    ensures Run(s, Attach(u)) == Done(s, u)
  {
    var es := Attach(u);
    Three(s, es);
    InitOf(s, u);
    assert es == es[..3] + [es[3]];
    Extend(s, es[..3], es[3]);
    forall id ensures ActiveFor(Ready(s, u), id, u.imsi, u.apn) ==> ActiveFor(s, id, u.imsi, u.apn) {}
    FinalOf(s, u);
    InstallOf(s, u);
  }

  /** The UE's pair can be installed in an empty kernel. */
  predicate Usable(u: Ue) {
    && u.imsi != "" && u.apn != "" && u.child.inSpi != 0
    && Addable(u, u.child, {})
  }

  /** One SA in the table, and the kernel holds what it owns. */
  lemma Alone(s: State, spi: nat)
    requires s.sas.Keys == {spi} && s.sas[spi].spiI == spi && s.live <= {spi}
    requires Ownership.WellFormed(s.sas[spi], spi in s.live) && s.kernel == Ownership.Owned(s, spi)
    ensures Ownership.Inv(s)
  {
    forall st ensures st in s.kernel <==> Ownership.IsOwned(s, st) {
      if st in s.kernel { assert spi in s.sas && st in Ownership.Owned(s, spi); }
    }
  }

  /** The first attach ends with exact ownership and an active session. */
  lemma FirstAttach(u: Ue)
    requires Usable(u)
    ensures Run(Init, Attach(u)) == Done(Init, u) && Ownership.Inv(Done(Init, u))
    ensures Sessions.ActiveId(Done(Init, u), Id(u))
  {
    AttachRun(Init, u);
    Alone(Done(Init, u), u.spi);
  }

  lemma RekeyedStates(u: Ue, c: Child, d: Child)
    requires Usable(u) && c.inSpi != 0 && d.inSpi != 0
    requires Addable(u, c, Pair(u)) && Addable(u, d, Pair(u) + StatesOf(u, c))
    ensures var s := ChildRekey(Done(Init, u), u.spi, u.remote, c, NO_FAULTS);
            Ownership.Inv(s) && !Ownership.Exact(ChildRekey(s, u.spi, u.remote, d, NO_FAULTS))
  {
    var s := ChildRekey(Done(Init, u), u.spi, u.remote, c, NO_FAULTS);
    Alone(s, u.spi);
    Ownership.ChildRekeyExactIff(s, u.spi, u.remote, d, NO_FAULTS);
  }

  /** Two CHILD SA rekeys in a row: the first pending pair stays in the kernel without an owner. */
  lemma SecondRekeyOrphans(u: Ue, c: Child, d: Child)
    requires Usable(u) && c.inSpi != 0 && d.inSpi != 0
    requires Addable(u, c, Pair(u)) && Addable(u, d, Pair(u) + StatesOf(u, c))
    ensures var es := Attach(u) + [EvChildRekey(u.spi, u.remote, c, NO_FAULTS)];
            && Ownership.Inv(Run(Init, es))
            && !Ownership.Exact(Run(Init, es + [EvChildRekey(u.spi, u.remote, d, NO_FAULTS)]))
  {
    FirstAttach(u);
    var e, e' := EvChildRekey(u.spi, u.remote, c, NO_FAULTS), EvChildRekey(u.spi, u.remote, d, NO_FAULTS);
    Extend(Init, Attach(u), e);
    Extend(Init, Attach(u) + [e], e');
    RekeyedStates(u, c, d);
  }

  /** A rekey requested from another address: its pair has no owner. */
  lemma MovedRekeyOrphans(u: Ue, moved: Ip, c: Child)
    requires Usable(u) && c.inSpi != 0 && moved != u.remote
    requires Addable(u.(remote := moved), c, Pair(u))
    ensures Ownership.Inv(Run(Init, Attach(u)))
    ensures !Ownership.Exact(Run(Init, Attach(u) + [EvChildRekey(u.spi, moved, c, NO_FAULTS)]))
  {
    FirstAttach(u);
    Extend(Init, Attach(u), EvChildRekey(u.spi, moved, c, NO_FAULTS));
    Ownership.ChildRekeyExactIff(Done(Init, u), u.spi, moved, c, NO_FAULTS);
  }

  /** An IKE_SA_INIT with the initiator SPI of an attached UE: that UE's pair is orphaned. */
  lemma RepeatedInitOrphans(u: Ue, spiR: nat, remote: Ip, localIp: Option<Ip>)
    requires Usable(u)
    ensures Ownership.Inv(Run(Init, Attach(u)))
    ensures !Ownership.Exact(Run(Init, Attach(u) + [EvInit(u.spi, spiR, remote, localIp)]))
  {
    FirstAttach(u);
    Extend(Init, Attach(u), EvInit(u.spi, spiR, remote, localIp));
    assert Inbound(u.local, u.remote, u.child) in Ownership.Owned(Done(Init, u), u.spi);
    Ownership.InitExactIff(Done(Init, u), u.spi, spiR, remote, localIp);
  }

  lemma SharedSpiStates(u: Ue, v: Ue)
    requires Usable(u) && v.spi != u.spi && v.child.inSpi != 0
    requires v.remote == u.remote && v.local == u.local && v.child.outSpi == u.child.outSpi
    ensures var s := Teardown(Done(Done(Init, u), v), v.spi);
            && !Ownership.Exact(s) && u.spi in s.live && Sessions.ActiveId(s, Id(u))
            && EspState(u.local, u.remote, u.child.outSpi) !in s.kernel
  {
    var s2 := Done(Done(Init, u), v);
    var s := Teardown(s2, v.spi);
    assert u.spi in s.sas && s.sas[u.spi] == Attached(u) && u.spi in s.live;
    var lost := Outbound(u.local, u.remote, u.child);
    assert lost in Ownership.Owned(s, u.spi) && lost !in s.kernel;
    assert Ownership.IsOwned(s, lost);
  }

  lemma SecondAttach(u: Ue, v: Ue)
    requires Usable(u) && v.spi != u.spi && v.imsi != "" && v.apn != ""
    requires v.handover || v.imsi != u.imsi
    ensures Run(Init, Attach(u) + Attach(v)) == Done(Done(Init, u), v)
  {
    FirstAttach(u);
    Append(Init, Attach(u), Attach(v));
    AttachRun(Done(Init, u), v);
  }

  /** A second UE behind the same address that chose the same SPI: its attach is refused by the
      kernel, and its teardown takes the first UE's outbound state away. */
  lemma SharedSpiLoses(u: Ue, v: Ue)
    requires Usable(u) && v.imsi != "" && v.imsi != u.imsi && v.apn != "" && v.child.inSpi != 0 && v.spi != u.spi
    requires v.remote == u.remote && v.local == u.local && v.child.outSpi == u.child.outSpi
    ensures Ownership.Inv(Run(Init, Attach(u)))
    ensures var s := Run(Init, Attach(u) + Attach(v) + [EvTeardown(v.spi)]);
            && !Ownership.Exact(s) && u.spi in s.live && Sessions.ActiveId(s, Id(u))
            && EspState(u.local, u.remote, u.child.outSpi) !in s.kernel
  {
    FirstAttach(u);
    SecondAttach(u, v);
    TornDown(Attach(u) + Attach(v), Done(Done(Init, u), v), v.spi);
    SharedSpiStates(u, v);
  }

  lemma ZeroSpiStates(u: Ue)
    requires u.child.inSpi == 0 && Addable(u, u.child, {})
    ensures !Ownership.Exact(Done(Init, u))
    ensures var s := Teardown(Done(Init, u), u.spi); s.sas == map[] && s.kernel == Pair(u)
  {
    var s := Done(Init, u);
    assert s.sas.Keys == {u.spi} && Ownership.Owned(s, u.spi) == {};
    assert Inbound(u.local, u.remote, u.child) in s.kernel;
    assert !Ownership.IsOwned(s, Inbound(u.local, u.remote, u.child));
  }

  /** The random own SPI 0 on the first attach: the pair has no owner, and outlives the SA. */
  lemma ZeroSpiOrphans(u: Ue)
    requires u.imsi != "" && u.apn != "" && u.child.inSpi == 0
    requires Addable(u, u.child, {})
    ensures !Ownership.Exact(Run(Init, Attach(u)))
    ensures var s := Run(Init, Attach(u) + [EvTeardown(u.spi)]); s.sas == map[] && s.kernel == Pair(u)
  {
    AttachRun(Init, u);
    TornDown(Attach(u), Done(Init, u), u.spi);
    ZeroSpiStates(u);
  }

  /** A handover attach of a subscriber that is still attached: two active sessions. */
  lemma HandoverDuplicates(u: Ue, v: Ue)
    requires Usable(u) && v.spi != u.spi && v.handover && v.imsi == u.imsi && v.apn == u.apn
    requires Addable(v, v.child, Pair(u))
    ensures Sessions.Unique(Run(Init, Attach(u))) && !Sessions.Unique(Run(Init, Attach(u) + Attach(v)))
  {
    FirstAttach(u);
    SecondAttach(u, v);
    var s := Done(Done(Init, u), v);
    assert Sessions.ActiveId(s, Id(u)) && Sessions.ActiveId(s, Id(v));
    assert Sessions.SameSubscriber(s.sessions[Id(u)], s.sessions[Id(v)]);
  }

  // ------------------------------------------------------- rekeys that complete

  /** The SA and its session with another CHILD SA. */
  function Rekeyed(u: Ue, c: Child): State {
    State(map[u.spi := Attached(u).(cur := c)], map[Id(u) := SessionOf(u, true).(esp := c)], StatesOf(u, c), {u.spi}, {u.spi})
  }

  lemma FirstDone(u: Ue)
    requires Usable(u)
    ensures Done(Init, u) == Rekeyed(u, u.child)
  {
    assert Init.sas[u.spi := Attached(u)] == map[u.spi := Attached(u)];
    assert Attached(u).(cur := u.child) == Attached(u);
  }

  /** The state while a rekey is outstanding. */
  function Outstanding(u: Ue, c: Child): State {
    Done(Init, u).(sas := map[u.spi := Attached(u).(pending := Some(c))], kernel := Pair(u) + StatesOf(u, c))
  }

  lemma RekeyPends(u: Ue, c: Child)
    requires Usable(u) && Addable(u, c, Pair(u))
    ensures ChildRekey(Done(Init, u), u.spi, u.remote, c, NO_FAULTS) == Outstanding(u, c)
  {
    FirstDone(u);
  }

  lemma OneDelete(s: State, spi: nat, x: nat)
    requires spi in s.sas
    ensures Step(s, EvEspDelete(spi, [x])) == EspDelete1(s, spi, x)
  {
    assert [x][1..] == [];
    assert EspDeleteAll(s, spi, [x]) == EspDeleteAll(EspDelete1(s, spi, x), spi, []);
  }

  lemma Promoted(u: Ue, c: Child)
    requires Usable(u) && Addable(u, c, Pair(u))
    ensures Promote(Outstanding(u, c), u.spi) == Rekeyed(u, c)
  {
    FirstDone(u);
    var s, s' := Outstanding(u, c), Promote(Outstanding(u, c), u.spi);
    assert PairStates(Some(u.local), u.remote, u.child) == Pair(u);
    assert s.kernel - Pair(u) == StatesOf(u, c);
    assert s'.sas == Rekeyed(u, c).sas && s'.sessions == Rekeyed(u, c).sessions && s'.live == {u.spi};
  }

  lemma Dropped(u: Ue, c: Child)
    requires Usable(u) && Addable(u, c, Pair(u))
    ensures DropPending(Outstanding(u, c), u.spi) == Done(Init, u)
  {
    FirstDone(u);
    var s, s' := Outstanding(u, c), DropPending(Outstanding(u, c), u.spi);
    assert PairStates(Some(u.local), u.remote, c) == StatesOf(u, c);
    assert s.kernel - StatesOf(u, c) == Pair(u);
    assert s'.sas == Done(Init, u).sas;
  }

  /** After a rekey, a delete that names either SPI of the old CHILD SA leaves the new one as the
      SA's, the session's and the kernel's only pair; one that names either SPI of the new CHILD SA
      undoes the rekey; without a rekey it takes the pair out of the kernel; any other SPI does
      nothing. */
  lemma DeleteRun(u: Ue, c: Child, x: nat)
    requires Usable(u) && Addable(u, c, Pair(u))
    ensures var rekey, delete := EvChildRekey(u.spi, u.remote, c, NO_FAULTS), EvEspDelete(u.spi, [x]);
            Run(Init, Attach(u) + [rekey] + [delete])
            == if x == u.child.inSpi || x == u.child.outSpi then Rekeyed(u, c)
               else if x == c.inSpi || x == c.outSpi then Rekeyed(u, u.child)
               else Outstanding(u, c)
    ensures Run(Init, Attach(u) + [EvEspDelete(u.spi, [x])])
            == if x == u.child.inSpi || x == u.child.outSpi then Rekeyed(u, u.child).(kernel := {}, live := {})
               else Rekeyed(u, u.child)
  {
    var rekey, delete := EvChildRekey(u.spi, u.remote, c, NO_FAULTS), EvEspDelete(u.spi, [x]);
    FirstAttach(u);
    FirstDone(u);
    Extend(Init, Attach(u), delete);
    OneDelete(Done(Init, u), u.spi, x);
    assert PairStates(Some(u.local), u.remote, u.child) == Pair(u);
    Extend(Init, Attach(u), rekey);
    RekeyPends(u, c);
    Extend(Init, Attach(u) + [rekey], delete);
    OneDelete(Outstanding(u, c), u.spi, x);
    Promoted(u, c);
    Dropped(u, c);
  }

  /** After an IKE SA rekey the new SA has all that the old one had, the session names it, and its
      teardown leaves neither session nor state; the old SA's teardown leaves both. */
  lemma IkeRekeyRun(u: Ue, newI: nat, newR: nat)
    requires Usable(u) && newI != 0 && newI != u.spi
    ensures var s := Run(Init, Attach(u) + [EvIkeRekey(u.spi, newI, newR)]);
            && s.sas.Keys == {u.spi, newI} && s.kernel == Pair(u) && s.live == {newI}
            && s.sas[newI] == IkeSa(newI, newR, u.remote, Some(u.local), Established, 0, false, u.imsi, u.apn, false,
                                    true, u.child, None, Some(Id(u)))
            && s.sas[u.spi] == Attached(u).(sessionId := None, esp := false)
            && s.sessions == map[Id(u) := SessionOf(u, true).(ikeSpiI := newI, ikeSpiR := newR)]
            && Teardown(s, newI).kernel == {} && Teardown(s, newI).sessions == map[]
            && Teardown(s, u.spi).kernel == Pair(u) && Teardown(s, u.spi).sessions == s.sessions
  {
    FirstAttach(u);
    FirstDone(u);
    Extend(Init, Attach(u), EvIkeRekey(u.spi, newI, newR));
    assert PairStates(Some(u.local), u.remote, u.child) == Pair(u);
  }
}
