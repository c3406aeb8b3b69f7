/** Which IKE SA owns which kernel ESP state, over whole runs of the handlers. */
module IkeOwnership {
  import opened Octets
  import opened IkeLifecycle

  /** States that the current fields of an SA make its handlers delete. */
  function CurStates(sa: IkeSa): set<EspState> {
    if sa.esp && sa.cur.inSpi != 0 then PairStates(sa.localIp, sa.remote, sa.cur) else {}
  }

  function PendStates(sa: IkeSa): set<EspState> {
    if sa.pending.Some? then PairStates(sa.localIp, sa.remote, sa.pending.value) else {}
  }

  function Claims(sa: IkeSa): set<EspState> {
    CurStates(sa) + PendStates(sa)
  }

  /** What SA `spi` owns: its current pair while it is not deleted, and its pending pair. */
  function Owned(s: State, spi: nat): set<EspState>
    requires spi in s.sas
  {
    (if spi in s.live then CurStates(s.sas[spi]) else {}) + PendStates(s.sas[spi])
  }

  ghost predicate IsOwned(s: State, st: EspState) {
    exists spi :: spi in s.sas && st in Owned(s, spi)
  }

  /** The kernel holds exactly the owned states, and no state has two owners. */
  ghost predicate Exact(s: State) {
    && (forall st :: st in s.kernel <==> IsOwned(s, st))
    && (forall a, b :: a in s.sas && b in s.sas && a != b ==> Owned(s, a) !! Owned(s, b))
  }

  /** What must hold of one SA record. */
  predicate WellFormed(sa: IkeSa, live: bool) {
    && (sa.phase == Auth ==> sa.pending.None? && sa.cur.inSpi == 0 && !live)
    && (sa.phase == Established && sa.esp ==> sa.cur.inSpi != 0)
    && (live ==> sa.esp && sa.cur.inSpi != 0 && Resolves(sa.localIp, sa.remote))
    && (sa.pending.Some? ==> sa.pending.value.inSpi != 0 && Resolves(sa.localIp, sa.remote))
    && CurStates(sa) !! PendStates(sa)
  }

  ghost predicate Inv(s: State) {
    && Exact(s)
    && s.live <= s.sas.Keys
    && (forall a :: a in s.sas ==> s.sas[a].spiI == a && WellFormed(s.sas[a], a in s.live))
    && (forall a, b :: a in s.sas && b in s.sas && a != b ==> Claims(s.sas[a]) !! Claims(s.sas[b]))
  }

  /** A pair that no other SA mentions. */
  predicate Unclaimed(s: State, spi: nat, remote: Ip, c: Child)
    requires spi in s.sas
  {
    forall b :: b in s.sas && b != spi ==>
      Claims(s.sas[b]) !! PairStates(s.sas[spi].localIp, remote, c)
  }

  /** Such a pair with a usable own SPI. */
  predicate Fresh(s: State, spi: nat, remote: Ip, c: Child)
    requires spi in s.sas
  {
    c.inSpi != 0 && Unclaimed(s, spi, remote, c)
  }

  /** The assumptions under which ownership stays exact: initiator SPIs do not repeat in the
      table, ESP SPIs are fresh and own SPIs not 0, and one CHILD SA rekey is outstanding at a
      time, requested from the UE's known address. What follows without each is at the end. */
  predicate Admissible(s: State, e: Event) {
    match e
    case EvInit(spiI, _, _, _) => spiI !in s.sas
    case EvIkeRekey(_, newI, _) => newI !in s.sas
    case EvFinal(spi, remote, f) => spi in s.sas && s.sas[spi].phase == Auth ==>
      Fresh(s, spi, remote, s.sas[spi].cur.(inSpi := f.localSpi))
    case EvChildRekey(spi, remote, c, f) => spi in s.sas ==>
      && s.sas[spi].pending.None?
      && remote == s.sas[spi].remote
      && Fresh(s, spi, remote, c)
      && CurStates(s.sas[spi]) !! PairStates(s.sas[spi].localIp, remote, c)
    case _ => true
  }

  // ------------------------------------------------------ changes to one SA

  /** Only SA `spi` changed: its record, and what it owns. */
  ghost predicate OnlyChanges(s: State, spi: nat, s': State) {
    && spi in s.sas && s'.sas.Keys == s.sas.Keys
    && (forall a :: a in s.sas && a != spi ==>
          s'.sas[a] == s.sas[a] && (a in s'.live <==> a in s.live))
  }

  lemma OthersKeep(s: State, spi: nat, s': State, a: nat)
    requires Inv(s) && OnlyChanges(s, spi, s') && a in s.sas && a != spi
    requires Claims(s.sas[a]) !! Claims(s'.sas[spi])
    ensures Owned(s', a) == Owned(s, a)
    ensures Owned(s, a) !! Owned(s', spi) && Owned(s, a) !! Owned(s, spi)
  {
    assert Owned(s, a) <= Claims(s.sas[a]) && Owned(s', spi) <= Claims(s'.sas[spi]);
  }

  lemma KernelFollows(s: State, spi: nat, s': State, st: EspState)
    requires Inv(s) && OnlyChanges(s, spi, s')
    requires s'.kernel == s.kernel - Owned(s, spi) + Owned(s', spi)
    requires forall b :: b in s.sas && b != spi ==> Claims(s.sas[b]) !! Claims(s'.sas[spi])
    ensures st in s'.kernel <==> IsOwned(s', st)
  {
    if st in Owned(s', spi) {
    } else if st in s'.kernel {
      var a :| a in s.sas && st in Owned(s, a);
      OthersKeep(s, spi, s', a);
      assert st in Owned(s', a);
    } else if IsOwned(s', st) {
      var a :| a in s'.sas && st in Owned(s', a);
      OthersKeep(s, spi, s', a);
      assert IsOwned(s, st);
      assert false;
    }
  }

  lemma Replace(s: State, spi: nat, s': State)
    requires Inv(s) && OnlyChanges(s, spi, s')
    requires s'.live <= s'.sas.Keys
    requires s'.sas[spi].spiI == spi && WellFormed(s'.sas[spi], spi in s'.live)
    requires s'.kernel == s.kernel - Owned(s, spi) + Owned(s', spi)
    requires forall b :: b in s.sas && b != spi ==> Claims(s.sas[b]) !! Claims(s'.sas[spi])
    ensures Inv(s')
  {
    forall st ensures st in s'.kernel <==> IsOwned(s', st) {
      KernelFollows(s, spi, s', st);
    }
    forall a, b | a in s'.sas && b in s'.sas && a != b ensures Owned(s', a) !! Owned(s', b) {
      if a != spi { OthersKeep(s, spi, s', a); }
      if b != spi { OthersKeep(s, spi, s', b); }
    }
  }

  /** The record shrinks its claims, and the kernel loses what is no longer owned. */
  lemma Shrink(s: State, spi: nat, s': State)
    requires Inv(s) && OnlyChanges(s, spi, s')
    requires s'.live <= s'.sas.Keys
    requires s'.sas[spi].spiI == spi && WellFormed(s'.sas[spi], spi in s'.live)
    requires Claims(s'.sas[spi]) <= Claims(s.sas[spi])
    requires s'.kernel == s.kernel - Owned(s, spi) + Owned(s', spi)
    ensures Inv(s')
  {
    Replace(s, spi, s');
  }

  lemma OwnedInKernel(s: State, spi: nat)
    requires Exact(s) && spi in s.sas
    ensures Owned(s, spi) <= s.kernel
  {
    forall st | st in Owned(s, spi) ensures st in s.kernel {
      assert IsOwned(s, st);
    }
  }

  /** Deleting states that an SA only claims cannot touch another SA's. */
  lemma ClaimedInKernel(s: State, spi: nat, st: EspState)
    requires Inv(s) && spi in s.sas && st in Claims(s.sas[spi]) && st in s.kernel
    ensures st in Owned(s, spi)
  {
    var a :| a in s.sas && st in Owned(s, a);
    assert Owned(s, a) <= Claims(s.sas[a]);
  }

  lemma RemoveChildSaKeeps(s: State, spi: nat)
    requires Inv(s) && spi in s.sas
    ensures Inv(RemoveChildSa(s, spi))
    ensures spi !in RemoveChildSa(s, spi).live
    ensures RemoveChildSa(s, spi).kernel
            == s.kernel - (if spi in s.live then CurStates(s.sas[spi]) else {})
  {
    var sa := s.sas[spi];
    var s' := RemoveChildSa(s, spi);
    if sa.esp && sa.localIp.Some? && sa.cur.inSpi != 0 {
      OwnedInKernel(s, spi);
      assert s'.kernel == s.kernel - Owned(s, spi) + Owned(s', spi)
          && s'.kernel == s.kernel - (if spi in s.live then CurStates(sa) else {}) by {
        forall st | st in CurStates(sa) && st in s.kernel ensures st in Owned(s, spi) {
          ClaimedInKernel(s, spi, st);
        }
      }
      Shrink(s, spi, s');
    }
  }

  lemma DropPendingKeeps(s: State, spi: nat)
    requires Inv(s) && spi in s.sas
    ensures Inv(DropPending(s, spi))
    ensures DropPending(s, spi).kernel == s.kernel - PendStates(s.sas[spi])
    ensures PendStates(s.sas[spi]) <= s.kernel
  {
    var s' := DropPending(s, spi);
    OwnedInKernel(s, spi);
    if s.sas[spi].pending.Some? {
      assert s'.kernel == s.kernel - Owned(s, spi) + Owned(s', spi);
      Shrink(s, spi, s');
    }
  }

  lemma PromoteKeeps(s: State, spi: nat)
    requires Inv(s) && spi in s.sas && s.sas[spi].pending.Some? && s.sas[spi].esp
    ensures Inv(Promote(s, spi))
  {
    var sa := s.sas[spi];
    var s' := Promote(s, spi);
    OwnedInKernel(s, spi);
    assert s'.kernel == s.kernel - Owned(s, spi) + Owned(s', spi) by {
      forall st | st in CurStates(sa) && st in s.kernel ensures st in Owned(s, spi) {
        ClaimedInKernel(s, spi, st);
      }
    }
    Shrink(s, spi, s');
  }

  lemma {:induction false} EspDeleteKeeps(s: State, spi: nat, xs: seq<nat>)
    requires Inv(s) && spi in s.sas
    ensures Inv(EspDeleteAll(s, spi, xs))
    decreases |xs|
  {
    if xs == [] {
    } else {
      var sa := s.sas[spi];
      if sa.esp && (xs[0] == sa.cur.inSpi || xs[0] == sa.cur.outSpi) {
        if sa.pending.Some? {
          PromoteKeeps(s, spi);
        } else {
          RemoveChildSaKeeps(s, spi);
        }
      } else {
        DropPendingKeeps(s, spi);
      }
      EspDeleteKeeps(EspDelete1(s, spi, xs[0]), spi, xs[1..]);
    }
  }

  /** A record that owns nothing leaves the table. */
  lemma Forget(s: State, spi: nat, s': State)
    requires Inv(s) && spi in s.sas && Owned(s, spi) == {}
    requires s'.sas == s.sas - {spi} && s'.live == s.live - {spi} && s'.kernel == s.kernel
    ensures Inv(s')
  {
    forall a | a in s'.sas ensures Owned(s', a) == Owned(s, a) {}
    forall st ensures st in s'.kernel <==> IsOwned(s', st) {
      if IsOwned(s, st) {
        var a :| a in s.sas && st in Owned(s, a);
        assert a in s'.sas && st in Owned(s', a);
      }
      if IsOwned(s', st) {
        var a :| a in s'.sas && st in Owned(s', a);
        assert st in Owned(s, a);
      }
    }
  }

  /** Teardown of an SA removes exactly what it owned, so none of its states stays. */
  lemma TeardownKeeps(s: State, spi: nat)
    requires Inv(s) && spi in s.sas
    ensures Inv(Teardown(s, spi))
    ensures Teardown(s, spi).kernel == s.kernel - Owned(s, spi)
    ensures Teardown(s, spi).kernel !! Claims(s.sas[spi])
    ensures spi !in Teardown(s, spi).sas
  {
    RemoveChildSaKeeps(s, spi);
    var s1 := RemoveChildSa(s, spi);
    DropPendingKeeps(s1, spi);
    var s2 := DropPending(s1, spi);
    assert s2.sas[spi].pending.None? && Owned(s2, spi) == {};
    Forget(s2, spi, Teardown(s, spi));
    forall st | st in Claims(s.sas[spi]) && st in s.kernel ensures st in Owned(s, spi) {
      ClaimedInKernel(s, spi, st);
    }
  }

  /** A new record that claims nothing enters the table. */
  lemma Enter(s: State, spi: nat, s': State)
    requires Inv(s) && spi !in s.sas && spi in s'.sas
    requires s'.sas == s.sas[spi := s'.sas[spi]] && s'.live == s.live && s'.kernel == s.kernel
    requires s'.sas[spi].spiI == spi && WellFormed(s'.sas[spi], false) && Claims(s'.sas[spi]) == {}
    ensures Inv(s')
  {
    forall a | a in s.sas ensures Owned(s', a) == Owned(s, a) {}
    forall st ensures st in s'.kernel <==> IsOwned(s', st) {
      if IsOwned(s, st) {
        var a :| a in s.sas && st in Owned(s, a);
        assert st in Owned(s', a);
      }
      if IsOwned(s', st) {
        var a :| a in s'.sas && st in Owned(s', a);
        assert st in Owned(s, a);
      }
    }
  }

  lemma IkeRekeyOwners(s: State, spi: nat, newI: nat, newR: nat, a: nat)
    requires Inv(s) && spi in s.sas && s.sas[spi].phase == Established
    requires newI != 0 && newI !in s.sas && a in IkeRekey(s, spi, newI, newR).sas
    ensures var s' := IkeRekey(s, spi, newI, newR);
            && Claims(s'.sas[a]) == (if a == newI then CurStates(s.sas[spi])
                                     else if a == spi then PendStates(s.sas[spi])
                                     else Claims(s.sas[a]))
            && Owned(s', a) == (if a == newI && spi in s.live then CurStates(s.sas[spi])
                                else if a == newI then {}
                                else if a == spi then PendStates(s.sas[spi])
                                else Owned(s, a))
  {}

  lemma IkeRekeyKernel(s: State, spi: nat, newI: nat, newR: nat, st: EspState)
    requires Inv(s) && spi in s.sas && s.sas[spi].phase == Established
    requires newI != 0 && newI !in s.sas
    ensures IsOwned(s, st) <==> IsOwned(IkeRekey(s, spi, newI, newR), st)
  {
    var s' := IkeRekey(s, spi, newI, newR);
    if IsOwned(s, st) {
      var a :| a in s.sas && st in Owned(s, a);
      IkeRekeyOwners(s, spi, newI, newR, a);
      IkeRekeyOwners(s, spi, newI, newR, newI);
      assert st in Owned(s', a) || (a == spi && st in Owned(s', newI));
    }
    if IsOwned(s', st) {
      var a :| a in s'.sas && st in Owned(s', a);
      IkeRekeyOwners(s, spi, newI, newR, a);
      assert st in Owned(s, if a == newI then spi else a);
    }
  }

  lemma IkeRekeyFormed(s: State, spi: nat, newI: nat, newR: nat, a: nat)
    requires Inv(s) && spi in s.sas && s.sas[spi].phase == Established
    requires newI != 0 && newI !in s.sas && a in IkeRekey(s, spi, newI, newR).sas
    ensures var s' := IkeRekey(s, spi, newI, newR);
            s'.sas[a].spiI == a && WellFormed(s'.sas[a], a in s'.live)
  {}

  lemma IkeRekeyDisjoint(s: State, spi: nat, newI: nat, newR: nat, a: nat, b: nat)
    requires Inv(s) && spi in s.sas && s.sas[spi].phase == Established
    requires newI != 0 && newI !in s.sas && a != b
    requires a in IkeRekey(s, spi, newI, newR).sas && b in IkeRekey(s, spi, newI, newR).sas
    ensures var s' := IkeRekey(s, spi, newI, newR);
            Claims(s'.sas[a]) !! Claims(s'.sas[b]) && Owned(s', a) !! Owned(s', b)
  {
    var s' := IkeRekey(s, spi, newI, newR);
    IkeRekeyOwners(s, spi, newI, newR, a);
    IkeRekeyOwners(s, spi, newI, newR, b);
    assert Owned(s', a) <= Claims(s'.sas[a]) && Owned(s', b) <= Claims(s'.sas[b]);
    assert CurStates(s.sas[spi]) <= Claims(s.sas[spi]) && PendStates(s.sas[spi]) <= Claims(s.sas[spi]);
  }

  /** An IKE SA rekey hands the current pair to the new SA; a pending pair stays with the
      old one. No state changes owner twice and none is orphaned, rekey outstanding or not. */
  lemma IkeRekeyKeeps(s: State, spi: nat, newI: nat, newR: nat)
    requires Inv(s) && spi in s.sas && s.sas[spi].phase == Established
    requires newI != 0 && newI !in s.sas
    ensures Inv(IkeRekey(s, spi, newI, newR))
  {
    var s' := IkeRekey(s, spi, newI, newR);
    forall st ensures IsOwned(s, st) <==> IsOwned(s', st) {
      IkeRekeyKernel(s, spi, newI, newR, st);
    }
    forall a, b | a in s'.sas && b in s'.sas && a != b
      ensures Claims(s'.sas[a]) !! Claims(s'.sas[b]) && Owned(s', a) !! Owned(s', b)
    {
      IkeRekeyDisjoint(s, spi, newI, newR, a, b);
    }
    forall a | a in s'.sas ensures s'.sas[a].spiI == a && WellFormed(s'.sas[a], a in s'.live) {
      IkeRekeyFormed(s, spi, newI, newR, a);
    }
    assert s'.kernel == s.kernel && s'.live <= s'.sas.Keys;
    Assemble(s, s');
  }

  lemma Assemble(s: State, s': State)
    requires Inv(s) && s'.kernel == s.kernel && s'.live <= s'.sas.Keys
    requires forall st :: IsOwned(s, st) <==> IsOwned(s', st)
    requires forall a, b :: a in s'.sas && b in s'.sas && a != b ==>
               Claims(s'.sas[a]) !! Claims(s'.sas[b]) && Owned(s', a) !! Owned(s', b)
    requires forall a :: a in s'.sas ==> s'.sas[a].spiI == a && WellFormed(s'.sas[a], a in s'.live)
    ensures Inv(s')
  {}

  lemma ChildRekeyKeeps(s: State, spi: nat, remote: Ip, c: Child, f: Faults)
    requires Inv(s) && Admissible(s, EvChildRekey(spi, remote, c, f))
    ensures Inv(ChildRekey(s, spi, remote, c, f))
  {
    var s' := ChildRekey(s, spi, remote, c, f);
    if s' != s {
      assert s'.kernel == s.kernel - Owned(s, spi) + Owned(s', spi) by { OwnedInKernel(s, spi); }
      Replace(s, spi, s');
    }
  }

  lemma {:induction false} SameSas(s: State, s': State)
    requires Inv(s) && s'.sas == s.sas && s'.live == s.live && s'.kernel == s.kernel
    ensures Inv(s')
  {
    forall a | a in s.sas ensures Owned(s', a) == Owned(s, a) {}
    forall st ensures IsOwned(s, st) <==> IsOwned(s', st) {
      if IsOwned(s, st) { var a :| a in s.sas && st in Owned(s, a); assert st in Owned(s', a); }
      if IsOwned(s', st) { var a :| a in s'.sas && st in Owned(s', a); assert st in Owned(s, a); }
    }
  }

  /** Changes to an SA that has not finished IKE_AUTH: it claims nothing before or after. */
  lemma AuthPhaseKeeps(s: State, spi: nat, s': State)
    requires Inv(s) && OnlyChanges(s, spi, s') && s'.live == s.live && s'.kernel == s.kernel
    requires s.sas[spi].phase == Auth && s'.sas[spi].phase == Auth
    requires s'.sas[spi].spiI == spi && s'.sas[spi].cur.inSpi == 0 && s'.sas[spi].pending.None?
    ensures Inv(s')
  {
    Shrink(s, spi, s');
  }

  /** The SA becomes established, with its pair installed (`added`) or not. */
  lemma EstablishKeeps(s: State, spi: nat, localSpi: nat, added: bool, s': State)
    requires Inv(s) && spi in s.sas && s.sas[spi].phase == Auth
    requires Fresh(s, spi, s.sas[spi].remote, s.sas[spi].cur.(inSpi := localSpi))
    requires var sa := s.sas[spi].(cur := s.sas[spi].cur.(inSpi := localSpi), phase := Established);
             && s'.sas == s.sas[spi := sa]
             && (added ==> sa.esp && Resolves(sa.localIp, sa.remote))
             && s'.kernel == s.kernel + (if added then PairStates(sa.localIp, sa.remote, sa.cur) else {})
             && s'.live == s.live + (if added then {spi} else {})
    ensures Inv(s')
  {
    assert Owned(s, spi) == {};
    assert s'.kernel == s.kernel - Owned(s, spi) + Owned(s', spi);
    Replace(s, spi, s');
  }

  lemma FinalInstallKeeps(s: State, spi: nat, f: Final)
    requires Inv(s) && spi in s.sas && s.sas[spi].phase == Auth
    requires Fresh(s, spi, s.sas[spi].remote, s.sas[spi].cur.(inSpi := f.localSpi))
    ensures Inv(FinalInstall(s, spi, f))
  {
    var sa := s.sas[spi].(cur := s.sas[spi].cur.(inSpi := f.localSpi), phase := Established);
    var added := sa.esp && AddSucceeds(s.kernel, sa.localIp, sa.remote, sa.cur, f.faults);
    if f.spiOk {
      var s3 := s.(sas := s.sas[spi := sa],
                   kernel := s.kernel + (if added then PairStates(sa.localIp, sa.remote, sa.cur) else {}),
                   live := s.live + (if added then {spi} else {}));
      EstablishKeeps(s, spi, f.localSpi, added, s3);
      SameSas(s3, FinalInstall(s, spi, f));
    } else {
      SameSas(s, FinalInstall(s, spi, f));
    }
  }

  lemma DetachKeeps(s: State, spi: nat, imsi: string, apn: string, remote: Ip, c: Child)
    requires Inv(s) && spi in s.sas && Fresh(s, spi, remote, c)
    ensures var s' := Detach(s, spi, imsi, apn);
            Inv(s') && spi in s'.sas && s'.sas[spi] == s.sas[spi] && Fresh(s', spi, remote, c)
  {
    if Detach(s, spi, imsi, apn) != s {
      TeardownKeeps(s, s.sessions[FindSingleActive(s, imsi, apn).value].ikeSpiI);
    }
  }

  lemma AuthFinalKeeps(s: State, spi: nat, remote: Ip, f: Final)
    requires Inv(s) && Admissible(s, EvFinal(spi, remote, f))
    ensures Inv(AuthFinal(s, spi, remote, f))
  {
    if spi in s.sas && s.sas[spi].phase == Auth && s.sas[spi].eapRound != 0 {
      var sa := s.sas[spi].(remote := remote);
      var s0 := s.(sas := s.sas[spi := sa]);
      AuthPhaseKeeps(s, spi, s0);
      var c := sa.cur.(inSpi := f.localSpi);
      assert Fresh(s0, spi, remote, c);
      if sa.hasMsk && f.authOk {
        if !sa.handover {
          DetachKeeps(s0, spi, sa.imsi, sa.apn, remote, c);
        }
        var s1 := if sa.handover then s0 else Detach(s0, spi, sa.imsi, sa.apn);
        if f.s2bOk && sa.imsi != "" && sa.apn != "" {
          FinalInstallKeeps(s1, spi, f);
        }
      }
    }
  }

  lemma Round1Keeps(s: State, spi: nat, remote: Ip, r: Round1)
    requires Inv(s)
    ensures Inv(AuthRound1(s, spi, remote, r))
  {
    if spi in s.sas && s.sas[spi].phase == Auth && s.sas[spi].eapRound == 0 {
      AuthPhaseKeeps(s, spi, AuthRound1(s, spi, remote, r));
    }
  }

  lemma EapSuccessKeeps(s: State, spi: nat, remote: Ip, msk64: bool, permanent: Option<string>)
    requires Inv(s)
    ensures Inv(EapSuccess(s, spi, remote, msk64, permanent))
  {
    if spi in s.sas && s.sas[spi].phase == Auth && s.sas[spi].eapRound != 0 {
      AuthPhaseKeeps(s, spi, EapSuccess(s, spi, remote, msk64, permanent));
    }
  }

  lemma ExpireKeeps(s: State, spi: nat)
    requires Inv(s)
    ensures Inv(Step(s, EvExpire(spi)))
  {
    if spi in s.sas && s.sas[spi].phase == Auth {
      Forget(s, spi, Step(s, EvExpire(spi)));
    }
  }

  lemma InitKeeps(s: State, spiI: nat, spiR: nat, remote: Ip, localIp: Option<Ip>)
    requires Inv(s) && spiI !in s.sas
    ensures Inv(SaInit(s, spiI, spiR, remote, localIp))
  {
    Enter(s, spiI, SaInit(s, spiI, spiR, remote, localIp));
  }

  /** Every handler keeps ownership exact. */
  lemma StepKeeps(s: State, e: Event)
    requires Inv(s) && Admissible(s, e)
    ensures Inv(Step(s, e))
  {
    match e
    case EvInit(spiI, spiR, remote, localIp) => InitKeeps(s, spiI, spiR, remote, localIp);
    case EvRound1(spi, remote, r) => Round1Keeps(s, spi, remote, r);
    case EvEapSuccess(spi, remote, msk64, permanent) => EapSuccessKeeps(s, spi, remote, msk64, permanent);
    case EvFinal(spi, remote, f) => AuthFinalKeeps(s, spi, remote, f);
    case EvChildRekey(spi, remote, c, f) => ChildRekeyKeeps(s, spi, remote, c, f);
    case EvIkeRekey(spi, newI, newR) =>
      if spi in s.sas && s.sas[spi].phase == Established && newI != 0 {
        IkeRekeyKeeps(s, spi, newI, newR);
      }
    case EvEspDelete(spi, xs) => if spi in s.sas { EspDeleteKeeps(s, spi, xs); }
    case EvTeardown(spi) => if spi in s.sas { TeardownKeeps(s, spi); }
    case EvExpire(spi) => ExpireKeeps(s, spi);
    case EvPgwDelete(id) => SameSas(s, Step(s, e));
    case EvPgwHandoverDelete(id) => SameSas(s, Step(s, e));
  }

  ghost predicate AdmissibleRun(es: seq<Event>) {
    forall i :: 0 <= i < |es| ==> Admissible(Run(Init, es[..i]), es[i])
  }

  /** After every admissible run, and so at every moment of it, the kernel holds exactly the
      disjoint union of what the IKE SAs in the table own. */
  lemma {:induction false} OwnershipExact(es: seq<Event>)
    requires AdmissibleRun(es)
    ensures Inv(Run(Init, es))
  {
    if es == [] {
    } else {
      var front := es[..|es|-1];
      assert forall i :: 0 <= i < |front| ==> front[..i] == es[..i];
      OwnershipExact(front);
      StepKeeps(Run(Init, front), es[|es|-1]);
    }
  }

  // ----------------------------------------- where the assumptions are needed

  lemma Orphaned(s: State, spi: nat, st: EspState, a: nat)
    requires Inv(s) && spi in s.sas && a in s.sas && a != spi && st in Owned(s, spi)
    ensures st !in Claims(s.sas[a])
  {
    assert Owned(s, spi) <= Claims(s.sas[spi]);
  }

  /** A successful CHILD SA rekey keeps ownership exact if and only if no rekey was
      outstanding and the request came from the address the SA knows. */
  lemma ChildRekeyExactIff(s: State, spi: nat, remote: Ip, c: Child, f: Faults)
    requires Inv(s) && spi in s.sas && s.sas[spi].phase == Established
    requires Fresh(s, spi, remote, c)
    requires CurStates(s.sas[spi]) !! PairStates(s.sas[spi].localIp, remote, c)
    requires AddSucceeds(s.kernel, s.sas[spi].localIp, remote, c, f.(policies := false))
    ensures Exact(ChildRekey(s, spi, remote, c, f))
            <==> s.sas[spi].pending.None? && remote == s.sas[spi].remote
  {
    var sa := s.sas[spi];
    var s' := ChildRekey(s, spi, remote, c, f);
    if sa.pending.None? && remote == sa.remote {
      ChildRekeyKeeps(s, spi, remote, c, f);
    } else {
      OwnedInKernel(s, spi);
      // An installed state that nobody owns afterwards.
      var orphan := if remote != sa.remote then Inbound(sa.localIp.value, remote, c)
                    else Inbound(sa.localIp.value, sa.remote, sa.pending.value);
      assert orphan in s'.kernel;
      forall a | a in s'.sas ensures orphan !in Owned(s', a) {
        if a != spi {
          if remote == sa.remote { Orphaned(s, spi, orphan, a); }
          assert Owned(s', a) <= Claims(s.sas[a]);
        }
      }
      assert !IsOwned(s', orphan);
    }
  }

  /** Storing a new IKE SA keeps ownership exact if and only if the initiator SPI does not
      name an SA that still owns states: storeSA forgets that SA without removing them. */
  lemma InitExactIff(s: State, spiI: nat, spiR: nat, remote: Ip, localIp: Option<Ip>)
    requires Inv(s)
    ensures Exact(SaInit(s, spiI, spiR, remote, localIp))
            <==> spiI !in s.sas || Owned(s, spiI) == {}
  {
    if spiI !in s.sas {
      InitKeeps(s, spiI, spiR, remote, localIp);
    } else if Owned(s, spiI) == {} {
      InitReplaces(s, spiI, spiR, remote, localIp);
    } else {
      var orphan :| orphan in Owned(s, spiI);
      InitOrphans(s, spiI, spiR, remote, localIp, orphan);
    }
  }

  lemma InitReplaces(s: State, spiI: nat, spiR: nat, remote: Ip, localIp: Option<Ip>)
    requires Inv(s) && spiI in s.sas && Owned(s, spiI) == {}
    ensures Exact(SaInit(s, spiI, spiR, remote, localIp))
  {
    var s1 := s.(sas := s.sas - {spiI}, live := s.live - {spiI});
    Forget(s, spiI, s1);
    InitKeeps(s1, spiI, spiR, remote, localIp);
    assert SaInit(s1, spiI, spiR, remote, localIp) == SaInit(s, spiI, spiR, remote, localIp);
  }

  lemma InitOrphans(s: State, spiI: nat, spiR: nat, remote: Ip, localIp: Option<Ip>, orphan: EspState)
    requires Inv(s) && spiI in s.sas && orphan in Owned(s, spiI)
    ensures !Exact(SaInit(s, spiI, spiR, remote, localIp))
  {
    var s' := SaInit(s, spiI, spiR, remote, localIp);
    OwnedInKernel(s, spiI);
    forall a | a in s'.sas ensures orphan !in Owned(s', a) {
      if a != spiI {
        Orphaned(s, spiI, orphan, a);
        assert Owned(s', a) <= Claims(s.sas[a]);
      }
    }
    assert !IsOwned(s', orphan) && orphan in s'.kernel;
  }

  lemma FailedAttachLeaves(s: State, spi: nat, f: Final)
    requires Inv(s) && spi in s.sas && s.sas[spi].phase == Auth && s.sas[spi].esp
    requires Resolves(s.sas[spi].localIp, s.sas[spi].remote) && f.spiOk && f.localSpi != 0
    ensures var c := s.sas[spi].cur.(inSpi := f.localSpi);
            var s' := Teardown(FinalInstall(s, spi, f), spi);
            && s'.sas == s.sas - {spi} && s'.live == s.live - {spi} && Owned(s, spi) == {}
            && s'.kernel == s.kernel - PairStates(s.sas[spi].localIp, s.sas[spi].remote, c)
  {}

  /** An attach whose SPIs are already installed fails, yet its SA goes on claiming them:
      tearing it down keeps ownership exact if and only if the pair was not in the kernel. */
  lemma FailedAttachExactIff(s: State, spi: nat, f: Final)
    requires Inv(s) && spi in s.sas && s.sas[spi].phase == Auth && s.sas[spi].esp
    requires Resolves(s.sas[spi].localIp, s.sas[spi].remote) && f.spiOk && f.localSpi != 0
    ensures var c := s.sas[spi].cur.(inSpi := f.localSpi);
            Exact(Teardown(FinalInstall(s, spi, f), spi))
            <==> s.kernel !! PairStates(s.sas[spi].localIp, s.sas[spi].remote, c)
  {
    FailedAttachLeaves(s, spi, f);
    var pair := PairStates(s.sas[spi].localIp, s.sas[spi].remote, s.sas[spi].cur.(inSpi := f.localSpi));
    var s' := Teardown(FinalInstall(s, spi, f), spi);
    if s.kernel !! pair {
      Forget(s, spi, s');
    } else {
      var lost :| lost in s.kernel && lost in pair;
      var a :| a in s.sas && lost in Owned(s, a);
      assert a in s'.sas && lost in Owned(s', a);
      assert IsOwned(s', lost) && lost !in s'.kernel;
    }
  }

  /** Whether the final IKE_AUTH step installs a CHILD SA. */
  predicate Installs(s: State, spi: nat, f: Final)
    requires spi in s.sas
  {
    var sa := s.sas[spi];
    f.spiOk && sa.esp
    && AddSucceeds(s.kernel, sa.localIp, sa.remote, sa.cur.(inSpi := f.localSpi), f.faults)
  }

  lemma ZeroSpiUnowned(s: State, spi: nat, f: Final, st: EspState)
    requires Inv(s) && spi in s.sas && s.sas[spi].phase == Auth && f.localSpi == 0
    requires Unclaimed(s, spi, s.sas[spi].remote, s.sas[spi].cur)
    requires Installs(s, spi, f) && st in PairStates(s.sas[spi].localIp, s.sas[spi].remote, s.sas[spi].cur)
    ensures st in FinalInstall(s, spi, f).kernel && !IsOwned(FinalInstall(s, spi, f), st)
  {
    var s' := FinalInstall(s, spi, f);
    forall a | a in s'.sas ensures st !in Owned(s', a) {
      if a != spi { assert Owned(s', a) <= Claims(s.sas[a]); }
    }
  }

  /** The random own SPI may be 0, which removeXFRMChildSA reads as "nothing installed". The
      final IKE_AUTH step keeps ownership exact if and only if it does not install such a pair. */
  lemma AttachExactIff(s: State, spi: nat, f: Final)
    requires Inv(s) && spi in s.sas && s.sas[spi].phase == Auth
    requires Unclaimed(s, spi, s.sas[spi].remote, s.sas[spi].cur.(inSpi := f.localSpi))
    ensures Exact(FinalInstall(s, spi, f)) <==> (Installs(s, spi, f) ==> f.localSpi != 0)
  {
    var sa := s.sas[spi];
    if f.localSpi != 0 {
      FinalInstallKeeps(s, spi, f);
    } else if Installs(s, spi, f) {
      assert sa.cur.(inSpi := 0) == sa.cur;
      ZeroSpiUnowned(s, spi, f, Inbound(sa.localIp.value, sa.remote, sa.cur));
    } else {
      OwnersKept(s, FinalInstall(s, spi, f));
    }
  }

  lemma OwnersKept(s: State, s': State)
    requires Exact(s) && s'.sas.Keys == s.sas.Keys && s'.kernel == s.kernel
    requires forall a :: a in s.sas ==> Owned(s', a) == Owned(s, a)
    ensures Exact(s')
  {
    forall st ensures IsOwned(s, st) <==> IsOwned(s', st) {
      if IsOwned(s, st) { var a :| a in s.sas && st in Owned(s, a); assert st in Owned(s', a); }
      if IsOwned(s', st) { var a :| a in s'.sas && st in Owned(s', a); assert st in Owned(s, a); }
    }
  }

  /** An installed pair leaves the kernel with its SA if and only if the own SPI is not 0;
      otherwise both states stay. */
  lemma AttachedPairGoneIff(s: State, spi: nat, f: Final)
    requires Inv(s) && spi in s.sas && s.sas[spi].phase == Auth && Installs(s, spi, f)
    ensures var pair := PairStates(s.sas[spi].localIp, s.sas[spi].remote,
                                   s.sas[spi].cur.(inSpi := f.localSpi));
            var s' := Teardown(FinalInstall(s, spi, f), spi);
            && spi !in s'.sas && (pair !! s'.kernel <==> f.localSpi != 0)
            && (f.localSpi == 0 ==> pair <= s'.kernel)
  {
    var sa := s.sas[spi];
    var s' := Teardown(FinalInstall(s, spi, f), spi);
    assert f.localSpi == 0 ==> Inbound(sa.localIp.value, sa.remote, sa.cur.(inSpi := f.localSpi)) in s'.kernel;
  }

  /** Likewise for a pair that a rekey installs and the UE's delete of the old one promotes. */
  lemma PromotedPairGoneIff(s: State, spi: nat, c: Child, f: Faults)
    requires Inv(s) && spi in s.sas && s.sas[spi].phase == Established && s.sas[spi].esp
    requires s.sas[spi].pending.None?
    requires CurStates(s.sas[spi]) !! PairStates(s.sas[spi].localIp, s.sas[spi].remote, c)
    requires AddSucceeds(s.kernel, s.sas[spi].localIp, s.sas[spi].remote, c, f.(policies := false))
    ensures var pair := PairStates(s.sas[spi].localIp, s.sas[spi].remote, c);
            var s1 := ChildRekey(s, spi, s.sas[spi].remote, c, f);
            var s2 := EspDelete1(s1, spi, s.sas[spi].cur.inSpi);
            var s3 := Teardown(s2, spi);
            && spi !in s3.sas && (pair !! s3.kernel <==> c.inSpi != 0)
            && (c.inSpi == 0 ==> pair <= s3.kernel)
  {
    var sa := s.sas[spi];
    var s1 := ChildRekey(s, spi, sa.remote, c, f);
    var s2 := EspDelete1(s1, spi, sa.cur.inSpi);
    var s3 := Teardown(s2, spi);
    assert s2 == Promote(s1, spi) && s2.sas[spi].cur == c;
    assert c.inSpi == 0 ==> Inbound(sa.localIp.value, sa.remote, c) in s3.kernel;
  }
}
