/** Runs of the server, from its constructor, in which the kernel refuses a delete. */
module XfrmRuns {
  import opened Octets
  import opened IkeLifecycle
  import opened IkeServer
  import opened IkeRuns
  import opened XfrmDeletes

  lemma NoFaults(u: Ue, ts: nat, failing: set<nat>)
    ensures var s := Ready(Init, u);
            && Moved(s, u.spi, u.remote) == s && Target(s, u.spi, u.imsi, u.apn) == None
            && FinalFaults(s, Xfrm(Tables({}, {}), {}, 0, failing), u.spi, u.child.inSpi, ts, 0, {}) == NO_FAULTS
  {
    var s := Ready(Init, u);
    assert s.sas[u.spi := s.sas[u.spi].(remote := u.remote)] == s.sas;
    assert forall id :: !ActiveFor(s, id, u.imsi, u.apn);
  }

  lemma FinalDone(u: Ue)
    requires Usable(u)
    ensures AuthFinal(Ready(Init, u), u.spi, u.remote, Attach(u)[3].final) == Done(Init, u)
  {
    FinalOf(Init, u);
    InstallOf(Init, u);
  }

  /** The first three events on a new server. */
  method Prepare(u: Ue, failing: set<nat>) returns (srv: Server)
    ensures fresh(srv) && fresh(srv.xfrm) && srv.View() == Ready(Init, u) && srv.xfrm.Valid()
    ensures srv.xfrm.Snapshot() == Xfrm(Tables({}, {}), {}, 0, failing)
  {
    srv := new Server(failing);
    srv.StoreSa(u.spi, u.spiR, u.remote, Some(u.local));
    srv.HandleAuthRound1(u.spi, u.remote,
                         Round1(true, true, u.imsi, u.apn, Some(u.child.outSpi), u.handover, true));
    srv.HandleEapSuccess(u.spi, u.remote, true, None);
    InitOf(Init, u);
  }

  /** A whole attach on a new server. */
  method AttachFirst(u: Ue, ts: nat, failing: set<nat>) returns (srv: Server)
    requires Usable(u)
    ensures fresh(srv) && fresh(srv.xfrm) && srv.View() == Done(Init, u) && srv.xfrm.Valid()
    ensures srv.xfrm.T() == Tables(Pair(u), {}) && srv.xfrm.deletes == 0 && srv.xfrm.failing == failing
  {
    srv := Prepare(u, failing);
    NoFaults(u, ts, failing);
    FinalDone(u);
    ghost var faults := srv.HandleAuthFinal(u.spi, u.remote, Final(true, true, true, u.child.inSpi, NO_FAULTS, true), ts, 0, {});
  }

  /** Deletes `first + 3` and `first + 4` of the UE's pair, the outbound one refused. */
  lemma OutboundRefused(u: Ue, failing: set<nat>, first: nat)
    requires Usable(u) && first + 3 in failing && first + 4 !in failing
    ensures TeardownDeletes(Attached(u), first) == CurDeletes(Attached(u), first)
    ensures var out := {Outbound(u.local, u.remote, u.child)};
            AfterAll(Tables(Pair(u), {}), failing, CurDeletes(Attached(u), first)) == Tables(out, out)
  {
    AfterTwo(Tables(Pair(u), {}), failing, Delete(first + 3, Outbound(u.local, u.remote, u.child)),
             Delete(first + 4, Inbound(u.local, u.remote, u.child)));
  }

  lemma NoneRefused(u: Ue, t: Tables, failing: set<nat>, first: nat)
    requires Usable(u) && first + 3 !in failing && first + 4 !in failing && t.states <= Pair(u) && t.stuck <= t.states
    ensures AfterAll(t, failing, TeardownDeletes(Attached(u), first)) == Tables({}, {})
  {
    AfterTwo(t, failing, Delete(first + 3, Outbound(u.local, u.remote, u.child)),
             Delete(first + 4, Inbound(u.local, u.remote, u.child)));
    assert TeardownDeletes(Attached(u), first) == CurDeletes(Attached(u), first);
  }

  lemma EspDeleted(u: Ue, t: Tables, failing: set<nat>)
    requires Usable(u)
    ensures var s' := EspDeleteAll(Done(Init, u), u.spi, [u.child.inSpi]);
            u.spi in s'.sas && s'.sas == map[u.spi := Attached(u)]
    ensures EspTables(Done(Init, u), t, failing, u.spi, [u.child.inSpi], 0)
            == AfterAll(t, failing, CurDeletes(Attached(u), 0))
  {
    var xs := [u.child.inSpi];
    EspStep(Done(Init, u), t, failing, u.spi, xs, 0, 0);
    assert xs[0..] == xs && xs[1..] == [];
  }

  /** The outbound state's delete, the fourth of a teardown, is refused: the SA and its session
      are gone, and the state stays. */
  method RefusedDeleteStays(u: Ue, ts: nat) returns (srv: Server)
    requires Usable(u)
    ensures srv.sas == map[] && srv.sessions == map[]
    ensures srv.xfrm.states == {Outbound(u.local, u.remote, u.child)} && !HoldsOwned(srv.xfrm.states, srv.View())
  {
    srv := AttachFirst(u, ts, {3});
    srv.FullTeardown(u.spi, ts);
    OutboundRefused(u, {3}, 0);
    assert Outbound(u.local, u.remote, u.child) in srv.xfrm.states;
  }

  /** The same refusal when the UE deletes its CHILD SA first: the state stays until the
      teardown, which deletes it again. */
  method RepeatedDeleteClears(u: Ue, ts: nat) returns (srv: Server, between: set<EspState>)
    requires Usable(u)
    ensures between == {Outbound(u.local, u.remote, u.child)}
    ensures srv.sas == map[] && srv.xfrm.states == {} && HoldsOwned(srv.xfrm.states, srv.View())
  {
    srv := AttachFirst(u, ts, {3});
    EspDeleted(u, srv.xfrm.T(), {3});
    OutboundRefused(u, {3}, 0);
    srv.DeleteEspSpis(u.spi, [u.child.inSpi], ts);
    between := srv.xfrm.states;
    NoneRefused(u, srv.xfrm.T(), {3}, srv.xfrm.deletes);
    srv.FullTeardown(u.spi, ts);
  }
}
