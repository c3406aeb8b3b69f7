/** What refused XFRM deletes leave behind. Deletes are numbered over the life of the process,
    and the kernel refuses those whose numbers are in `failing`. */
module XfrmDeletes {
  import opened Octets
  import opened IkeLifecycle
  import opened IkeOwnership

  /** The kernel's states, and those of them that the program gave up: their last delete was
      refused. */
  datatype Tables = Tables(states: set<EspState>, stuck: set<EspState>)

  datatype Delete = Delete(no: nat, st: EspState)

  function After(t: Tables, failing: set<nat>, d: Delete): Tables {
    if d.no in failing then t.(stuck := t.stuck + ({d.st} * t.states))
    else Tables(t.states - {d.st}, t.stuck - {d.st})
  }

  function AfterAll(t: Tables, failing: set<nat>, ds: seq<Delete>): Tables {
    if ds == [] then t else After(AfterAll(t, failing, ds[..|ds| - 1]), failing, ds[|ds| - 1])
  }

  lemma AfterTwo(t: Tables, failing: set<nat>, a: Delete, b: Delete)
    ensures AfterAll(t, failing, [a]) == After(t, failing, a)
    ensures AfterAll(t, failing, [a, b]) == After(After(t, failing, a), failing, b)
  {
    assert [a][..0] == [] && [a, b][..1] == [a];
    assert AfterAll(t, failing, []) == t;
  }

  predicate Listed(ds: seq<Delete>, st: EspState) {
    exists i :: 0 <= i < |ds| && ds[i].st == st
  }

  /** Some delete of the state is not refused. */
  predicate Deleted(ds: seq<Delete>, failing: set<nat>, st: EspState) {
    exists i :: 0 <= i < |ds| && ds[i].st == st && ds[i].no !in failing
  }

  /** A state stays exactly if all its deletes are refused, and is then given up. */
  lemma {:induction false} AfterAllAt(t: Tables, failing: set<nat>, ds: seq<Delete>, st: EspState)
    requires t.stuck <= t.states
    ensures var t' := AfterAll(t, failing, ds);
            && (st in t'.states <==> st in t.states && !Deleted(ds, failing, st))
            && (st in t'.stuck <==> st in t'.states && (Listed(ds, st) || st in t.stuck))
  {
    if ds == [] {
    } else {
      var front, d := ds[..|ds| - 1], ds[|ds| - 1];
      AfterAllAt(t, failing, front, st);
      assert Listed(ds, st) <==> Listed(front, st) || d.st == st by {
        if Listed(front, st) { var i :| 0 <= i < |front| && front[i].st == st; assert ds[i].st == st; }
      }
      assert Deleted(ds, failing, st) <==> Deleted(front, failing, st) || (d.st == st && d.no !in failing) by {
        if Deleted(front, failing, st) {
          var i :| 0 <= i < |front| && front[i].st == st && front[i].no !in failing;
          assert ds[i].st == st;
        }
      }
    }
  }

  lemma {:induction false} AfterAllAppend(t: Tables, failing: set<nat>, ds: seq<Delete>, es: seq<Delete>)
    ensures AfterAll(t, failing, ds + es) == AfterAll(AfterAll(t, failing, ds), failing, es)
    decreases |es|
  {
    if es == [] {
      assert ds + es == ds;
    } else {
      var front := es[..|es| - 1];
      AfterAllAppend(t, failing, ds, front);
      assert (ds + es)[..|ds + es| - 1] == ds + front;
    }
  }

  // ------------------------------------------------------ deletes of an IKE SA

  /** RemoveChildSAStates, as delete number `first` and the next. */
  function PairDeletes(local: Option<Ip>, remote: Ip, c: Child, first: nat): seq<Delete> {
    if Resolves(local, remote)
    then [Delete(first, Outbound(local.value, remote, c)), Delete(first + 1, Inbound(local.value, remote, c))]
    else []
  }

  /** removeXFRMChildSA has something to remove. */
  predicate Removable(sa: IkeSa) {
    sa.esp && sa.localIp.Some? && sa.cur.inSpi != 0 && Resolves(sa.localIp, sa.remote)
  }

  /** removeXFRMChildSA: three policy deletes go before. */
  function CurDeletes(sa: IkeSa, first: nat): seq<Delete> {
    if Removable(sa) then PairDeletes(sa.localIp, sa.remote, sa.cur, first + 3) else []
  }

  function CurCalls(sa: IkeSa): nat {
    if Removable(sa) then 5 else 0
  }

  function PendDeletes(sa: IkeSa, first: nat): seq<Delete> {
    if sa.pending.None? then [] else PairDeletes(sa.localIp, sa.remote, sa.pending.value, first)
  }

  /** fullTeardown. */
  function TeardownDeletes(sa: IkeSa, first: nat): seq<Delete> {
    CurDeletes(sa, first) + PendDeletes(sa, first + CurCalls(sa))
  }

  /** One SPI of a DELETE{ESP} payload. */
  function EspDeletes(sa: IkeSa, x: nat, first: nat): seq<Delete> {
    if sa.esp && (x == sa.cur.inSpi || x == sa.cur.outSpi) then
      if sa.pending.Some? then PairDeletes(sa.localIp, sa.remote, sa.cur, first) else CurDeletes(sa, first)
    else if sa.pending.Some? && (x == sa.pending.value.inSpi || x == sa.pending.value.outSpi) then PendDeletes(sa, first)
    else []
  }

  /** How many deletes, policies included, that takes. */
  function EspCalls(sa: IkeSa, x: nat): nat {
    if sa.esp && (x == sa.cur.inSpi || x == sa.cur.outSpi) && sa.pending.None? then CurCalls(sa)
    else |EspDeletes(sa, x, 0)|
  }

  /** The tables after all SPIs of the payload, one after the other. */
  function EspTables(s: State, t: Tables, failing: set<nat>, spi: nat, xs: seq<nat>, first: nat): Tables
    requires spi in s.sas
    decreases |xs|
  {
    if xs == [] then t else
    EspTables(EspDelete1(s, spi, xs[0]), AfterAll(t, failing, EspDeletes(s.sas[spi], xs[0], first)), failing, spi,
              xs[1..], first + EspCalls(s.sas[spi], xs[0]))
  }

  lemma EspStep(s: State, t: Tables, failing: set<nat>, spi: nat, xs: seq<nat>, i: nat, first: nat)
    requires spi in s.sas && i < |xs|
    ensures EspDeleteAll(s, spi, xs[i..]) == EspDeleteAll(EspDelete1(s, spi, xs[i]), spi, xs[i + 1..])
    ensures EspTables(s, t, failing, spi, xs[i..], first)
            == EspTables(EspDelete1(s, spi, xs[i]), AfterAll(t, failing, EspDeletes(s.sas[spi], xs[i], first)), failing, spi,
                         xs[i + 1..], first + EspCalls(s.sas[spi], xs[i]))
  {
    assert xs[i..][0] == xs[i] && xs[i..][1..] == xs[i + 1..];
  }

  lemma PairListed(local: Option<Ip>, remote: Ip, c: Child, first: nat, st: EspState)
    ensures Listed(PairDeletes(local, remote, c, first), st) <==> st in PairStates(local, remote, c)
  {
    var ds := PairDeletes(local, remote, c, first);
    if Resolves(local, remote) {
      assert ds[0].st == Outbound(local.value, remote, c) && ds[1].st == Inbound(local.value, remote, c);
    }
  }

  lemma ListedAppend(ds: seq<Delete>, es: seq<Delete>, st: EspState)
    ensures Listed(ds + es, st) <==> Listed(ds, st) || Listed(es, st)
  {
    if Listed(ds, st) { var i :| 0 <= i < |ds| && ds[i].st == st; assert (ds + es)[i].st == st; }
    if Listed(es, st) { var i :| 0 <= i < |es| && es[i].st == st; assert (ds + es)[|ds| + i].st == st; }
  }

  /** A teardown deletes what its SA claims. */
  lemma TeardownListed(sa: IkeSa, first: nat, st: EspState)
    ensures Listed(TeardownDeletes(sa, first), st) <==> st in Claims(sa)
  {
    ListedAppend(CurDeletes(sa, first), PendDeletes(sa, first + CurCalls(sa)), st);
    PairListed(sa.localIp, sa.remote, sa.cur, first + 3, st);
    if sa.pending.Some? { PairListed(sa.localIp, sa.remote, sa.pending.value, first + CurCalls(sa), st); }
  }

  // --------------------------------------------------------- exact conditions

  /** The kernel holds exactly the states that the SAs own. */
  ghost predicate HoldsOwned(states: set<EspState>, s: State) {
    forall st :: st in states <==> IsOwned(s, st)
  }

  /** Before the deletes: no state given up earlier, and none about to be deleted, is still in
      the kernel with all these deletes refused. */
  ghost predicate AllGo(t: Tables, failing: set<nat>, ds: seq<Delete>) {
    forall st :: st in t.states && (st in t.stuck || Listed(ds, st)) ==> Deleted(ds, failing, st)
  }

  lemma HoldsOwnedIff(s': State, t: Tables, failing: set<nat>, ds: seq<Delete>)
    requires t.stuck <= t.states && Exact(s')
    requires var t' := AfterAll(t, failing, ds); s'.kernel == t'.states - t'.stuck
    ensures HoldsOwned(AfterAll(t, failing, ds).states, s') <==> AllGo(t, failing, ds)
  {
    var t' := AfterAll(t, failing, ds);
    forall st ensures st in t'.stuck <==> st in t.states && (st in t.stuck || Listed(ds, st)) && !Deleted(ds, failing, st) {
      AfterAllAt(t, failing, ds, st);
    }
    if AllGo(t, failing, ds) {
      forall st ensures st in t'.states <==> IsOwned(s', st) {
        assert st !in t'.stuck;
        assert st in s'.kernel <==> IsOwned(s', st);
      }
    } else {
      var st :| st in t.states && (st in t.stuck || Listed(ds, st)) && !Deleted(ds, failing, st);
      assert st in t'.stuck;
      AfterAllAt(t, failing, ds, st);
      assert st !in s'.kernel && st in t'.states;
    }
  }

  /** A teardown leaves the kernel with exactly the states the remaining SAs own if and only if
      no state that the SA claims, and none left from earlier refusals, has all its deletes
      refused here. */
  lemma TeardownExactIff(s: State, t: Tables, failing: set<nat>, spi: nat, first: nat)
    requires Inv(s) && spi in s.sas && t.stuck <= t.states && s.kernel == t.states - t.stuck
    ensures var ds := TeardownDeletes(s.sas[spi], first);
            var t' := AfterAll(t, failing, ds);
            && Teardown(s, spi).kernel == t'.states - t'.stuck
            && (HoldsOwned(t'.states, Teardown(s, spi)) <==> AllGo(t, failing, ds))
  {
    var ds := TeardownDeletes(s.sas[spi], first);
    var t' := AfterAll(t, failing, ds);
    TeardownKeeps(s, spi);
    forall st ensures st in Teardown(s, spi).kernel <==> st in t'.states - t'.stuck {
      AfterAllAt(t, failing, ds, st);
      TeardownListed(s.sas[spi], first, st);
      if st in s.kernel && st in Claims(s.sas[spi]) { ClaimedInKernel(s, spi, st); }
      assert Owned(s, spi) <= Claims(s.sas[spi]);
    }
    HoldsOwnedIff(Teardown(s, spi), t, failing, ds);
  }

  /** Starting without leftovers and with distinct claimed states, that is: no claimed state in
      the kernel is deleted under a failing number. */
  lemma CleanTeardownExactIff(s: State, failing: set<nat>, spi: nat, first: nat)
    requires Inv(s) && spi in s.sas
    requires var ds := TeardownDeletes(s.sas[spi], first); forall i, j :: 0 <= i < j < |ds| ==> ds[i].st != ds[j].st
    ensures var ds := TeardownDeletes(s.sas[spi], first);
            HoldsOwned(AfterAll(Tables(s.kernel, {}), failing, ds).states, Teardown(s, spi))
            <==> forall i :: 0 <= i < |ds| && ds[i].st in s.kernel ==> ds[i].no !in failing
  {
    var ds, t := TeardownDeletes(s.sas[spi], first), Tables(s.kernel, {});
    TeardownExactIff(s, t, failing, spi, first);
    if AllGo(t, failing, ds) {
      forall i | 0 <= i < |ds| && ds[i].st in s.kernel ensures ds[i].no !in failing {
        assert Listed(ds, ds[i].st);
        assert Deleted(ds, failing, ds[i].st);
      }
    }
  }

  /** Likewise for one SPI of a DELETE{ESP} payload: promotion, removal or abort. */
  lemma EspDeleteExactIff(s: State, t: Tables, failing: set<nat>, spi: nat, x: nat, first: nat)
    requires Inv(s) && spi in s.sas && t.stuck <= t.states && s.kernel == t.states - t.stuck
    ensures var ds := EspDeletes(s.sas[spi], x, first);
            var t' := AfterAll(t, failing, ds);
            && EspDelete1(s, spi, x).kernel == t'.states - t'.stuck
            && (HoldsOwned(t'.states, EspDelete1(s, spi, x)) <==> AllGo(t, failing, ds))
  {
    var sa := s.sas[spi];
    var ds, s' := EspDeletes(sa, x, first), EspDelete1(s, spi, x);
    var t' := AfterAll(t, failing, ds);
    EspDeleteKeeps(s, spi, [x]);
    assert [x][1..] == [];
    assert EspDeleteAll(s, spi, [x]) == EspDeleteAll(s', spi, []);
    forall st ensures st in s'.kernel <==> st in t'.states - t'.stuck {
      AfterAllAt(t, failing, ds, st);
      EspListed(s, spi, x, first, st);
    }
    HoldsOwnedIff(s', t, failing, ds);
  }

  lemma EspListed(s: State, spi: nat, x: nat, first: nat, st: EspState)
    requires spi in s.sas
    ensures st in EspDelete1(s, spi, x).kernel <==> st in s.kernel && !Listed(EspDeletes(s.sas[spi], x, first), st)
  {
    var sa := s.sas[spi];
    PairListed(sa.localIp, sa.remote, sa.cur, first, st);
    PairListed(sa.localIp, sa.remote, sa.cur, first + 3, st);
    if sa.pending.Some? { PairListed(sa.localIp, sa.remote, sa.pending.value, first, st); }
  }
}
