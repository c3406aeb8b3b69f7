/** Answering a Create Bearer Request: an EBI and a local TEID for each requested bearer. */
module BearerAlloc {
  import opened Octets
  import opened Tft
  import opened GtpuIndex
  import opened GtpuManager

  /** One bearer context of the request. */
  datatype Context = Context(
    ebi: byte, unassigned: bool, pgwTeid: nat, pgwIp: Addr, qci: byte, tftRaw: Bytes)

  datatype Outcome = Outcome(ebi: byte, accepted: bool, cause: byte, localTeid: nat, pgwTeid: nat)

  datatype Reply = Reply(accepted: bool, cause: byte, localTeid: nat, bearers: seq<Outcome>, pgwControl: nat)

  /** A session found by its control TEID, with what its S2b context says at that time. */
  datatype Found = Found(id: SessionId, defaultEbi: byte, pgwControl: nat)

  const REFUSED := Reply(false, 64, 0, [], 0)

  /** The first EBI of 6..15 that is neither the default nor in use. */
  method AllocateDedicatedEbi(m: Manager, id: SessionId, defaultEbi: byte) returns (r: Option<byte>)
    ensures r.Some? ==> 6 <= r.value <= 15 && r.value != defaultEbi && !HasBearer(m.Ix(), id, r.value)
    ensures forall e: byte :: 6 <= e <= 15 && (r.Some? ==> e < r.value) ==> e == defaultEbi || HasBearer(m.Ix(), id, e)
  {
    var ebi := 6;
    while ebi <= 15
      invariant 6 <= ebi <= 16
      invariant forall e: byte :: 6 <= e < ebi ==> e == defaultEbi || HasBearer(m.Ix(), id, e)
    {
      if ebi != defaultEbi {
        var has := m.HasBearer(id, ebi);
        if !has { return Some(ebi); }
      }
      ebi := ebi + 1;
    }
    r := None;
  }

  /** Only bearer `ebi` of session `id` may differ, and no TEID loses its bearer. */
  ghost predicate OnlyAdds(ix: Index, ix': Index, id: SessionId, ebi: byte) {
    && ix.sessions.Keys == ix'.sessions.Keys && ix.byPaa == ix'.byPaa
    && (forall i :: i in ix.sessions ==> ix'.sessions[i] == ix.sessions[i].(bearers := ix'.sessions[i].bearers))
    && (forall i, e :: HasBearer(ix, i, e) && (i != id || e != ebi) ==>
          HasBearer(ix', i, e) && ix'.sessions[i].bearers[e] == ix.sessions[i].bearers[e])
    && (forall i, e, t :: Points(ix, i, e, t) ==> Points(ix', i, e, t))
    && (forall i, e :: HasBearer(ix', i, e) && (i != id || e != ebi) ==> HasBearer(ix, i, e))
    && (forall i, e :: HasBearer(ix, i, e) ==> HasBearer(ix', i, e))
  }

  /** The bearer under `ebi` is the one asked for: its TEIDs, its QCI, its PGW address or the
      session's if it came without one. */
  ghost predicate Holds(ix: Index, id: SessionId, ebi: byte, local: nat, remote: nat, pgw: Addr, qci: byte,
                        tft: Option<seq<PacketFilter>>) {
    HasBearer(ix, id, ebi) &&
    var s, b := ix.sessions[id], ix.sessions[id].bearers[ebi];
    && b.ebi == ebi && b.local == local && b.remote == remote && b.qci == qci && b.tft == tft
    && b.pgw == (if pgw == NoAddr then V4(s.pgw) else pgw)
  }

  /** The filters that the octets of a request give a new bearer: those they carry, none for
      operations 2, 5 and 6 and for octets that do not parse, no template for 0 and 7. */
  ghost predicate Filters(raw: Bytes, tft: Option<seq<PacketFilter>>) {
    && (raw == [] ==> tft == Some([]))
    && (raw != [] && (raw[0] / 32 == 0 || raw[0] / 32 == 7) ==> tft == None)
    && (raw != [] && (raw[0] / 32 == 2 || raw[0] / 32 == 5 || raw[0] / 32 == 6) ==> tft == Some([]))
    && (forall fs :: CarriesTft(raw, fs) ==> tft == Some(fs))
    && (forall fs, bad :: BadTft(raw, fs, bad) ==> tft == Some([]))
  }

  lemma InsertOnlyAdds(ix: Index, id: SessionId, b: Bearer)
    ensures OnlyAdds(ix, InsertBearer(ix, id, b), id, b.ebi)
    ensures Acceptable(ix, id, b) ==>
              var ix' := InsertBearer(ix, id, b);
              Holds(ix', id, b.ebi, b.local, b.remote, b.pgw, b.qci, b.tft) && Points(ix', id, b.ebi, b.local)
  {}

  lemma OnlyAddsTwice(ix: Index, ix1: Index, ix2: Index, id: SessionId, ebi: byte)
    requires OnlyAdds(ix, ix1, id, ebi) && OnlyAdds(ix1, ix2, id, ebi)
    ensures OnlyAdds(ix, ix2, id, ebi)
  {}

  /** The first number drawn is new and no check refuses the bearer. */
  ghost predicate Installable(m: Manager, id: SessionId, remote: nat, draw: nat)
    reads m, m.kernel
  {
    && id in m.sessions && remote != 0
    && draw != 0 && draw !in m.byLocal
    && (m.hasTc ==> m.sessions[id].paa in m.kernel.ue)
  }

  /** An EBI can be had: the one asked for, or some EBI of 6..15. */
  ghost predicate Available(ix: Index, id: SessionId, defaultEbi: byte, c: Context) {
    if c.unassigned || c.ebi == 0 then exists e: byte :: 6 <= e <= 15 && e != defaultEbi && !HasBearer(ix, id, e)
    else c.ebi != defaultEbi && !HasBearer(ix, id, c.ebi)
  }

  /** The index after AddBearer was called for the draws `from` to `next`. */
  function Attempted(ix: Index, id: SessionId, b: Bearer, draws: nat -> nat, from: nat, next: nat): Index
    requires from <= next
  {
    if from == next then ix else
    InsertBearer(Attempted(ix, id, b, draws, from, next - 1), id, b.(local := draws(next - 1)))
  }

  /** The TEIDs among them that a check does not refuse. */
  function Tried(ix: Index, id: SessionId, b: Bearer, draws: nat -> nat, from: nat, next: nat): set<nat>
    requires from <= next
  {
    if from == next then {} else
    Tried(ix, id, b, draws, from, next - 1)
    + (if Acceptable(ix, id, b.(local := draws(next - 1))) then {draws(next - 1)} else {})
  }

  predicate AtMostOne(s: set<nat>) {
    forall x, y :: x in s && y in s ==> x == y
  }

  /** Two TEIDs lead to one bearer. */
  ghost predicate Doubled(ix: Index) {
    exists id, ebi, t, u :: t != u && Points(ix, id, ebi, t) && Points(ix, id, ebi, u)
  }

  lemma DoubledBreaks(ix: Index)
    requires Doubled(ix)
    ensures !Inverse(ix)
  {
    var id, ebi, t, u :| t != u && Points(ix, id, ebi, t) && Points(ix, id, ebi, u);
    assert !(Receives(ix, id, ebi, t) && Receives(ix, id, ebi, u));
  }

  /** The attempts insert exactly the TEIDs tried, all under the one EBI. */
  lemma {:induction false} AttemptedIs(ix: Index, id: SessionId, b: Bearer, draws: nat -> nat, from: nat, next: nat)
    requires from <= next
    ensures var ix', tried := Attempted(ix, id, b, draws, from, next), Tried(ix, id, b, draws, from, next);
            && ix'.byLocal.Keys == ix.byLocal.Keys + tried && ix'.sessions.Keys == ix.sessions.Keys
            && (tried == {} ==> ix' == ix) && (forall t :: t in tried ==> Points(ix', id, b.ebi, t))
    decreases next - from
  {
    if from == next {
    } else {
      AttemptedIs(ix, id, b, draws, from, next - 1);
    }
  }

  /** From an exact index and a free EBI, the attempts keep the index exact if and only if they
      try at most one TEID: no insertion whose rule sync failed may be followed by another. */
  lemma {:induction false} AttemptsExactIff(ix: Index, id: SessionId, b: Bearer, draws: nat -> nat, from: nat, next: nat)
    requires from <= next && Inverse(ix) && !HasBearer(ix, id, b.ebi)
    ensures var ix', tried := Attempted(ix, id, b, draws, from, next), Tried(ix, id, b, draws, from, next);
            && (Inverse(ix') <==> AtMostOne(tried)) && (!AtMostOne(tried) ==> Doubled(ix'))
    decreases next - from
  {
    var ix', tried := Attempted(ix, id, b, draws, from, next), Tried(ix, id, b, draws, from, next);
    AttemptedIs(ix, id, b, draws, from, next);
    if from == next {
    } else if !AtMostOne(tried) {
      var t, u :| t in tried && u in tried && t != u;
      assert Points(ix', id, b.ebi, t) && Points(ix', id, b.ebi, u);
      DoubledBreaks(ix');
    } else {
      var ix1, tried1 := Attempted(ix, id, b, draws, from, next - 1), Tried(ix, id, b, draws, from, next - 1);
      AttemptsExactIff(ix, id, b, draws, from, next - 1);
      AttemptedIs(ix, id, b, draws, from, next - 1);
      var b1 := b.(local := draws(next - 1));
      if Acceptable(ix1, id, b1) {
        assert draws(next - 1) in tried && draws(next - 1) !in tried1;
        assert tried1 <= tried;
        assert tried1 == {};
        InsertBearerInverse(ix1, id, b1);
      }
    }
  }

  lemma {:induction false} TriedAreNew(ix: Index, id: SessionId, b: Bearer, draws: nat -> nat, from: nat, next: nat)
    requires from <= next
    ensures Tried(ix, id, b, draws, from, next) !! ix.byLocal.Keys
    decreases next - from
  {
    if from == next {
    } else {
      TriedAreNew(ix, id, b, draws, from, next - 1);
    }
  }

  /** allocateBearerTEID: up to eight random TEIDs. `draws(n)` is the n-th number drawn, 0
      when the random source fails. */
  method AllocateBearerTeid(m: Manager, id: SessionId, b0: Bearer, draws: nat -> nat, from: nat)
      returns (r: Option<nat>, next: nat)
    modifies m, m.kernel
    ensures from <= next <= from + 8 && m.Ix() == Attempted(old(m.Ix()), id, b0, draws, from, next)
    ensures OnlyAdds(old(m.Ix()), m.Ix(), id, b0.ebi)
    ensures r.Some? ==>
      && Holds(m.Ix(), id, b0.ebi, r.value, b0.remote, b0.pgw, b0.qci, b0.tft) && Points(m.Ix(), id, b0.ebi, r.value)
      && r.value !in old(m.byLocal) && r.value != 0
    ensures old(m.kernel.calls) <= m.kernel.calls
    ensures var d := draws(from);
            old(Installable(m, id, b0.remote, d)) && b0.ebi != 0 && m.Worked(old(m.kernel.calls)) ==> r == Some(d)
  {
    next := from;
    for i := 0 to 8
      invariant next == from + i && m.Ix() == Attempted(old(m.Ix()), id, b0, draws, from, next)
      invariant OnlyAdds(old(m.Ix()), m.Ix(), id, b0.ebi)
      invariant forall t :: t in old(m.byLocal) ==> t in m.byLocal
      invariant i == 0 ==> m.W() == old(m.W()) && m.kernel.calls == old(m.kernel.calls)
      invariant old(m.kernel.calls) <= m.kernel.calls
      invariant var d := draws(from);
        i > 0 ==> !(old(Installable(m, id, b0.remote, d)) && b0.ebi != 0 && m.Worked(old(m.kernel.calls)))
    {
      var teid := draws(next);
      next := next + 1;
      if teid == 0 { return None, next; }
      var b := b0.(local := teid);
      ghost var ix := m.Ix();
      InsertOnlyAdds(ix, id, b);
      OnlyAddsTwice(old(m.Ix()), ix, InsertBearer(ix, id, b), id, b.ebi);
      var ok, _ := m.AddBearer(id, b);
      if ok { return Some(teid), next; }
    }
    r := None;
  }

  /** Every bearer there was is still the same, and only the session may have more. */
  ghost predicate Kept(before: Index, ix: Index, id: SessionId) {
    && (forall i, e :: HasBearer(before, i, e) ==>
          HasBearer(ix, i, e) && ix.sessions[i].bearers[e] == before.sessions[i].bearers[e])
    && (forall i, e :: HasBearer(ix, i, e) && i != id ==> HasBearer(before, i, e))
  }

  /** The outcomes of the first contexts, against the index before and now. */
  ghost predicate Sound(before: Index, ix: Index, id: SessionId, defaultEbi: byte, cs: seq<Context>, os: seq<Outcome>) {
    && |os| <= |cs|
    && Kept(before, ix, id)
    && (forall i :: 0 <= i < |os| ==> Answers(before, ix, id, defaultEbi, cs[i], os[i]))
    && (forall i, j :: 0 <= i < j < |os| && os[i].accepted && os[j].accepted ==>
          os[i].ebi != os[j].ebi && os[i].localTeid != os[j].localTeid)
  }

  /** An accepted bearer has an EBI that was free and is not the default, the one asked for if
      one was and otherwise one of 6..15, and is installed under that EBI with the local TEID
      answered and all that the context asks for. */
  ghost predicate Answers(before: Index, ix: Index, id: SessionId, defaultEbi: byte, c: Context, o: Outcome) {
    if !o.accepted then o.cause == 64 && o.localTeid == 0 && (c.unassigned || c.ebi == 0 || o.ebi == c.ebi)
    else
      && o.cause == 16 && o.pgwTeid == c.pgwTeid
      && o.ebi != defaultEbi && !HasBearer(before, id, o.ebi)
      && (if c.unassigned || c.ebi == 0 then 6 <= o.ebi <= 15 else o.ebi == c.ebi)
      && Points(ix, id, o.ebi, o.localTeid) && HasBearer(ix, id, o.ebi)
      && var tft := ix.sessions[id].bearers[o.ebi].tft;
         Holds(ix, id, o.ebi, o.localTeid, c.pgwTeid, c.pgwIp, c.qci, tft) && Filters(c.tftRaw, tft)
  }

  /** An exact index stays exact while each context tries at most one TEID, and is spoilt for
      good once one does not. */
  ghost predicate Spoilt(before: Index, ix: Index, tries: seq<set<nat>>) {
    Inverse(before) ==> if forall k :: 0 <= k < |tries| ==> AtMostOne(tries[k]) then Inverse(ix) else Doubled(ix)
  }

  lemma SpoiltMeans(before: Index, ix: Index, tries: seq<set<nat>>)
    requires Spoilt(before, ix, tries)
    ensures Inverse(before) ==> (Inverse(ix) <==> forall k :: 0 <= k < |tries| ==> AtMostOne(tries[k]))
  {
    if Doubled(ix) { DoubledBreaks(ix); }
  }

  lemma SpoiltAfter(before: Index, ix: Index, ix': Index, id: SessionId, ebi: byte, tries: seq<set<nat>>, tried: set<nat>)
    requires Spoilt(before, ix, tries) && OnlyAdds(ix, ix', id, ebi)
    requires Inverse(ix) ==> (Inverse(ix') <==> AtMostOne(tried)) && (!AtMostOne(tried) ==> Doubled(ix'))
    ensures Spoilt(before, ix', tries + [tried])
  {
    var all := tries + [tried];
    assert forall k :: 0 <= k < |tries| ==> all[k] == tries[k];
    assert all[|tries|] == tried;
    if Doubled(ix) {
      DoubledBreaks(ix);
      var i, e, t, u :| t != u && Points(ix, i, e, t) && Points(ix, i, e, u);
      assert Points(ix', i, e, t) && Points(ix', i, e, u);
    }
  }

  /** An outcome stays true while later contexts add bearers under other EBIs. */
  lemma AnswersLater(before: Index, ix: Index, ix': Index, id: SessionId, defaultEbi: byte, ebi: byte, c: Context, o: Outcome)
    requires Answers(before, ix, id, defaultEbi, c, o)
    requires OnlyAdds(ix, ix', id, ebi) && (ix' != ix ==> !HasBearer(ix, id, ebi))
    ensures Answers(before, ix', id, defaultEbi, c, o)
  {}

  /** And so does one for what was there before. */
  lemma AnswersSince(before: Index, ix: Index, ix': Index, id: SessionId, defaultEbi: byte, c: Context, o: Outcome)
    requires Answers(ix, ix', id, defaultEbi, c, o) && Kept(before, ix, id)
    ensures Answers(before, ix', id, defaultEbi, c, o)
  {}

  lemma SoundAfter(before: Index, ix: Index, ix': Index, id: SessionId, defaultEbi: byte, ebi: byte,
                   cs: seq<Context>, os: seq<Outcome>, o: Outcome)
    requires Sound(before, ix, id, defaultEbi, cs, os) && |os| < |cs|
    requires OnlyAdds(ix, ix', id, ebi) && (ix' != ix ==> !HasBearer(ix, id, ebi))
    requires o.accepted ==> o.ebi == ebi && o.localTeid !in ix.byLocal && !HasBearer(ix, id, ebi)
    requires Answers(ix, ix', id, defaultEbi, cs[|os|], o)
    ensures Sound(before, ix', id, defaultEbi, cs, os + [o])
  {
    var os' := os + [o];
    forall i | 0 <= i < |os|
      ensures Answers(before, ix', id, defaultEbi, cs[i], os[i])
      ensures os[i].accepted ==> HasBearer(ix, id, os[i].ebi) && os[i].localTeid in ix.byLocal
    {
      assert Answers(before, ix, id, defaultEbi, cs[i], os[i]);
      AnswersLater(before, ix, ix', id, defaultEbi, ebi, cs[i], os[i]);
    }
    AnswersSince(before, ix, ix', id, defaultEbi, cs[|os|], o);
    assert forall i :: 0 <= i < |os| ==> os'[i] == os[i];
  }

  /** One context. */
  method AnswerOne(m: Manager, id: SessionId, defaultEbi: byte, c: Context, draws: nat -> nat, from: nat)
      returns (o: Outcome, next: nat, ghost ebi: byte, ghost tried: set<nat>)
    modifies m, m.kernel
    ensures OnlyAdds(old(m.Ix()), m.Ix(), id, ebi)
    ensures forall t :: t in tried ==> Points(m.Ix(), id, ebi, t) && t !in old(m.byLocal)
    ensures Inverse(old(m.Ix())) ==>
              (Inverse(m.Ix()) <==> AtMostOne(tried)) && (!AtMostOne(tried) ==> Doubled(m.Ix()))
    ensures m.Ix() != old(m.Ix()) ==> !HasBearer(old(m.Ix()), id, ebi)
    ensures o.accepted ==> o.ebi == ebi && o.localTeid !in old(m.byLocal) && !HasBearer(old(m.Ix()), id, ebi)
    ensures Answers(old(m.Ix()), m.Ix(), id, defaultEbi, c, o)
    ensures !Available(old(m.Ix()), id, defaultEbi, c) ==> !o.accepted && m.W() == old(m.W())
    ensures var d := draws(from);
            Available(old(m.Ix()), id, defaultEbi, c) && old(Installable(m, id, c.pgwTeid, d)) && m.Worked(old(m.kernel.calls)) ==>
              o.accepted && o.localTeid == d
  {
    next, ebi, tried := from, c.ebi, {};
    var dedicated := c.ebi;
    if c.unassigned || dedicated == 0 {
      var chosen := AllocateDedicatedEbi(m, id, defaultEbi);
      if chosen.None? { return Outcome(0, false, 64, 0, 0), next, ebi, tried; }
      dedicated := chosen.value;
    } else {
      var has := m.HasBearer(id, dedicated);
      if dedicated == defaultEbi || has { return Outcome(dedicated, false, 64, 0, 0), next, ebi, tried; }
    }
    ebi := dedicated;
    var tft := ParseTFT(c.tftRaw);
    var filters := if tft.Ok? then tft.value else Some([]);
    TftMeaning(c.tftRaw);
    var b := Bearer(dedicated, 0, c.pgwTeid, c.pgwIp, c.qci, filters);
    ghost var ix := m.Ix();
    var teid;
    teid, next := AllocateBearerTeid(m, id, b, draws, from);
    tried := Tried(ix, id, b, draws, from, next);
    AttemptedIs(ix, id, b, draws, from, next);
    TriedAreNew(ix, id, b, draws, from, next);
    if Inverse(ix) { AttemptsExactIff(ix, id, b, draws, from, next); }
    if teid.None? { return Outcome(dedicated, false, 64, 0, 0), next, ebi, tried; }
    o := Outcome(dedicated, true, 16, teid.value, c.pgwTeid);
  }

  /** The next context, after those that have their outcomes. */
  method AnswerNext(m: Manager, id: SessionId, defaultEbi: byte, cs: seq<Context>, os: seq<Outcome>, draws: nat -> nat,
                    from: nat, ghost before: Index, ghost tries: seq<set<nat>>)
      returns (o: Outcome, next: nat, ghost tried: set<nat>)
    requires Sound(before, m.Ix(), id, defaultEbi, cs, os) && Spoilt(before, m.Ix(), tries) && |os| < |cs|
    modifies m, m.kernel
    ensures Sound(before, m.Ix(), id, defaultEbi, cs, os + [o]) && Spoilt(before, m.Ix(), tries + [tried])
  {
    ghost var ebi;
    o, next, ebi, tried := AnswerOne(m, id, defaultEbi, cs[|os|], draws, from);
    SoundAfter(before, old(m.Ix()), m.Ix(), id, defaultEbi, ebi, cs, os, o);
    SpoiltAfter(before, old(m.Ix()), m.Ix(), id, ebi, tries, tried);
  }

  function FirstTeid(os: seq<Outcome>): nat {
    if os == [] then 0 else
    var front := FirstTeid(os[..|os| - 1]);
    if front == 0 && os[|os| - 1].accepted then os[|os| - 1].localTeid else front
  }

  /** The local TEID of the first accepted bearer, zero if there is none. */
  lemma {:induction false} FirstTeidIs(os: seq<Outcome>) returns (k: nat)
    ensures if k < |os| then os[k].accepted && os[k].localTeid != 0 && FirstTeid(os) == os[k].localTeid else FirstTeid(os) == 0
    ensures forall i :: 0 <= i < |os| && i < k ==> !os[i].accepted || os[i].localTeid == 0
  {
    k := 0;
    if os == [] {
    } else {
      var n, front := |os| - 1, os[..|os| - 1];
      var j := FirstTeidIs(front);
      assert forall i :: 0 <= i < n ==> front[i] == os[i];
      k := if j < n then j else if os[n].accepted && os[n].localTeid != 0 then n else |os|;
    }
  }

  /** The loop over the contexts of a found session: one outcome per context, in order. */
  method AnswerAll(m: Manager, found: Found, cs: seq<Context>, draws: nat -> nat)
      returns (r: Reply, ghost tries: seq<set<nat>>)
    modifies m, m.kernel
    ensures |tries| == |cs|
    ensures Inverse(old(m.Ix())) ==>
              (Inverse(m.Ix()) <==> forall i :: 0 <= i < |tries| ==> AtMostOne(tries[i]))
    ensures |r.bearers| == |cs| && Sound(old(m.Ix()), m.Ix(), found.id, found.defaultEbi, cs, r.bearers)
    ensures r.accepted <==> forall i :: 0 <= i < |cs| ==> r.bearers[i].accepted
    ensures r.cause == (if r.accepted then 16 else 64) && r.localTeid == FirstTeid(r.bearers)
    ensures r.pgwControl == found.pgwControl
  {
    var id, defaultEbi := found.id, found.defaultEbi;
    var accepted, cause: byte, first, next := true, 16, 0, 0;
    var os: seq<Outcome> := [];
    tries := [];
    ghost var before := m.Ix();
    for i := 0 to |cs|
      invariant |os| == i == |tries|
      invariant Spoilt(before, m.Ix(), tries)
      invariant Sound(before, m.Ix(), id, defaultEbi, cs, os)
      invariant accepted <==> forall k :: 0 <= k < i ==> os[k].accepted
      invariant cause == if accepted then 16 else 64
      invariant first == FirstTeid(os)
    {
      var o;
      ghost var tried;
      o, next, tried := AnswerNext(m, id, defaultEbi, cs, os, draws, next, before, tries);
      if !o.accepted { accepted, cause := false, 64; }
      else if first == 0 { first := o.localTeid; }
      ghost var was := os;
      os := os + [o];
      assert os[..i] == was && os[i] == o && forall k :: 0 <= k < i ==> os[k] == was[k];
      tries := tries + [tried];
    }
    SpoiltMeans(before, m.Ix(), tries);
    r := Reply(accepted, cause, first, os, found.pgwControl);
  }

  // ----------------------------------------------------------------- waiting

  /** The first attempt of `from`..`limit` that finds the session, else `limit`. */
  function FirstFound(lookup: nat -> Option<Found>, from: nat, limit: nat): (n: nat)
    requires from <= limit
    ensures from <= n <= limit && (n < limit ==> lookup(n).Some?)
    ensures forall k: nat :: from <= k < n ==> lookup(k).None?
    decreases limit - from
  {
    if from == limit || lookup(from).Some? then from else FirstFound(lookup, from + 1, limit)
  }

  /** Likewise for the default bearer. */
  function FirstInstalled(installed: nat -> bool, from: nat, limit: nat): (n: nat)
    requires from <= limit
    ensures from <= n <= limit && (n < limit ==> installed(n))
    ensures forall k: nat :: from <= k < n ==> !installed(k)
    decreases limit - from
  {
    if from == limit || installed(from) then from else FirstInstalled(installed, from + 1, limit)
  }

  /** No session after ten attempts, or the caller's patience, counted in waits, ends before the
      session or its default bearer is there. */
  predicate GivesUp(lookup: nat -> Option<Found>, installed: nat -> bool, patience: nat) {
    var k := FirstFound(lookup, 0, 10);
    k == 10 || k > patience
    || (lookup(k).value.defaultEbi != 0 && k + FirstInstalled(installed, 0, 20) > patience)
  }

  /** handlePGWCreateBearer. What the attempts of the two waiting loops find is decided by the
      attach that runs beside it; a default bearer that does not come is not waited for longer
      than twenty attempts, and the contexts are answered then as well. */
  method HandlePgwCreateBearer(m: Manager, lookup: nat -> Option<Found>, installed: nat -> bool, patience: nat,
                               contexts: seq<Context>, single: Context, draws: nat -> nat)
      returns (r: Reply)
    modifies m, m.kernel
    ensures GivesUp(lookup, installed, patience) ==> r == REFUSED && m.W() == old(m.W())
    ensures !GivesUp(lookup, installed, patience) ==>
              var found := lookup(FirstFound(lookup, 0, 10)).value;
              var cs := if contexts == [] then [single] else contexts;
              && |r.bearers| == |cs|
              && Sound(old(m.Ix()), m.Ix(), found.id, found.defaultEbi, cs, r.bearers)
              && (r.accepted <==> forall i :: 0 <= i < |cs| ==> r.bearers[i].accepted)
              && r.cause == (if r.accepted then 16 else 64)
              && r.localTeid == FirstTeid(r.bearers) && r.pgwControl == found.pgwControl
  {
    var sess, waits, attempt := None, 0, 0;
    while attempt < 10
      invariant 0 <= attempt <= 10 && waits == attempt <= patience && sess.None?
      invariant FirstFound(lookup, 0, 10) == FirstFound(lookup, attempt, 10)
    {
      sess := lookup(attempt);
      if sess.Some? { break; }
      if waits == patience { return REFUSED; }
      waits, attempt := waits + 1, attempt + 1;
    }
    if sess.None? { return REFUSED; }
    if sess.value.defaultEbi != 0 {
      attempt := 0;
      ghost var before := waits;
      while attempt < 20
        invariant 0 <= attempt <= 20 && waits == before + attempt <= patience
        invariant FirstInstalled(installed, 0, 20) == FirstInstalled(installed, attempt, 20)
      {
        if installed(attempt) { break; }
        if waits == patience { return REFUSED; }
        waits, attempt := waits + 1, attempt + 1;
      }
    }
    var cs := contexts;
    if |cs| == 0 { cs := [single]; }
    ghost var tries;
    r, tries := AnswerAll(m, sess.value, cs, draws);
  }
}
