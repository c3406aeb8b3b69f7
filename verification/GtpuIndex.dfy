/** The GTP-U manager's view of its sessions: sessions hold bearers, and three indexes plus the
    kernel's teid_map must agree with that view over every run. */
module GtpuIndex {
  import opened Octets
  import opened Tft
  import opened TcTable

  type SessionId = string

  /** A user-plane address as signalled: absent, not IPv4, or IPv4. */
  datatype Addr = NoAddr | OtherFamily | V4(ip: Ip4)

  datatype Bearer = Bearer(
    ebi: byte, local: nat, remote: nat, pgw: Addr, qci: byte, tft: Option<seq<PacketFilter>>)

  datatype Session = Session(paa: Ip4, pgw: Ip4, defaultEbi: byte, bearers: map<byte, Bearer>)

  datatype Ref = Ref(id: SessionId, ebi: byte)

  datatype Index = Index(
    sessions: map<SessionId, Session>,
    byPaa: map<Ip4, SessionId>,
    byLocal: map<nat, Ref>,
    byRemote: map<nat, Ref>)

  const Empty := Index(map[], map[], map[], map[])

  function Locals(s: Session): set<nat> {
    set e | e in s.bearers :: s.bearers[e].local
  }

  function Remotes(s: Session): set<nat> {
    set e | e in s.bearers :: s.bearers[e].remote
  }

  // -------------------------------------------------------------- operations

  /** AddSession's bookkeeping once the local TEID is known to be unused. */
  function InsertSession(ix: Index, id: SessionId, paa: Ip4, pgw: Ip4, b: Bearer): Index {
    Index(ix.sessions[id := Session(paa, pgw, b.ebi, map[b.ebi := b])],
          ix.byPaa[paa := id],
          ix.byLocal[b.local := Ref(id, b.ebi)],
          ix.byRemote[b.remote := Ref(id, b.ebi)])
  }

  function DropSession(ix: Index, id: SessionId): Index {
    if id !in ix.sessions then ix else
    var s := ix.sessions[id];
    Index(ix.sessions - {id}, ix.byPaa - {s.paa}, ix.byLocal - Locals(s), ix.byRemote - Remotes(s))
  }

  /** removeSessionState: the undo of InsertSession. */
  function UndoInsert(ix: Index, id: SessionId, paa: Ip4): Index {
    var ix' := if id !in ix.sessions then ix else
      var s := ix.sessions[id];
      Index(ix.sessions - {id}, ix.byPaa, ix.byLocal - Locals(s), ix.byRemote - Remotes(s));
    ix'.(byPaa := ix'.byPaa - {paa})
  }

  predicate Acceptable(ix: Index, id: SessionId, b: Bearer) {
    && b.local != 0 && b.remote != 0 && b.ebi != 0
    && id in ix.sessions && b.local !in ix.byLocal
  }

  function Filled(s: Session, b: Bearer): Bearer {
    if b.pgw == NoAddr then b.(pgw := V4(s.pgw)) else b
  }

  function InsertBearer(ix: Index, id: SessionId, b: Bearer): Index {
    if !Acceptable(ix, id, b) then ix else
    var s := ix.sessions[id];
    ix.(sessions := ix.sessions[id := s.(bearers := s.bearers[b.ebi := Filled(s, b)])],
        byLocal := ix.byLocal[b.local := Ref(id, b.ebi)],
        byRemote := ix.byRemote[b.remote := Ref(id, b.ebi)])
  }

  predicate HasBearer(ix: Index, id: SessionId, ebi: byte) {
    id in ix.sessions && ebi in ix.sessions[id].bearers
  }

  function DropBearer(ix: Index, id: SessionId, ebi: byte): Index {
    if !HasBearer(ix, id, ebi) then ix else
    var s := ix.sessions[id];
    var b := s.bearers[ebi];
    ix.(sessions := ix.sessions[id := s.(bearers := s.bearers - {ebi})],
        byLocal := ix.byLocal - {b.local},
        byRemote := ix.byRemote - {b.remote})
  }

  /** UpdateBearer: a zero QCI and a TFT that is empty, malformed or of unknown operation leave
      what the bearer has. */
  function Updated(b: Bearer, qci: byte, raw: Bytes): Bearer {
    var b' := if qci != 0 then b.(qci := qci) else b;
    if raw == [] then b' else
    match ParseTft(raw)
    case Ok(Some(fs)) => b'.(tft := Some(fs))
    case _ => b'
  }

  function ChangeBearer(ix: Index, id: SessionId, ebi: byte, qci: byte, raw: Bytes): Index {
    if !HasBearer(ix, id, ebi) then ix else
    var s := ix.sessions[id];
    ix.(sessions := ix.sessions[id := s.(bearers := s.bearers[ebi := Updated(s.bearers[ebi], qci, raw)])])
  }

  // ------------------------------------------------------------------- runs

  /** The index together with teid_map. */
  datatype State = State(ix: Index, teids: map<nat, TeidEntry>)

  /** One manager call. `wrote` says whether its teid_map call succeeded; `installed` whether
      every later install step of AddSession did, otherwise the undo stack has run. */
  datatype Event =
    | AddSession(id: SessionId, paa: Ip4, pgw: Ip4, bearer: Bearer, installed: bool)
    | RemoveSession(id: SessionId, wrote: bool)
    | AddBearer(id: SessionId, bearer: Bearer, wrote: bool)
    | RemoveBearer(id: SessionId, ebi: byte, wrote: bool)
    | UpdateBearer(id: SessionId, ebi: byte, qci: byte, raw: Bytes)

  function Step(st: State, e: Event): State {
    match e
    case AddSession(id, paa, pgw, b, installed) =>
      if b.local in st.ix.byLocal then st
      else
        var ix := InsertSession(st.ix, id, paa, pgw, b);
        if installed then State(ix, st.teids[b.local := TeidEntry(paa, pgw)])
        else State(UndoInsert(ix, id, paa), st.teids)
    case RemoveSession(id, wrote) =>
      State(DropSession(st.ix, id),
            if id in st.ix.sessions && wrote then st.teids - Locals(st.ix.sessions[id]) else st.teids)
    case AddBearer(id, b, wrote) =>
      State(InsertBearer(st.ix, id, b),
            if !Acceptable(st.ix, id, b) || !wrote then st.teids else
            var s := st.ix.sessions[id];
            var pgw := Filled(s, b).pgw;
            if pgw.V4? then st.teids[b.local := TeidEntry(s.paa, pgw.ip)] else st.teids)
    case RemoveBearer(id, ebi, wrote) =>
      State(DropBearer(st.ix, id, ebi),
            if HasBearer(st.ix, id, ebi) && wrote then st.teids - {st.ix.sessions[id].bearers[ebi].local} else st.teids)
    case UpdateBearer(id, ebi, qci, raw) =>
      st.(ix := ChangeBearer(st.ix, id, ebi, qci, raw))
  }

  function Run(st: State, es: seq<Event>): State {
    if es == [] then st else Step(Run(st, es[..|es| - 1]), es[|es| - 1])
  }

  /** Session ids are new and bearers go to free EBIs. */
  predicate Free(st: State, e: Event) {
    match e
    case AddSession(id, _, _, _, _) => id !in st.ix.sessions
    case AddBearer(id, b, _) => Acceptable(st.ix, id, b) ==> !HasBearer(st.ix, id, b.ebi)
    case _ => true
  }

  /** The step's teid_map call wrote the PGW address that its bearer has. */
  predicate Wrote(st: State, e: Event) {
    match e
    case AddSession(_, _, pgw, b, _) => b.pgw == V4(pgw)
    case RemoveSession(_, wrote) => wrote
    case AddBearer(id, b, wrote) => wrote && (id in st.ix.sessions ==> Filled(st.ix.sessions[id], b).pgw.V4?)
    case RemoveBearer(_, _, wrote) => wrote
    case _ => true
  }

  ghost predicate FreeRun(st: State, es: seq<Event>) {
    forall i :: 0 <= i < |es| ==> Free(Run(st, es[..i]), es[i])
  }

  ghost predicate WroteRun(st: State, es: seq<Event>) {
    forall i :: 0 <= i < |es| ==> Wrote(Run(st, es[..i]), es[i])
  }

  // -------------------------------------------------------------- agreement

  /** Bearer `ebi` of session `id` receives on `local`. */
  predicate Receives(ix: Index, id: SessionId, ebi: byte, local: nat) {
    HasBearer(ix, id, ebi) && ix.sessions[id].bearers[ebi].local == local
  }

  predicate Points(ix: Index, id: SessionId, ebi: byte, local: nat) {
    local in ix.byLocal && ix.byLocal[local] == Ref(id, ebi)
  }

  /** The local-TEID index is exactly the inverse of "sessions contain bearers". */
  ghost predicate Inverse(ix: Index) {
    forall id, ebi, local :: Points(ix, id, ebi, local) <==> Receives(ix, id, ebi, local)
  }

  /** teid_map has the same TEIDs, each leading to its session's UE address and to its bearer's
      PGW address. */
  ghost predicate Mirrors(st: State) {
    forall t :: (t in st.teids <==> t in st.ix.byLocal)
      && (t in st.teids ==>
          var r := st.ix.byLocal[t];
          && HasBearer(st.ix, r.id, r.ebi)
          && st.teids[t].paa == st.ix.sessions[r.id].paa
          && st.ix.sessions[r.id].bearers[r.ebi].pgw == V4(st.teids[t].pgw))
  }

  lemma Owner(ix: Index, t: nat)
    requires Inverse(ix) && t in ix.byLocal
    ensures Receives(ix, ix.byLocal[t].id, ix.byLocal[t].ebi, t)
  {
    assert Points(ix, ix.byLocal[t].id, ix.byLocal[t].ebi, t);
  }

  /** No TEID is received on by two bearers. */
  lemma Exclusive(ix: Index, id: SessionId, ebi: byte, id': SessionId, ebi': byte, local: nat)
    requires Inverse(ix) && Receives(ix, id, ebi, local) && Receives(ix, id', ebi', local)
    ensures id == id' && ebi == ebi'
  {
    assert Points(ix, id, ebi, local) && Points(ix, id', ebi', local);
  }

  lemma InsertSessionInverse(ix: Index, id: SessionId, paa: Ip4, pgw: Ip4, b: Bearer)
    requires Inverse(ix) && b.local !in ix.byLocal && id !in ix.sessions
    ensures Inverse(InsertSession(ix, id, paa, pgw, b))
  {
    var ix' := InsertSession(ix, id, paa, pgw, b);
    forall id2, e, t
      ensures Points(ix', id2, e, t) <==> Receives(ix', id2, e, t)
    {
      assert Points(ix, id2, e, t) <==> Receives(ix, id2, e, t);
    }
  }

  lemma UndoIsInverse(ix: Index, id: SessionId, paa: Ip4, pgw: Ip4, b: Bearer)
    requires Inverse(ix) && b.local !in ix.byLocal && id !in ix.sessions
    ensures Inverse(UndoInsert(InsertSession(ix, id, paa, pgw, b), id, paa))
    ensures UndoInsert(InsertSession(ix, id, paa, pgw, b), id, paa).sessions == ix.sessions
    ensures UndoInsert(InsertSession(ix, id, paa, pgw, b), id, paa).byLocal == ix.byLocal
  {
    var ix' := UndoInsert(InsertSession(ix, id, paa, pgw, b), id, paa);
    var s := InsertSession(ix, id, paa, pgw, b).sessions[id];
    assert s.bearers[b.ebi] == b;
    assert Locals(s) == {b.local};
    assert ix'.sessions == ix.sessions && ix'.byLocal == ix.byLocal;
    forall id2, e, t
      ensures Points(ix', id2, e, t) <==> Receives(ix', id2, e, t)
    {
      assert Points(ix, id2, e, t) <==> Receives(ix, id2, e, t);
    }
  }

  lemma DropSessionInverse(ix: Index, id: SessionId)
    requires Inverse(ix)
    ensures Inverse(DropSession(ix, id))
  {
    var ix' := DropSession(ix, id);
    if id in ix.sessions {
      forall id2, e, t
        ensures Points(ix', id2, e, t) <==> Receives(ix', id2, e, t)
      {
        assert Points(ix, id2, e, t) <==> Receives(ix, id2, e, t);
        if t in Locals(ix.sessions[id]) {
          var e' :| e' in ix.sessions[id].bearers && ix.sessions[id].bearers[e'].local == t;
          assert Receives(ix, id, e', t);
          assert Points(ix, id, e', t);
        }
      }
    }
  }

  lemma InsertBearerInverse(ix: Index, id: SessionId, b: Bearer)
    requires Inverse(ix) && (Acceptable(ix, id, b) ==> !HasBearer(ix, id, b.ebi))
    ensures Inverse(InsertBearer(ix, id, b))
  {
    var ix' := InsertBearer(ix, id, b);
    forall id2, e, t
      ensures Points(ix', id2, e, t) <==> Receives(ix', id2, e, t)
    {
      assert Points(ix, id2, e, t) <==> Receives(ix, id2, e, t);
    }
  }

  /** An accepted bearer keeps the inverse exactly when its EBI was free: overwriting a bearer
      leaves that bearer's TEID in the index. */
  lemma InsertBearerIff(ix: Index, id: SessionId, b: Bearer)
    requires Inverse(ix) && Acceptable(ix, id, b)
    ensures Inverse(InsertBearer(ix, id, b)) <==> !HasBearer(ix, id, b.ebi)
  {
    if HasBearer(ix, id, b.ebi) {
      var ix' := InsertBearer(ix, id, b);
      var t := ix.sessions[id].bearers[b.ebi].local;
      assert Receives(ix, id, b.ebi, t);
      assert Points(ix, id, b.ebi, t);
      assert Points(ix', id, b.ebi, t) && !Receives(ix', id, b.ebi, t);
    } else {
      InsertBearerInverse(ix, id, b);
    }
  }

  /** Dropping a bearer undoes its insertion, whose TEIDs both lead to it. */
  lemma DropUndoesInsert(ix: Index, id: SessionId, b: Bearer)
    requires Acceptable(ix, id, b) && !HasBearer(ix, id, b.ebi) && b.remote !in ix.byRemote
    ensures var ix' := InsertBearer(ix, id, b);
            && b.remote in ix'.byRemote && ix'.byRemote[b.remote] == Ref(id, b.ebi)
            && b.local in ix'.byLocal && ix'.byLocal[b.local] == Ref(id, b.ebi)
            && DropBearer(ix', id, b.ebi) == ix
  {
    var ix', s := InsertBearer(ix, id, b), ix.sessions[id];
    var s' := ix'.sessions[id];
    assert s'.bearers - {b.ebi} == s.bearers;
    assert s == s'.(bearers := s'.bearers - {b.ebi});
    assert ix'.sessions[id := s] == ix.sessions;
    assert ix'.byLocal - {b.local} == ix.byLocal && ix'.byRemote - {b.remote} == ix.byRemote;
  }

  /** Likewise for a session id in use, unless that session has lost all its bearers. */
  lemma InsertSessionIff(ix: Index, id: SessionId, paa: Ip4, pgw: Ip4, b: Bearer)
    requires Inverse(ix) && b.local !in ix.byLocal
    ensures Inverse(InsertSession(ix, id, paa, pgw, b)) <==> (id in ix.sessions ==> ix.sessions[id].bearers == map[])
  {
    var ix' := InsertSession(ix, id, paa, pgw, b);
    if id !in ix.sessions {
      InsertSessionInverse(ix, id, paa, pgw, b);
    } else if e :| e in ix.sessions[id].bearers {
      var t := ix.sessions[id].bearers[e].local;
      assert Receives(ix, id, e, t);
      assert Points(ix, id, e, t);
      assert Points(ix', id, e, t) && !Receives(ix', id, e, t);
    } else {
      assert ix.sessions[id].bearers == map[];
      forall id2, e, t
        ensures Points(ix', id2, e, t) <==> Receives(ix', id2, e, t)
      {
        assert Points(ix, id2, e, t) <==> Receives(ix, id2, e, t);
      }
    }
  }

  lemma DropBearerInverse(ix: Index, id: SessionId, ebi: byte)
    requires Inverse(ix)
    ensures Inverse(DropBearer(ix, id, ebi))
  {
    var ix' := DropBearer(ix, id, ebi);
    forall id2, e, t
      ensures Points(ix', id2, e, t) <==> Receives(ix', id2, e, t)
    {
      assert Points(ix, id2, e, t) <==> Receives(ix, id2, e, t);
      if HasBearer(ix, id, ebi) {
        assert Receives(ix, id, ebi, ix.sessions[id].bearers[ebi].local);
        assert Points(ix, id, ebi, ix.sessions[id].bearers[ebi].local);
      }
    }
  }

  /** What an update with the octets `raw` makes of a bearer's filters: those that the octets
      carry, none for operations 2, 5 and 6, and otherwise the ones it had. */
  ghost predicate Refiltered(raw: Bytes, was: Option<seq<PacketFilter>>, now: Option<seq<PacketFilter>>) {
    && (raw == [] ==> now == was)
    && (raw != [] && (raw[0] / 32 == 0 || raw[0] / 32 == 7) ==> now == was)
    && (raw != [] && (raw[0] / 32 == 2 || raw[0] / 32 == 5 || raw[0] / 32 == 6) ==> now == Some([]))
    && (forall fs :: CarriesTft(raw, fs) ==> now == Some(fs))
    && (forall fs, bad :: BadTft(raw, fs, bad) ==> now == was)
  }

  /** An update replaces the QCI by one that is not zero and the filters as the octets say,
      and changes nothing else of the bearer. */
  lemma UpdatedMeaning(b: Bearer, qci: byte, raw: Bytes)
    ensures var b' := Updated(b, qci, raw);
            && b' == b.(qci := if qci == 0 then b.qci else qci, tft := b'.tft) && Refiltered(raw, b.tft, b'.tft)
  {
    TftMeaning(raw);
  }

  lemma UpdatedKeepsTeids(b: Bearer, qci: byte, raw: Bytes)
    ensures Updated(b, qci, raw).local == b.local && Updated(b, qci, raw).remote == b.remote
    ensures Updated(b, qci, raw).ebi == b.ebi && Updated(b, qci, raw).pgw == b.pgw
  {}

  lemma ChangeBearerInverse(ix: Index, id: SessionId, ebi: byte, qci: byte, raw: Bytes)
    requires Inverse(ix)
    ensures Inverse(ChangeBearer(ix, id, ebi, qci, raw))
  {
    var ix' := ChangeBearer(ix, id, ebi, qci, raw);
    if HasBearer(ix, id, ebi) {
      UpdatedKeepsTeids(ix.sessions[id].bearers[ebi], qci, raw);
    }
    forall id2, e, t
      ensures Points(ix', id2, e, t) <==> Receives(ix', id2, e, t)
    {
      assert Points(ix, id2, e, t) <==> Receives(ix, id2, e, t);
    }
  }

  lemma StepInverse(st: State, e: Event)
    requires Inverse(st.ix) && Free(st, e)
    ensures Inverse(Step(st, e).ix)
  {
    match e
    case AddSession(id, paa, pgw, b, installed) =>
      if b.local !in st.ix.byLocal {
        InsertSessionInverse(st.ix, id, paa, pgw, b);
        UndoIsInverse(st.ix, id, paa, pgw, b);
      }
    case RemoveSession(id, _) => DropSessionInverse(st.ix, id);
    case AddBearer(id, b, _) => InsertBearerInverse(st.ix, id, b);
    case RemoveBearer(id, ebi, _) => DropBearerInverse(st.ix, id, ebi);
    case UpdateBearer(id, ebi, qci, raw) => ChangeBearerInverse(st.ix, id, ebi, qci, raw);
  }

  /** The local-TEID index is the exact inverse after every run, whatever the kernel answered. */
  lemma {:induction false} RunInverse(st: State, es: seq<Event>)
    requires Inverse(st.ix) && FreeRun(st, es)
    ensures Inverse(Run(st, es).ix)
  {
    if es == [] {
    } else {
      var front := es[..|es| - 1];
      assert forall i :: 0 <= i < |front| ==> front[..i] == es[..i] && front[i] == es[i];
      assert es[..|es| - 1] == front;
      RunInverse(st, front);
      StepInverse(Run(st, front), es[|es| - 1]);
    }
  }

  // --------------------------------------------------------------- teid_map

  lemma AddSessionMirrors(st: State, e: Event)
    requires e.AddSession? && Inverse(st.ix) && Mirrors(st) && Free(st, e) && Wrote(st, e)
    ensures Mirrors(Step(st, e))
  {
    var b := e.bearer;
    if b.local !in st.ix.byLocal {
      UndoIsInverse(st.ix, e.id, e.paa, e.pgw, b);
      forall t | t in st.ix.byLocal
        ensures st.ix.byLocal[t].id in st.ix.sessions && st.ix.byLocal[t].id != e.id
      {
        Owner(st.ix, t);
      }
    }
  }

  lemma RemoveSessionMirrors(st: State, e: Event)
    requires e.RemoveSession? && Inverse(st.ix) && Mirrors(st) && Wrote(st, e)
    ensures Mirrors(Step(st, e))
  {
    if e.id in st.ix.sessions {
      forall t | t in st.ix.byLocal && t !in Locals(st.ix.sessions[e.id])
        ensures st.ix.byLocal[t].id != e.id
      {
        Owner(st.ix, t);
      }
    }
  }

  lemma RemoveBearerMirrors(st: State, e: Event)
    requires e.RemoveBearer? && Inverse(st.ix) && Mirrors(st) && Wrote(st, e)
    ensures Mirrors(Step(st, e))
  {
    if HasBearer(st.ix, e.id, e.ebi) {
      forall t | t in st.ix.byLocal && t != st.ix.sessions[e.id].bearers[e.ebi].local
        ensures st.ix.byLocal[t] != Ref(e.id, e.ebi)
      {
        Owner(st.ix, t);
      }
    }
  }

  lemma StepMirrors(st: State, e: Event)
    requires Inverse(st.ix) && Mirrors(st) && Free(st, e) && Wrote(st, e)
    ensures Mirrors(Step(st, e))
  {
    match e
    case AddSession(_, _, _, _, _) => AddSessionMirrors(st, e);
    case RemoveSession(_, _) => RemoveSessionMirrors(st, e);
    case AddBearer(_, _, _) =>
    case RemoveBearer(_, _, _) => RemoveBearerMirrors(st, e);
    case UpdateBearer(_, _, _, _) =>
  }

  /** When the teid_map calls succeed, teid_map agrees with the view as well. */
  lemma {:induction false} RunAgrees(st: State, es: seq<Event>)
    requires Inverse(st.ix) && Mirrors(st) && FreeRun(st, es) && WroteRun(st, es)
    ensures Inverse(Run(st, es).ix) && Mirrors(Run(st, es))
  {
    if es == [] {
    } else {
      var front := es[..|es| - 1];
      assert forall i :: 0 <= i < |front| ==> front[..i] == es[..i] && front[i] == es[i];
      assert es[..|es| - 1] == front;
      RunAgrees(st, front);
      StepInverse(Run(st, front), es[|es| - 1]);
      StepMirrors(Run(st, front), es[|es| - 1]);
    }
  }

  lemma EmptyAgrees()
    ensures Inverse(Empty) && Mirrors(State(Empty, map[]))
  {}

  // ------------------------------------------------------- failing sides, as runs

  const Start := State(Empty, map[])

  /** A dedicated bearer added again under another TEID, as the TEID retry loop does after a
      failed rule sync: from the empty manager, three calls break the inverse. */
  lemma BusyEbiBreaks(id: SessionId, paa: Ip4, pgw: Ip4, b: Bearer, d: Bearer, local: nat)
    requires d.ebi != b.ebi && d.local != b.local && d.local != 0 && d.remote != 0 && d.ebi != 0
    requires local != 0 && local != b.local && local != d.local
    ensures var es := [AddSession(id, paa, pgw, b, true), AddBearer(id, d, true), AddBearer(id, d.(local := local), true)];
            Inverse(Run(Start, es[..2]).ix) && !Inverse(Run(Start, es).ix)
  {
    var es := [AddSession(id, paa, pgw, b, true), AddBearer(id, d, true), AddBearer(id, d.(local := local), true)];
    assert es[..2][..1] == [es[0]] && es[..3] == es && es[..2] == [es[0], es[1]];
    var s1 := FirstSession(id, paa, pgw, b, es[..2]);
    var s2 := Step(s1, es[1]);
    InsertBearerIff(s1.ix, id, d);
    InsertBearerIff(s2.ix, id, d.(local := local));
  }

  /** A session id that comes twice: likewise. */
  lemma RepeatedIdBreaks(id: SessionId, paa: Ip4, pgw: Ip4, b: Bearer, b2: Bearer)
    requires b2.local != b.local
    ensures var es := [AddSession(id, paa, pgw, b, true), AddSession(id, paa, pgw, b2, true)];
            Inverse(Run(Start, es[..1]).ix) && !Inverse(Run(Start, es).ix)
  {
    var es := [AddSession(id, paa, pgw, b, true), AddSession(id, paa, pgw, b2, true)];
    var s1 := FirstSession(id, paa, pgw, b, es);
    assert b.ebi in s1.ix.sessions[id].bearers;
    InsertSessionIff(s1.ix, id, paa, pgw, b2);
  }

  lemma FirstSession(id: SessionId, paa: Ip4, pgw: Ip4, b: Bearer, es: seq<Event>) returns (s1: State)
    requires |es| == 2 && es[0] == AddSession(id, paa, pgw, b, true)
    ensures s1 == Step(Start, es[0]) && s1 == Run(Start, es[..1]) && Run(Start, es) == Step(s1, es[1])
    ensures s1.ix == InsertSession(Empty, id, paa, pgw, b) && Inverse(s1.ix)
  {
    s1 := Step(Start, es[0]);
    assert es[..1] == [es[0]] && es[..1][..0] == [];
    assert Run(Start, es[..1][..0]) == Start;
    InsertSessionInverse(Empty, id, paa, pgw, b);
  }

  // --------------------------------------------- addresses and ue_session_map

  predicate Serves(ix: Index, paa: Ip4, id: SessionId) {
    paa in ix.byPaa && ix.byPaa[paa] == id
  }

  predicate Addressed(ix: Index, paa: Ip4, id: SessionId) {
    id in ix.sessions && ix.sessions[id].paa == paa
  }

  /** The address index is exactly the inverse of "sessions have addresses". */
  ghost predicate PaaInverse(ix: Index) {
    forall paa, id :: Serves(ix, paa, id) <==> Addressed(ix, paa, id)
  }

  /** A new session keeps the inverse exactly when it shares its address with no other session
      and its id was not in use with another address. */
  lemma InsertPaaIff(ix: Index, id: SessionId, paa: Ip4, pgw: Ip4, b: Bearer)
    requires PaaInverse(ix)
    ensures PaaInverse(InsertSession(ix, id, paa, pgw, b))
            <==> (paa in ix.byPaa ==> ix.byPaa[paa] == id) && (id in ix.sessions ==> ix.sessions[id].paa == paa)
  {
    var ix' := InsertSession(ix, id, paa, pgw, b);
    if paa in ix.byPaa && ix.byPaa[paa] != id {
      assert Serves(ix, paa, ix.byPaa[paa]);
      assert Addressed(ix', paa, ix.byPaa[paa]) && !Serves(ix', paa, ix.byPaa[paa]);
    } else if id in ix.sessions && ix.sessions[id].paa != paa {
      assert Addressed(ix, ix.sessions[id].paa, id);
      assert Serves(ix', ix.sessions[id].paa, id) && !Addressed(ix', ix.sessions[id].paa, id);
    } else {
      forall p, i ensures Serves(ix', p, i) <==> Addressed(ix', p, i) {
        assert Serves(ix, p, i) <==> Addressed(ix, p, i);
      }
    }
  }

  /** Sessions have ids and addresses of their own, and keep their default bearer. */
  predicate Proper(st: State, e: Event) {
    match e
    case AddSession(id, paa, _, b, _) => id !in st.ix.sessions && (b.local !in st.ix.byLocal ==> paa !in st.ix.byPaa)
    case RemoveBearer(id, ebi, _) => id in st.ix.sessions ==> ebi != st.ix.sessions[id].defaultEbi
    case _ => Free(st, e)
  }

  ghost predicate ProperRun(st: State, es: seq<Event>) {
    forall i :: 0 <= i < |es| ==> Proper(Run(st, es[..i]), es[i])
  }

  lemma StepPaaInverse(st: State, e: Event)
    requires PaaInverse(st.ix) && Proper(st, e)
    ensures PaaInverse(Step(st, e).ix)
  {
    var ix, ix' := st.ix, Step(st, e).ix;
    if e.AddSession? && e.bearer.local !in ix.byLocal {
      InsertPaaIff(ix, e.id, e.paa, e.pgw, e.bearer);
    }
    forall p, i ensures Serves(ix', p, i) <==> Addressed(ix', p, i) {
      assert Serves(ix, p, i) <==> Addressed(ix, p, i);
      if e.RemoveSession? && e.id in ix.sessions {
        assert Serves(ix, ix.sessions[e.id].paa, e.id) <==> Addressed(ix, ix.sessions[e.id].paa, e.id);
      }
    }
  }

  /** ue_session_map as far as the manager decides it: each UE address and its default TEID. */
  function UeStep(ue: map<Ip4, nat>, st: State, e: Event): map<Ip4, nat> {
    match e
    case AddSession(_, paa, _, b, installed) =>
      if b.local !in st.ix.byLocal && installed then ue[paa := b.remote] else ue
    case RemoveSession(id, wrote) =>
      if id in st.ix.sessions && wrote then ue - {st.ix.sessions[id].paa} else ue
    case _ => ue
  }

  function UeRun(st: State, es: seq<Event>): map<Ip4, nat> {
    if es == [] then map[] else
    UeStep(UeRun(st, es[..|es| - 1]), Run(st, es[..|es| - 1]), es[|es| - 1])
  }

  predicate OnDefault(s: Session, teid: nat) {
    s.defaultEbi in s.bearers && s.bearers[s.defaultEbi].remote == teid
  }

  /** ue_session_map has the same addresses, each with its session's default TEID. */
  ghost predicate UeMirrors(ue: map<Ip4, nat>, ix: Index) {
    forall paa :: (paa in ue <==> paa in ix.byPaa)
      && (paa in ue ==> ix.byPaa[paa] in ix.sessions && OnDefault(ix.sessions[ix.byPaa[paa]], ue[paa]))
  }

  lemma StepUeMirrors(ue: map<Ip4, nat>, st: State, e: Event)
    requires PaaInverse(st.ix) && UeMirrors(ue, st.ix) && Proper(st, e) && Wrote(st, e)
    ensures UeMirrors(UeStep(ue, st, e), Step(st, e).ix)
  {
    var ix, ix' := st.ix, Step(st, e).ix;
    var ue' := UeStep(ue, st, e);
    forall paa
      ensures paa in ue' <==> paa in ix'.byPaa
      ensures paa in ue' ==> ix'.byPaa[paa] in ix'.sessions && OnDefault(ix'.sessions[ix'.byPaa[paa]], ue'[paa])
    {
      if paa in ix.byPaa {
        assert Serves(ix, paa, ix.byPaa[paa]);
        assert Addressed(ix, paa, ix.byPaa[paa]);
        if e.UpdateBearer? && HasBearer(ix, e.id, e.ebi) {
          UpdatedKeepsTeids(ix.sessions[e.id].bearers[e.ebi], e.qci, e.raw);
        }
      }
    }
  }

  /** Over every run from the empty manager in which sessions have ids and addresses of their
      own, the address index and ue_session_map both agree with the sessions. */
  lemma {:induction false} RunAddresses(es: seq<Event>)
    requires ProperRun(Start, es)
    ensures PaaInverse(Run(Start, es).ix)
    ensures WroteRun(Start, es) ==> UeMirrors(UeRun(Start, es), Run(Start, es).ix)
  {
    if es == [] {
    } else {
      var front := es[..|es| - 1];
      assert forall i :: 0 <= i < |front| ==> front[..i] == es[..i] && front[i] == es[i];
      assert es[..|es| - 1] == front;
      RunAddresses(front);
      StepPaaInverse(Run(Start, front), es[|es| - 1]);
      if WroteRun(Start, es) {
        StepUeMirrors(UeRun(Start, front), Run(Start, front), es[|es| - 1]);
      }
    }
  }

  /** Two sessions with one address: the index then serves only the second. */
  lemma SharedPaaBreaks(id: SessionId, id2: SessionId, paa: Ip4, pgw: Ip4, b: Bearer, b2: Bearer)
    requires id != id2 && b.local != b2.local
    ensures var es := [AddSession(id, paa, pgw, b, true), AddSession(id2, paa, pgw, b2, true)];
            PaaInverse(Run(Start, es[..1]).ix) && !PaaInverse(Run(Start, es).ix)
  {
    var es := [AddSession(id, paa, pgw, b, true), AddSession(id2, paa, pgw, b2, true)];
    var s1 := FirstSession(id, paa, pgw, b, es);
    InsertPaaIff(Empty, id, paa, pgw, b);
    InsertPaaIff(s1.ix, id2, paa, pgw, b2);
  }
}
