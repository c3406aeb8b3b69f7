/** The GTP-U manager: sessions and bearers in memory, their kernel state, and the undo stack
    that makes a session install all-or-nothing. */
module GtpuManager {
  import opened Octets
  import opened Tft
  import TcRules
  import opened TcTable
  import opened GtpuIndex

  datatype Undo =
    | RemoveState(id: SessionId, paa: Ip4)
    | RemoveTeid(teid: nat)
    | RemoveUe(paa: Ip4)
    | RemoveRoute(paa: Ip4)

  /** Everything a session install touches. */
  datatype World = World(ix: Index, teids: map<nat, TeidEntry>, maps: Maps, routes: set<Ip4>)

  function Undone(w: World, a: Undo): World {
    match a
    case RemoveState(id, paa) => w.(ix := UndoInsert(w.ix, id, paa))
    case RemoveTeid(teid) => w.(teids := w.teids - {teid})
    case RemoveUe(paa) => w.(maps := Maps(w.maps.ue - {paa}, Cleared(w.maps.rules, paa)))
    case RemoveRoute(paa) => w.(routes := w.routes - {paa})
  }

  /** The stack undone from its top. */
  function UndoneAll(w: World, actions: seq<Undo>): World
    decreases |actions|
  {
    if actions == [] then w else
    UndoneAll(Undone(w, actions[|actions| - 1]), actions[..|actions| - 1])
  }

  lemma UndoneTop(w: World, actions: seq<Undo>, a: Undo)
    ensures UndoneAll(w, actions + [a]) == UndoneAll(Undone(w, a), actions)
  {
    assert (actions + [a])[..|actions|] == actions;
  }

  /** What the stack does to the index, which no kernel answer can prevent. */
  function IndexUndone(ix: Index, actions: seq<Undo>): Index
    decreases |actions|
  {
    if actions == [] then ix else
    var a := actions[|actions| - 1];
    IndexUndone(if a.RemoveState? then UndoInsert(ix, a.id, a.paa) else ix, actions[..|actions| - 1])
  }

  /** Only the bottom of the stack is about the index. */
  predicate StateFirst(actions: seq<Undo>, id: SessionId, paa: Ip4) {
    && actions != [] && actions[0] == RemoveState(id, paa)
    && forall i :: 0 < i < |actions| ==> !actions[i].RemoveState?
  }

  lemma {:induction false} IndexUndoneOnce(ix: Index, actions: seq<Undo>, id: SessionId, paa: Ip4)
    requires StateFirst(actions, id, paa)
    ensures IndexUndone(ix, actions) == UndoInsert(ix, id, paa)
    decreases |actions|
  {
    if |actions| == 1 {
    } else {
      IndexUndoneOnce(ix, actions[..|actions| - 1], id, paa);
    }
  }

  /** The stack holds no other TEID. */
  predicate OnlyTeid(actions: seq<Undo>, teid: nat) {
    forall a :: a in actions && a.RemoveTeid? ==> a.teid == teid
  }

  lemma {:induction false} TeidsUndoneOnce(w: World, actions: seq<Undo>, teid: nat)
    requires OnlyTeid(actions, teid)
    ensures UndoneAll(w, actions).teids == if RemoveTeid(teid) in actions then w.teids - {teid} else w.teids
    decreases |actions|
  {
    if actions == [] {
    } else {
      var front, a := actions[..|actions| - 1], actions[|actions| - 1];
      TeidsUndoneOnce(Undone(w, a), front, teid);
      assert forall x :: x in actions <==> x in front || x == a;
      assert w.teids - {teid} - {teid} == w.teids - {teid};
    }
  }

  lemma UndoInsertRestores(ix: Index, id: SessionId, paa: Ip4, pgw: Ip4, b: Bearer)
    requires id !in ix.sessions && paa !in ix.byPaa && b.remote !in ix.byRemote && b.local !in ix.byLocal
    ensures UndoInsert(InsertSession(ix, id, paa, pgw, b), id, paa) == ix
  {
    var ix' := InsertSession(ix, id, paa, pgw, b);
    var s := ix'.sessions[id];
    assert s.bearers[b.ebi] == b;
    assert Locals(s) == {b.local} && Remotes(s) == {b.remote};
    assert ix'.sessions - {id} == ix.sessions;
    assert ix'.byPaa - {paa} == ix.byPaa;
    assert ix'.byLocal - {b.local} == ix.byLocal;
    assert ix'.byRemote - {b.remote} == ix.byRemote;
  }

  lemma RemoveUeRestores(w: World, w': World, paa: Ip4, e: UeEntry)
    requires w' == w.(maps := w'.maps) && w'.maps.ue == w.maps.ue[paa := e]
    requires Cleared(w'.maps.rules, paa) == Cleared(w.maps.rules, paa)
    ensures paa !in w.maps.ue && (forall k :: k in w.maps.rules ==> !Slot(k, paa)) ==> Undone(w', RemoveUe(paa)) == w
  {
    if paa !in w.maps.ue && (forall k :: k in w.maps.rules ==> !Slot(k, paa)) {
      assert w'.maps.ue - {paa} == w.maps.ue;
      assert Cleared(w.maps.rules, paa) == w.maps.rules;
    }
  }

  lemma UePushed(w: World, w': World, actions: seq<Undo>, paa: Ip4)
    requires paa in w'.maps.ue
    requires w' == w.(maps := w'.maps) && w'.maps.ue == w.maps.ue[paa := w'.maps.ue[paa]]
    requires Cleared(w'.maps.rules, paa) == Cleared(w.maps.rules, paa)
    ensures paa !in w.maps.ue && (forall k :: k in w.maps.rules ==> !Slot(k, paa)) ==>
              UndoneAll(w', actions + [RemoveUe(paa)]) == UndoneAll(w, actions)
  {
    UndoneTop(w', actions, RemoveUe(paa));
    RemoveUeRestores(w, w', paa, w'.maps.ue[paa]);
  }

  function Reversed<T>(s: seq<T>): seq<T> {
    if s == [] then [] else [s[|s| - 1]] + Reversed(s[..|s| - 1])
  }

  function UplinksOf(s: Session): TcRules.Uplinks {
    TcRules.Uplinks(s.defaultEbi,
                    if s.defaultEbi in s.bearers then s.bearers[s.defaultEbi].remote else 0,
                    map e | e in s.bearers :: TcRules.Bearer(s.bearers[e].ebi, s.bearers[e].remote, s.bearers[e].tft))
  }

  /** A filter of the session's dedicated bearer `ebi` that the uplink packet matches. */
  ghost predicate Candidate(s: Session, p: Packet, ebi: byte, f: PacketFilter) {
    && ebi in s.bearers && s.bearers[ebi].ebi != s.defaultEbi
    && s.bearers[ebi].tft.Some? && f in s.bearers[ebi].tft.value
    && (f.direction == 1 || f.direction == 3) && Matches(f, p) && f.precedence < 255
  }

  /** The session sends the packet on this TEID: the PGW's for the bearer of a best matching
      filter, or for the default bearer if no filter matches. */
  ghost predicate Prescribed(s: Session, p: Packet, teid: nat) {
    || (exists e, f :: Candidate(s, p, e, f) && teid == s.bearers[e].remote
          && forall e', f' :: Candidate(s, p, e', f') ==> f.precedence <= f'.precedence)
    || (OnDefault(s, teid) && forall e, f :: !Candidate(s, p, e, f))
  }

  lemma CandidateOf(s: Session, p: Packet, b: TcRules.Bearer, f: PacketFilter) returns (e: byte)
    requires TcRules.Candidate(UplinksOf(s), p, b, f)
    ensures Candidate(s, p, e, f) && s.bearers[e].remote == b.teid
  {
    var u := UplinksOf(s);
    e :| e in u.bearers && u.bearers[e] == b;
  }

  lemma CandidateToo(s: Session, p: Packet, e: byte, f: PacketFilter)
    requires Candidate(s, p, e, f)
    ensures TcRules.Candidate(UplinksOf(s), p, UplinksOf(s).bearers[e], f)
  {
    var u := UplinksOf(s);
    assert u.bearers[e] in u.bearers.Values;
  }

  /** What the rule compiler is given says the same as the session. */
  lemma ChoiceIsPrescribed(s: Session, p: Packet, teid: nat)
    requires s.defaultEbi in s.bearers && TcRules.IsChoice(UplinksOf(s), p, teid)
    ensures Prescribed(s, p, teid)
  {
    var u := UplinksOf(s);
    forall e, f | Candidate(s, p, e, f)
      ensures TcRules.Candidate(u, p, u.bearers[e], f)
    {
      CandidateToo(s, p, e, f);
    }
    if b, f :| TcRules.Best(u, p, b, f) && teid == b.teid {
      var e := CandidateOf(s, p, b, f);
      assert Candidate(s, p, e, f);
    }
  }

  /** The UE addresses in ue_session_map, with the TEID their packets go to by default. */
  function UeTeids(m: Maps): map<Ip4, nat> {
    map a | a in m.ue :: m.ue[a].teid
  }

  /** A session with only its default bearer compiles to no rules. */
  lemma {:induction false} DefaultCompilesToNothing(u: TcRules.Uplinks, order: seq<byte>)
    requires forall e :: e in order ==> e in u.bearers && u.bearers[e].ebi == u.defaultEbi
    ensures TcRules.Compile(u, order) == []
  {
    if order == [] {
    } else {
      DefaultCompilesToNothing(u, order[..|order| - 1]);
    }
  }

  class RollbackState {
    var actions: seq<Undo>
    var ran: bool
    /** All actions ever pushed, and those performed, in their order. */
    ghost var pushed: seq<Undo>
    ghost var performed: seq<Undo>

    constructor ()
      ensures actions == [] && !ran && pushed == [] && performed == []
    {
      actions, ran, pushed, performed := [], false, [], [];
    }

    method Add(a: Undo)
      modifies this
      ensures actions == old(actions) + [a] && pushed == old(pushed) + [a]
      ensures ran == old(ran) && performed == old(performed)
    {
      actions, pushed := actions + [a], pushed + [a];
    }
  }

  class Manager {
    const kernel: Dataplane
    const hasBpf: bool
    const hasTc: bool
    var sessions: map<SessionId, Session>
    var byPaa: map<Ip4, SessionId>
    var byLocal: map<nat, Ref>
    var byRemote: map<nat, Ref>

    constructor (kernel: Dataplane, hasBpf: bool, hasTc: bool)
      ensures Ix() == Empty && this.kernel == kernel && this.hasBpf == hasBpf && this.hasTc == hasTc
    {
      this.kernel, this.hasBpf, this.hasTc := kernel, hasBpf, hasTc;
      sessions, byPaa, byLocal, byRemote := map[], map[], map[], map[];
    }

    ghost function Ix(): Index
      reads this
    {
      Index(sessions, byPaa, byLocal, byRemote)
    }

    ghost function W(): World
      reads this, kernel
    {
      World(Ix(), kernel.teids, kernel.View(), kernel.routes)
    }

    /** Every kernel call since number `first` succeeded. */
    ghost predicate Worked(first: nat)
      reads kernel
    {
      kernel.AllSucceed(first, kernel.calls)
    }

    // ------------------------------------------------------------ undo stack

    /** Deletes the index entries of the session's bearers, one at a time. */
    method DeleteRefs(s: Session)
      modifies this`byLocal, this`byRemote
      ensures byLocal == old(byLocal) - Locals(s) && byRemote == old(byRemote) - Remotes(s)
    {
      var todo := s.bearers.Keys;
      ghost var locals, remotes: set<nat> := {}, {};
      while todo != {}
        invariant todo <= s.bearers.Keys
        invariant locals == set e | e in s.bearers && e !in todo :: s.bearers[e].local
        invariant remotes == set e | e in s.bearers && e !in todo :: s.bearers[e].remote
        invariant byLocal == old(byLocal) - locals && byRemote == old(byRemote) - remotes
        decreases |todo|
      {
        var e :| e in todo;
        todo := todo - {e};
        byLocal := byLocal - {s.bearers[e].local};
        byRemote := byRemote - {s.bearers[e].remote};
        locals := locals + {s.bearers[e].local};
        remotes := remotes + {s.bearers[e].remote};
      }
      assert locals == Locals(s) && remotes == Remotes(s);
    }

    method RemoveSessionState(id: SessionId, paa: Ip4)
      modifies this
      ensures Ix() == UndoInsert(old(Ix()), id, paa)
    {
      if id in sessions {
        DeleteRefs(sessions[id]);
        sessions := sessions - {id};
      }
      if paa in byPaa { byPaa := byPaa - {paa}; }
    }

    method Perform(a: Undo)
      modifies this, kernel
      ensures old(kernel.calls) <= kernel.calls
      ensures Ix() == if a.RemoveState? then UndoInsert(old(Ix()), a.id, a.paa) else old(Ix())
      ensures kernel.teids == old(kernel.teids) || a.RemoveTeid?
      ensures Worked(old(kernel.calls)) ==> W() == Undone(old(W()), a)
    {
      match a
      case RemoveState(id, paa) => RemoveSessionState(id, paa);
      case RemoveTeid(teid) => var _ := kernel.RemoveTeid(teid);
      case RemoveUe(paa) => var _ := kernel.RemoveUeSession(Some(paa));
      case RemoveRoute(paa) => kernel.RemoveRoute(paa);
    }

    /** rollbackState.run: once, from the top of the stack. */
    method RunRollback(rb: RollbackState)
      modifies this, kernel, rb
      ensures rb.ran && rb.pushed == old(rb.pushed)
      ensures old(rb.ran) ==> W() == old(W()) && rb.performed == old(rb.performed) && rb.actions == old(rb.actions)
      ensures !old(rb.ran) ==> rb.actions == [] && rb.performed == old(rb.performed) + Reversed(old(rb.actions))
      ensures old(rb.actions) == [] ==> W() == old(W())
      ensures !old(rb.ran) ==> Ix() == IndexUndone(old(Ix()), old(rb.actions))
      ensures old(kernel.calls) <= kernel.calls
      ensures !old(rb.ran) && Worked(old(kernel.calls)) ==> W() == UndoneAll(old(W()), old(rb.actions))
    {
      if rb.ran { return; }
      rb.ran := true;
      var actions := rb.actions;
      var i := |actions|;
      assert actions[..i] == actions;
      while i > 0
        invariant 0 <= i <= |actions| && rb.ran && rb.pushed == old(rb.pushed)
        invariant rb.performed + Reversed(actions[..i]) == old(rb.performed) + Reversed(actions)
        invariant old(kernel.calls) <= kernel.calls && (i == |actions| ==> W() == old(W()))
        invariant IndexUndone(Ix(), actions[..i]) == IndexUndone(old(Ix()), actions)
        invariant Worked(old(kernel.calls)) ==> UndoneAll(W(), actions[..i]) == UndoneAll(old(W()), actions)
      {
        i := i - 1;
        ghost var top := actions[..i + 1];
        assert top[..|top| - 1] == actions[..i] && top[|top| - 1] == actions[i];
        assert Reversed(top) == [actions[i]] + Reversed(actions[..i]);
        ghost var done := rb.performed;
        Perform(actions[i]);
        rb.performed := rb.performed + [actions[i]];
        assert done + ([actions[i]] + Reversed(actions[..i])) == rb.performed + Reversed(actions[..i]);
      }
      assert actions[..0] == [];
      assert rb.performed + [] == rb.performed;
      rb.actions := [];
    }

    // ------------------------------------------------------- session install

    /** Nothing of the session to be installed is there yet. */
    ghost predicate Fresh(w: World, id: SessionId, paa: Ip4, b: Bearer) {
      && id !in w.ix.sessions && paa !in w.ix.byPaa && b.remote !in w.ix.byRemote
      && (b.local in w.teids ==> b.local in w.ix.byLocal)
      && paa !in w.maps.ue && (forall k :: k in w.maps.rules ==> !Slot(k, paa))
    }

    /** What a completed install adds. */
    ghost function Installed(w: World, id: SessionId, paa: Ip4, pgw: Ip4, local: Ip4, link: Option<nat>, b: Bearer): World {
      World(InsertSession(w.ix, id, paa, pgw, b),
            if hasBpf then w.teids[b.local := TeidEntry(paa, pgw)] else w.teids,
            if hasTc && link.Some?
            then Maps(w.maps.ue[paa := UeEntry(b.remote, pgw, local, link.value, 0)], Cleared(w.maps.rules, paa))
            else w.maps,
            if hasBpf || hasTc then w.routes + {paa} else w.routes)
    }

    /** A completed install steps ue_session_map as well. */
    lemma InstalledUes(w: World, id: SessionId, paa: Ip4, pgw: Ip4, local: Ip4, link: Option<nat>, b: Bearer)
      requires hasTc && link.Some? && b.local !in w.ix.byLocal
      ensures UeTeids(Installed(w, id, paa, pgw, local, link, b).maps)
              == UeStep(UeTeids(w.maps), State(w.ix, w.teids), Event.AddSession(id, paa, pgw, b, true))
    {}

    /** Undoing everything on the stack leads back to `before`, if it was fresh. */
    ghost predicate Restores(before: World, rb: RollbackState, id: SessionId, paa: Ip4, b: Bearer)
      reads this, kernel, rb
    {
      Fresh(before, id, paa, b) && b.local !in before.ix.byLocal ==> UndoneAll(W(), rb.actions) == before
    }

    method InstallState(id: SessionId, paa: Ip4, pgw: Ip4, b: Bearer, rb: RollbackState)
      requires rb.actions == [] && !rb.ran && b.local !in byLocal
      modifies this, rb
      ensures W() == old(W()).(ix := InsertSession(old(Ix()), id, paa, pgw, b))
      ensures Restores(old(W()), rb, id, paa, b) && rb.actions == [RemoveState(id, paa)]
      ensures !rb.ran && rb.pushed == old(rb.pushed) + rb.actions && rb.performed == old(rb.performed)
    {
      sessions := sessions[id := Session(paa, pgw, b.ebi, map[b.ebi := b])];
      byPaa := byPaa[paa := id];
      byLocal := byLocal[b.local := Ref(id, b.ebi)];
      byRemote := byRemote[b.remote := Ref(id, b.ebi)];
      rb.Add(RemoveState(id, paa));
      UndoneTop(W(), [], RemoveState(id, paa));
      assert [] + [RemoveState(id, paa)] == [RemoveState(id, paa)];
      if Fresh(old(W()), id, paa, b) { UndoInsertRestores(old(Ix()), id, paa, pgw, b); }
    }

    method InstallTeid(id: SessionId, paa: Ip4, pgw: Ip4, b: Bearer, rb: RollbackState, ghost before: World) returns (ok: bool)
      requires Restores(before, rb, id, paa, b) && !rb.ran && kernel.teids == before.teids
      modifies kernel, rb
      ensures Restores(before, rb, id, paa, b) && !rb.ran && rb.performed == old(rb.performed)
      ensures rb.actions == old(rb.actions) + (if ok then [RemoveTeid(b.local)] else [])
      ensures rb.pushed == old(rb.pushed) + (if ok then [RemoveTeid(b.local)] else [])
      ensures W() == if ok then old(W()).(teids := before.teids[b.local := TeidEntry(paa, pgw)]) else old(W())
      ensures old(kernel.calls) <= kernel.calls && (ok <==> Worked(old(kernel.calls)))
    {
      ok := kernel.PutTeid(b.local, TeidEntry(paa, pgw));
      if !ok {
        assert old(rb.actions) + [] == rb.actions;
        return;
      }
      rb.Add(RemoveTeid(b.local));
      UndoneTop(W(), old(rb.actions), RemoveTeid(b.local));
      if Fresh(before, id, paa, b) && b.local !in before.ix.byLocal {
        assert kernel.teids - {b.local} == before.teids;
      }
    }

    method InstallRoute(id: SessionId, paa: Ip4, b: Bearer, rb: RollbackState, ghost before: World) returns (ok: bool)
      requires Restores(before, rb, id, paa, b) && !rb.ran && kernel.routes == before.routes
      modifies kernel, rb
      ensures Restores(before, rb, id, paa, b) && !rb.ran && rb.performed == old(rb.performed)
      ensures rb.actions == old(rb.actions) + (if ok then [RemoveRoute(paa)] else [])
      ensures rb.pushed == old(rb.pushed) + (if ok then [RemoveRoute(paa)] else [])
      ensures W() == if ok then old(W()).(routes := before.routes + {paa}) else old(W())
      ensures old(kernel.calls) <= kernel.calls && (ok <==> Worked(old(kernel.calls)) && paa !in before.routes)
    {
      ok := kernel.AddRoute(paa);
      if !ok {
        assert old(rb.actions) + [] == rb.actions;
        return;
      }
      rb.Add(RemoveRoute(paa));
      UndoneTop(W(), old(rb.actions), RemoveRoute(paa));
      assert kernel.routes - {paa} == before.routes;
    }

    /** The rule table of a session that has only its default bearer. */
    method SyncDefault(paa: Ip4, s: Session, ghost b: Bearer, ghost ue: map<Ip4, UeEntry>) returns (ok: bool)
      requires paa in kernel.ue && kernel.ue == ue[paa := kernel.ue[paa]]
      requires s.defaultEbi == b.ebi && s.bearers == map[b.ebi := b]
      modifies kernel`ue, kernel`rules, kernel`calls, kernel`log
      ensures paa in kernel.ue && Cleared(kernel.rules, paa) == Cleared(old(kernel.rules), paa)
      ensures kernel.ue == ue[paa := kernel.ue[paa]]
      ensures ok ==> kernel.ue[paa] == old(kernel.ue[paa]).(ruleCount := 0) && kernel.rules == Cleared(old(kernel.rules), paa)
      ensures old(kernel.calls) <= kernel.calls && (ok <==> Worked(old(kernel.calls)))
    {
      var u := UplinksOf(s);
      ghost var order;
      ghost var calls := |kernel.log|;
      ok, order := kernel.SyncTftRules(u, Some(paa));
      DefaultCompilesToNothing(u, order);
      StageFrame(old(kernel.View()), paa, [], |kernel.log| - calls);
    }

    method AddUe(paa: Ip4, pgw: Ip4, local: Ip4, link: nat, b: Bearer) returns (ok: bool)
      modifies kernel`ue, kernel`rules, kernel`calls, kernel`log
      ensures kernel.rules == old(kernel.rules)
      ensures kernel.ue == if ok then old(kernel.ue)[paa := UeEntry(b.remote, pgw, local, link, 0)] else old(kernel.ue)
      ensures old(kernel.calls) <= kernel.calls && (ok <==> Worked(old(kernel.calls)))
    {
      ok := kernel.AddUeSession(Some(paa), b.remote, Some(pgw), Some(local), link);
    }

    /** The UE entry, then an empty rule table for it. */
    method InstallUe(id: SessionId, paa: Ip4, pgw: Ip4, local: Ip4, link: nat, b: Bearer, rb: RollbackState, ghost before: World)
        returns (ok: bool)
      requires Restores(before, rb, id, paa, b) && !rb.ran && kernel.View() == before.maps
      requires id in sessions && sessions[id] == Session(paa, pgw, b.ebi, map[b.ebi := b])
      modifies kernel`ue, kernel`rules, kernel`calls, kernel`log, rb
      ensures Restores(before, rb, id, paa, b) && !rb.ran && rb.performed == old(rb.performed)
      ensures || (rb.actions == old(rb.actions) && rb.pushed == old(rb.pushed))
              || (rb.actions == old(rb.actions) + [RemoveUe(paa)] && rb.pushed == old(rb.pushed) + [RemoveUe(paa)])
      ensures ok ==> W() == old(W()).(maps :=
        Maps(before.maps.ue[paa := UeEntry(b.remote, pgw, local, link, 0)], Cleared(before.maps.rules, paa)))
      ensures old(kernel.calls) <= kernel.calls && (ok <==> Worked(old(kernel.calls)))
    {
      ghost var was, actions := W(), rb.actions;
      ok := AddUe(paa, pgw, local, link, b);
      if !ok { return; }
      rb.Add(RemoveUe(paa));
      ok := SyncDefault(paa, sessions[id], b, was.maps.ue);
      assert W() == was.(maps := kernel.View());
      UePushed(was, W(), actions, paa);
    }

    /** AddSession. Without a local, PGW or UE IPv4 address it does nothing; `link` is the S2b
        interface that uplink packets leave by; `datapath` is what the session object is given.
        Kernel calls before number `stop` belong to the install, later ones to the undo. */
    method AddSession(id: SessionId, paa0: Option<Ip4>, pgw0: Option<Ip4>, local0: Option<Ip4>, link: Option<nat>,
                      ebi: byte, localTeid: nat, remoteTeid: nat)
        returns (ok: bool, rb: RollbackState, datapath: Option<Ip4>, ghost stop: nat)
      modifies this, kernel
      ensures fresh(rb) && rb.performed == if ok then [] else Reversed(rb.pushed)
      ensures datapath == if ok then paa0 else None
      ensures old(kernel.calls) <= stop <= kernel.calls && (ok ==> stop == kernel.calls)
      ensures paa0.None? || pgw0.None? || local0.None? ==> !ok && W() == old(W())
      ensures paa0.Some? && pgw0.Some? && local0.Some? ==>
        var b := Bearer(ebi, localTeid, remoteTeid, V4(pgw0.value), 0, None);
        var e := Event.AddSession(id, paa0.value, pgw0.value, b, ok);
        && (ok <==> && localTeid !in old(byLocal) && kernel.AllSucceed(old(kernel.calls), stop)
                    && (hasBpf || hasTc ==> paa0.value !in old(kernel.routes)) && (hasTc ==> link.Some?))
        && (ok ==> W() == Installed(old(W()), id, paa0.value, pgw0.value, local0.value, link, b))
        && (!ok && Fresh(old(W()), id, paa0.value, b) && Worked(stop) ==> W() == old(W()))
        && Ix() == Step(old(St()), e).ix
        && (hasBpf && ok ==> St() == Step(old(St()), e))
        && (!ok && Worked(stop) && (localTeid in old(kernel.teids) ==> localTeid in old(byLocal)) ==> St() == Step(old(St()), e))
    {
      rb := new RollbackState();
      datapath, stop := None, kernel.calls;
      ghost var before := W();
      if paa0.None? || pgw0.None? || local0.None? { return false, rb, None, stop; }
      var paa, pgw, local := paa0.value, pgw0.value, local0.value;
      var b := Bearer(ebi, localTeid, remoteTeid, V4(pgw), 0, None);
      if b.local in byLocal {
        RunRollback(rb);
        return false, rb, None, stop;
      }
      InstallState(id, paa, pgw, b, rb);
      ok := Install(id, paa, pgw, local, link, b, rb, before);
      stop := kernel.calls;
      if ok {
        datapath := Some(paa);
      } else {
        IndexUndoneOnce(Ix(), rb.actions, id, paa);
        TeidsUndoneOnce(W(), rb.actions, b.local);
        RunRollback(rb);
      }
    }

    /** The kernel side of the install, up to the first step that fails. */
    method Install(id: SessionId, paa: Ip4, pgw: Ip4, local: Ip4, link: Option<nat>, b: Bearer, rb: RollbackState, ghost before: World)
        returns (ok: bool)
      requires Restores(before, rb, id, paa, b) && !rb.ran && rb.performed == [] && rb.pushed == rb.actions
      requires W() == before.(ix := InsertSession(before.ix, id, paa, pgw, b)) && rb.actions == [RemoveState(id, paa)]
      modifies kernel, rb
      ensures StateFirst(rb.actions, id, paa) && OnlyTeid(rb.actions, b.local)
      ensures Restores(before, rb, id, paa, b) && !rb.ran && rb.performed == [] && rb.pushed == rb.actions
      ensures kernel.teids == if RemoveTeid(b.local) in rb.actions then before.teids[b.local := TeidEntry(paa, pgw)] else before.teids
      ensures ok ==> W() == Installed(before, id, paa, pgw, local, link, b)
      ensures old(kernel.calls) <= kernel.calls
      ensures ok <==> && Worked(old(kernel.calls)) && (hasTc ==> link.Some?)
                      && (hasBpf || hasTc ==> paa !in before.routes)
    {
      ok := true;
      if hasBpf {
        ok := InstallTeid(id, paa, pgw, b, rb, before);
        if !ok { return; }
        if !hasTc {
          ok := InstallRoute(id, paa, b, rb, before);
          if !ok { return; }
        }
      }
      ghost var pushed := rb.actions;
      if hasTc { ok := InstallTc(id, paa, pgw, local, link, b, rb, before); }
      assert hasBpf ==> pushed[1] == RemoveTeid(b.local) && rb.actions[1] == pushed[1];
    }

    /** The UE entry and the host route. */
    method InstallTc(id: SessionId, paa: Ip4, pgw: Ip4, local: Ip4, link: Option<nat>, b: Bearer, rb: RollbackState, ghost before: World)
        returns (ok: bool)
      requires Restores(before, rb, id, paa, b) && !rb.ran && rb.pushed == rb.actions
      requires kernel.View() == before.maps && kernel.routes == before.routes
      requires id in sessions && sessions[id] == Session(paa, pgw, b.ebi, map[b.ebi := b])
      modifies kernel, rb
      ensures Restores(before, rb, id, paa, b) && !rb.ran && rb.performed == old(rb.performed) && rb.pushed == rb.actions
      ensures old(rb.actions) <= rb.actions
      ensures forall i :: |old(rb.actions)| <= i < |rb.actions| ==> rb.actions[i] in {RemoveUe(paa), RemoveRoute(paa)}
      ensures kernel.teids == old(kernel.teids)
      ensures ok ==> link.Some? && W() == old(W()).(
        maps := Maps(before.maps.ue[paa := UeEntry(b.remote, pgw, local, link.value, 0)], Cleared(before.maps.rules, paa)),
        routes := before.routes + {paa})
      ensures old(kernel.calls) <= kernel.calls
      ensures ok <==> Worked(old(kernel.calls)) && link.Some? && paa !in before.routes
    {
      if link.None? { return false; }
      ok := InstallUe(id, paa, pgw, local, link.value, b, rb, before);
      if !ok { return; }
      ok := InstallRoute(id, paa, b, rb, before);
    }

    // ------------------------------------------------------ sessions, bearers

    ghost function St(): State
      reads this, kernel
    {
      State(Ix(), kernel.teids)
    }

    /** The world without the session. */
    ghost function Removed(w: World, id: SessionId): World {
      if id !in w.ix.sessions then w else
      var s := w.ix.sessions[id];
      World(DropSession(w.ix, id),
            if hasBpf then w.teids - Locals(s) else w.teids,
            if hasTc then Maps(w.maps.ue - {s.paa}, Cleared(w.maps.rules, s.paa)) else w.maps,
            if hasBpf || hasTc then w.routes - {s.paa} else w.routes)
    }

    /** Removing a session takes away exactly what its install added. */
    lemma RemoveUndoesInstall(w: World, id: SessionId, paa: Ip4, pgw: Ip4, local: Ip4, link: Option<nat>, b: Bearer)
      requires Fresh(w, id, paa, b) && b.local !in w.ix.byLocal && paa !in w.routes && (hasTc ==> link.Some?)
      ensures Removed(Installed(w, id, paa, pgw, local, link, b), id) == w
    {
      var w' := Installed(w, id, paa, pgw, local, link, b);
      UndoInsertRestores(w.ix, id, paa, pgw, b);
      var s := w'.ix.sessions[id];
      assert s.bearers[b.ebi] == b;
      assert Locals(s) == {b.local};
      assert DropSession(w'.ix, id) == UndoInsert(w'.ix, id, paa);
      assert hasBpf ==> w'.teids - {b.local} == w.teids;
      if hasTc {
        assert w'.maps.ue - {paa} == w.maps.ue;
        assert Cleared(w.maps.rules, paa) == w.maps.rules;
        assert Cleared(w'.maps.rules, paa) == w.maps.rules;
      }
      assert hasBpf || hasTc ==> w'.routes - {paa} == w.routes;
    }

    /** Deletes the session's TEIDs from teid_map; a failing call is passed over. */
    method DeleteTeids(s: Session)
      modifies kernel`teids, kernel`calls
      ensures old(kernel.calls) <= kernel.calls
      ensures Worked(old(kernel.calls)) ==> kernel.teids == old(kernel.teids) - Locals(s)
    {
      var todo := s.bearers.Keys;
      ghost var locals: set<nat> := {};
      while todo != {}
        invariant todo <= s.bearers.Keys && old(kernel.calls) <= kernel.calls
        invariant locals == set e | e in s.bearers && e !in todo :: s.bearers[e].local
        invariant Worked(old(kernel.calls)) ==> kernel.teids == old(kernel.teids) - locals
        decreases |todo|
      {
        var e :| e in todo;
        todo := todo - {e};
        var _ := kernel.RemoveTeid(s.bearers[e].local);
        locals := locals + {s.bearers[e].local};
      }
      assert locals == Locals(s);
    }

    /** The kernel side of a removal; failing calls are passed over. */
    method RemoveKernelState(s: Session)
      modifies kernel
      ensures old(kernel.calls) <= kernel.calls
      ensures Worked(old(kernel.calls)) ==>
        && kernel.teids == (if hasBpf then old(kernel.teids) - Locals(s) else old(kernel.teids))
        && kernel.View() == (if hasTc then Maps(old(kernel.ue) - {s.paa}, Cleared(old(kernel.rules), s.paa))
                             else old(kernel.View()))
        && kernel.routes == (if hasBpf || hasTc then old(kernel.routes) - {s.paa} else old(kernel.routes))
    {
      if hasBpf { DeleteTeids(s); }
      if hasTc {
        var _ := kernel.RemoveUeSession(Some(s.paa));
        kernel.RemoveRoute(s.paa);
      } else if hasBpf {
        kernel.RemoveRoute(s.paa);
      }
    }

    /** And so does a completed removal. */
    lemma RemovedUes(w: World, id: SessionId)
      requires hasTc
      ensures UeTeids(Removed(w, id).maps)
              == UeStep(UeTeids(w.maps), State(w.ix, w.teids), Event.RemoveSession(id, true))
    {}

    method RemoveSession(id: SessionId)
      modifies this, kernel
      ensures Ix() == DropSession(old(Ix()), id)
      ensures Worked(old(kernel.calls)) ==> W() == Removed(old(W()), id)
      ensures Worked(old(kernel.calls)) && hasBpf ==> St() == Step(old(St()), Event.RemoveSession(id, true))
      ensures Worked(old(kernel.calls)) && hasTc ==>
        UeTeids(kernel.View()) == UeStep(UeTeids(old(kernel.View())), old(St()), Event.RemoveSession(id, true))
    {
      if hasTc { RemovedUes(W(), id); }
      if id !in sessions { return; }
      var s := sessions[id];
      DeleteRefs(s);
      RemoveKernelState(s);
      byPaa := byPaa - {s.paa};
      sessions := sessions - {id};
    }

    method HasBearer(id: SessionId, ebi: byte) returns (has: bool)
      ensures has == GtpuIndex.HasBearer(Ix(), id, ebi)
    {
      if id !in sessions { return false; }
      has := ebi in sessions[id].bearers;
    }

    /** The classifier follows the session's filters, if its TC entry exists. */
    ghost predicate Follows(id: SessionId, order: seq<byte>)
      reads this, kernel
    {
      && id in sessions && sessions[id].paa in kernel.ue
      && TcRules.IsOrder(UplinksOf(sessions[id]), order)
      && NewTable(kernel.ue[sessions[id].paa].teid, kernel.View(), sessions[id].paa,
                  TcRules.Truncate(TcRules.Compile(UplinksOf(sessions[id]), order)))
    }

    /** Every packet of the UE then goes where its session's filters send it, if there are no
        more of them than the table holds. */
    lemma FollowsPrescribes(id: SessionId, order: seq<byte>, p: Packet)
      requires Follows(id, order) && p.src == sessions[id].paa
      requires OnDefault(sessions[id], kernel.ue[p.src].teid)
      requires |TcRules.Compile(UplinksOf(sessions[id]), order)| <= 32
      ensures Classify(kernel.View(), p).Some? && Prescribed(sessions[id], p, Classify(kernel.View(), p).value)
    {
      var u := UplinksOf(sessions[id]);
      TcRules.MeaningPreserved(u, order, p);
      ChoiceIsPrescribed(sessions[id], p, Classify(kernel.View(), p).value);
    }

    method Sync(id: SessionId) returns (ok: bool, ghost order: seq<byte>)
      requires id in sessions
      modifies kernel`ue, kernel`rules, kernel`calls, kernel`log
      ensures !hasTc ==> ok && kernel.View() == old(kernel.View())
      ensures hasTc && ok ==> Follows(id, order)
      ensures OthersKeep(old(kernel.View()), kernel.View(), sessions[id].paa)
      ensures UeTeids(kernel.View()) == UeTeids(old(kernel.View()))
      ensures old(kernel.calls) <= kernel.calls
      ensures Worked(old(kernel.calls)) && sessions[id].paa in old(kernel.ue) ==> ok
    {
      order := [];
      if !hasTc { return true, order; }
      var u, paa := UplinksOf(sessions[id]), sessions[id].paa;
      ghost var before, mark := kernel.View(), |kernel.log|;
      ok, order := kernel.SyncTftRules(u, Some(paa));
      if paa in before.ue {
        StageFrame(before, paa, TcRules.Truncate(TcRules.Compile(u, order)), |kernel.log| - mark);
      }
    }

    /** AddBearer. A failed teid_map call is only logged; a failed rule sync is reported, but
        the bearer stays. */
    method AddBearer(id: SessionId, b0: Bearer) returns (ok: bool, ghost order: seq<byte>)
      modifies this, kernel
      ensures Ix() == InsertBearer(old(Ix()), id, b0)
      ensures hasBpf ==> St() == Step(old(St()), Event.AddBearer(id, b0, old(kernel.calls) !in kernel.faults))
      ensures !hasBpf ==> kernel.teids == old(kernel.teids)
      ensures kernel.routes == old(kernel.routes)
      ensures b0.local == 0 || b0.remote == 0 || b0.ebi == 0 || id !in old(sessions) || b0.local in old(byLocal) ==>
                !ok && W() == old(W())
      ensures Acceptable(old(Ix()), id, b0) && !hasTc ==> ok
      ensures old(kernel.calls) <= kernel.calls
      ensures Acceptable(old(Ix()), id, b0) && Worked(old(kernel.calls)) && sessions[id].paa in old(kernel.ue) ==> ok
      ensures ok && hasTc ==> Follows(id, order)
      ensures ok ==> OthersKeep(old(kernel.View()), kernel.View(), sessions[id].paa)
      ensures UeTeids(kernel.View()) == UeTeids(old(kernel.View()))
    {
      order := [];
      if b0.local == 0 || b0.remote == 0 || b0.ebi == 0 { return false, order; }
      if id !in sessions { return false, order; }
      var s := sessions[id];
      if b0.local in byLocal { return false, order; }
      var b := b0;
      if b.pgw == NoAddr { b := b.(pgw := V4(s.pgw)); }
      sessions := sessions[id := s.(bearers := s.bearers[b.ebi := b])];
      byLocal := byLocal[b.local := Ref(id, b.ebi)];
      byRemote := byRemote[b.remote := Ref(id, b.ebi)];
      if hasBpf && b.pgw.V4? {
        var _ := kernel.PutTeid(b.local, TeidEntry(s.paa, b.pgw.ip));
      }
      ok, order := Sync(id);
    }

    method RemoveBearer(id: SessionId, ebi: byte) returns (ok: bool, ghost order: seq<byte>)
      modifies this, kernel
      ensures Ix() == DropBearer(old(Ix()), id, ebi)
      ensures hasBpf ==> St() == Step(old(St()), Event.RemoveBearer(id, ebi, old(kernel.calls) !in kernel.faults))
      ensures !hasBpf ==> kernel.teids == old(kernel.teids)
      ensures kernel.routes == old(kernel.routes)
      ensures !GtpuIndex.HasBearer(old(Ix()), id, ebi) ==> ok && W() == old(W())
      ensures ok && hasTc && GtpuIndex.HasBearer(old(Ix()), id, ebi) ==> Follows(id, order)
      ensures UeTeids(kernel.View()) == UeTeids(old(kernel.View()))
    {
      order := [];
      if id !in sessions { return true, order; }
      var s := sessions[id];
      if ebi !in s.bearers { return true, order; }
      var b := s.bearers[ebi];
      byLocal := byLocal - {b.local};
      byRemote := byRemote - {b.remote};
      if hasBpf { var _ := kernel.RemoveTeid(b.local); }
      sessions := sessions[id := s.(bearers := s.bearers - {ebi})];
      ok, order := Sync(id);
    }

    method UpdateBearer(id: SessionId, ebi: byte, qci: byte, raw: Bytes) returns (ok: bool, ghost order: seq<byte>)
      modifies this, kernel
      ensures St() == Step(old(St()), Event.UpdateBearer(id, ebi, qci, raw))
      ensures kernel.routes == old(kernel.routes)
      ensures !GtpuIndex.HasBearer(old(Ix()), id, ebi) ==> !ok && W() == old(W())
      ensures GtpuIndex.HasBearer(old(Ix()), id, ebi) ==>
        && GtpuIndex.HasBearer(Ix(), id, ebi)
        && var s, b := old(sessions)[id], sessions[id].bearers[ebi];
           && b == s.bearers[ebi].(qci := if qci == 0 then s.bearers[ebi].qci else qci, tft := b.tft)
           && Refiltered(raw, s.bearers[ebi].tft, b.tft)
           && sessions == old(sessions)[id := s.(bearers := s.bearers[ebi := b])]
      ensures ok && hasTc ==> Follows(id, order)
      ensures UeTeids(kernel.View()) == UeTeids(old(kernel.View()))
    {
      order := [];
      if id !in sessions { return false, order; }
      var s := sessions[id];
      if ebi !in s.bearers { return false, order; }
      var b := s.bearers[ebi];
      UpdatedMeaning(b, qci, raw);
      if qci != 0 { b := b.(qci := qci); }
      if |raw| > 0 {
        var tft := ParseTFT(raw);
        if tft.Ok? && tft.value.Some? { b := b.(tft := Some(tft.value.value)); }
      }
      sessions := sessions[id := s.(bearers := s.bearers[ebi := b])];
      ok, order := Sync(id);
    }
  }
}
