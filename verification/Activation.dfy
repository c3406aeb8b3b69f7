/** One attach, step by step, while goroutines that delete the session run beside it.
    A step is one critical section, one table lookup or one answer from outside; the
    IKE_AUTH handlers of one SA exclude each other, the deletes exclude nobody. */
module Activation {
  import opened Octets
  import opened SessionFsm

  datatype ApnProfile = ApnProfile(ul: nat, dl: nat)

  /** `paa` is None for the empty string. */
  datatype S2bContext = S2bContext(paa: Option<nat>, pgwControlTeid: nat, pgwUserTeid: nat, ebi: nat)

  datatype Datapath = Datapath(bridgeVerified: bool, ipsecPaaAligned: bool)

  datatype Session = Session(
    phase: Phase,
    mskLen: nat,
    apnProfile: Option<ApnProfile>,
    s2b: Option<S2bContext>,
    datapath: Option<Datapath>)

  /** CanActivate of internal/session/fsm.go; no code calls it. */
  predicate CanActivate(s: Session) {
    && s.phase == DatapathInstalling
    && s.mskLen == 64
    && s.apnProfile.Some?
    && s.s2b.Some?
    && s.s2b.value.paa.Some?
    && s.s2b.value.pgwControlTeid != 0
    && s.s2b.value.pgwUserTeid != 0
    && s.s2b.value.ebi != 0
    && s.datapath.Some?
    && s.datapath.value.bridgeVerified
    && s.datapath.value.ipsecPaaAligned
  }

  /** Where the attach is. `held` says whether the last lookup found the session; the reference
      stays usable after the session has left the table. */
  datatype Pc =
    | Idle                                         // between IKE_AUTH requests
    | Round1Got                                    // GetOrCreate returned
    | Round1Wait                                   // SWm asked, first round
    | EapWait                                      // SWm asked, later round
    | EapDone(held: bool, prof: Option<ApnProfile>) // EAP succeeded, session looked up
    | AmbrGot(held: bool)                          // final round, session looked up
    | Creating(ul: nat, dl: nat)                   // Create Session Request sent
    | S2bGot(held: bool, r: S2bContext)            // answered, session looked up
    | SpiGen
    | GtpuGot(held: bool)                          // XFRM installed, session looked up
    | AddLookup                                    // about to look up for AddSession
    | AddRead                                      // AddSession called
    | Installing                                   // AddSession read the S2b context
    | Activating                                   // AddSession returned
    | Done

  datatype Kind = PgwDelete | PgwHandover | Teardown

  /** A deleting goroutine: session found, CleaningUp set, Deleted set. */
  datatype Deleter = Found(kind: Kind) | Marked(kind: Kind) | Swept(kind: Kind)

  datatype State = State(
    pc: Pc,
    eapRound: nat,
    saInAuth: bool,
    saMskLen: nat,
    created: bool,
    inManager: bool,
    sess: Session,
    deleters: map<nat, Deleter>)

  const Init := State(Idle, 0, true, 0, false, false, Session(New, 0, None, None, None), map[])

  datatype EapAnswer = SwmError | EapFailure | EapChallenge | EapSuccess(mskLen: nat, prof: Option<ApnProfile>)

  datatype Action =
    | Round1
    | LockRound1
    | SwmAnswer(answer: EapAnswer)
    | EapRequest
    | LockEap
    | FinalRequest(authOk: bool)
    | ReadAmbr
    | S2bAnswer(reply: Option<S2bContext>)
    | LockS2b
    | NewSpi(ok: bool, install: bool, installOk: bool)
    | LockGtpu
    | LookupForAdd
    | AddSessionRead
    | AddSessionResult(ok: bool)
    | LockActivate
    | Spawn(tid: nat, kind: Kind)
    | Mark(tid: nat)
    | Sweep(tid: nat)
    | Finish(tid: nat)

  /** A Create Session Response that parseCreateSessionResponse accepts carries these. */
  predicate Accepted(r: S2bContext) {
    r.paa.Some? && r.pgwControlTeid != 0 && r.pgwUserTeid != 0
  }

  function Move(s: Session, next: Phase): Session {
    s.(phase := Transition(s.phase, next))
  }

  /** The EAP rounds. */
  function AttachStep(s: State, a: Action): State {
    match (a, s.pc)
    case (Round1, Idle) =>
      if s.saInAuth && s.eapRound == 0 then
        s.(pc := Round1Got, created := true, inManager := true)
      else s
    case (LockRound1, Round1Got) =>
      s.(pc := Round1Wait, sess := Move(s.sess, EapAuthenticating))
    case (SwmAnswer(x), Round1Wait) =>
      (match x
       case SwmError => s.(pc := Idle)
       case EapFailure => s.(pc := Idle, eapRound := 1)
       case EapChallenge => s.(pc := Idle, eapRound := 1)
       case EapSuccess(n, prof) => s.(pc := EapDone(s.inManager, None), eapRound := 1, saMskLen := n))
    case (EapRequest, Idle) =>
      if s.saInAuth && s.eapRound > 0 then s.(pc := EapWait) else s
    case (SwmAnswer(x), EapWait) =>
      (match x
       case SwmError => s.(pc := Idle)
       case EapFailure => s.(pc := Idle, eapRound := s.eapRound + 1)
       case EapChallenge => s.(pc := Idle, eapRound := s.eapRound + 1)
       case EapSuccess(n, prof) =>
         s.(pc := EapDone(s.inManager, prof), eapRound := s.eapRound + 1, saMskLen := n))
    case (LockEap, EapDone(held, prof)) =>
      if !held then s.(pc := Idle) else
      s.(pc := Idle,
         sess := Move(s.sess.(mskLen := s.saMskLen,
                              apnProfile := if prof.Some? then prof else s.sess.apnProfile),
                      EapAuthenticated))
    case (FinalRequest(authOk), Idle) =>
      if s.saInAuth && s.eapRound > 0 && s.saMskLen == 64 && authOk
      then s.(pc := AmbrGot(s.inManager)) else s
    case _ => s
  }

  /** The final round after the UE's AUTH payload was verified. */
  function InstallStep(s: State, a: Action): State {
    match (a, s.pc)
    case (ReadAmbr, AmbrGot(held)) =>
      if held && s.sess.apnProfile.Some?
      then s.(pc := Creating(s.sess.apnProfile.value.ul, s.sess.apnProfile.value.dl))
      else s.(pc := Creating(0, 0))
    case (S2bAnswer(reply), Creating(ul, dl)) =>
      if ul == 0 || dl == 0 || reply.None? || !Accepted(reply.value) then s.(pc := Idle)
      else s.(pc := S2bGot(s.inManager, reply.value))
    case (LockS2b, S2bGot(held, r)) =>
      if !held then s.(pc := SpiGen) else
      s.(pc := SpiGen, sess := Move(Move(s.sess, S2bCreateSessionSent).(s2b := Some(r)), S2bAccepted))
    case (NewSpi(ok, install, installOk), SpiGen) =>
      if !ok then s.(pc := Idle)
      else if !install || !installOk then s.(pc := Done, saInAuth := false)
      else s.(pc := GtpuGot(s.inManager), saInAuth := false)
    case (LockGtpu, GtpuGot(held)) =>
      if !held then s.(pc := AddLookup)
      else s.(pc := AddLookup, sess := Move(s.sess, GtpuInstalling))
    case (LookupForAdd, AddLookup) =>
      s.(pc := if s.inManager then AddRead else Done)
    case (AddSessionRead, AddRead) =>
      s.(pc := if s.sess.s2b.Some? then Installing else Done)
    case (AddSessionResult(ok), Installing) =>
      if !ok then s.(pc := Done)
      else s.(pc := Activating, sess := s.sess.(datapath := Some(Datapath(true, true))))
    case (LockActivate, Activating) =>
      s.(pc := Done, sess := Move(Move(s.sess, DatapathInstalling), Active))
    case _ => s
  }

  function DeleteStep(s: State, a: Action): State {
    match a
    case Spawn(tid, kind) =>
      // The PGW's request is matched by the local control TEID in the S2b context; a teardown
      // holds the SA's lock, and after it no IKE_AUTH finds the SA.
      if tid !in s.deleters && s.inManager
         && (if kind == Teardown then s.pc.Idle? || s.pc.Done? else s.sess.s2b.Some?)
      then s.(deleters := s.deleters[tid := Found(kind)],
              saInAuth := if kind == Teardown then false else s.saInAuth) else s
    case Mark(tid) =>
      if tid !in s.deleters || !s.deleters[tid].Found? then s else
      var k := s.deleters[tid].kind;
      if k != Teardown && s.sess.phase == Deleted then s.(deleters := s.deleters[tid := Swept(k)])
      else s.(deleters := s.deleters[tid := Marked(k)], sess := Move(s.sess, CleaningUp))
    case Sweep(tid) =>
      if tid !in s.deleters || !s.deleters[tid].Marked? then s else
      s.(deleters := s.deleters[tid := Swept(s.deleters[tid].kind)], sess := Move(s.sess, Deleted))
    case Finish(tid) =>
      if tid !in s.deleters || !s.deleters[tid].Swept? then s else
      var s' := s.(deleters := s.deleters - {tid});
      if s.deleters[tid].kind == PgwHandover then s'.(sess := s.sess.(s2b := None))
      else s'.(inManager := false)
    case _ => s
  }

  function Step(s: State, a: Action): State {
    match a
    case Spawn(_, _) | Mark(_) | Sweep(_) | Finish(_) => DeleteStep(s, a)
    case Round1 | LockRound1 | SwmAnswer(_) | EapRequest | LockEap | FinalRequest(_) => AttachStep(s, a)
    case _ => InstallStep(s, a)
  }

  function Run(s: State, actions: seq<Action>): State
    decreases |actions|
  {
    if actions == [] then s else Step(Run(s, actions[..|actions|-1]), actions[|actions|-1])
  }

  // -------------------------------------------------------------- invariants

  predicate GoodS2b(s: Session) {
    Ended(s.phase) || (s.s2b.Some? && Accepted(s.s2b.value))
  }

  predicate DeleterOk(sess: Session, d: Deleter) {
    && (d.kind != Teardown ==> sess.phase != New)
    && (d.kind != Teardown && !d.Found? ==> Ended(sess.phase))
  }

  /** What the attach has established once it got past the S2b answer, if the session was
      still in the table, or was when the last reference was taken. */
  predicate Earned(s: State) {
    s.sess.mskLen == 64 && s.sess.apnProfile.Some? && GoodS2b(s.sess)
  }

  ghost predicate Inv(s: State) {
    && (s.inManager ==> s.created)
    && (s.sess.s2b.Some? ==> s.sess.phase != New && Accepted(s.sess.s2b.value))
    && (s.eapRound > 0 ==> s.sess.phase != New && s.created)
    && (!s.created ==> s.pc == Idle && s.sess.mskLen == 0)
    && (s.created && !s.inManager ==> s.eapRound > 0 || !s.saInAuth)
    && (forall t :: t in s.deleters && s.deleters[t].kind == Teardown ==> !s.saInAuth)
    && (forall t :: t in s.deleters && s.deleters[t].kind != Teardown ==> s.eapRound > 0)
    && (s.sess.s2b.Some? ==> s.eapRound > 0)
    && (s.pc == Round1Wait ==> s.sess.phase != New)
    && (s.pc != Idle && s.pc != Round1Got && s.pc != Round1Wait && s.pc != Done ==> s.eapRound > 0)
    && (s.saMskLen != 0 ==> s.eapRound > 0)
    && (forall t :: t in s.deleters ==> DeleterOk(s.sess, s.deleters[t]))
    // The session in the table has the key of the SA, except while it is being stored.
    && (s.inManager && !s.pc.EapDone? ==> s.sess.mskLen == s.saMskLen)
    && (s.inManager && s.pc.EapDone? ==> s.pc.held)
    && (match s.pc
        case AmbrGot(held) => s.saMskLen == 64
        case Creating(ul, dl) => s.saMskLen == 64 && (ul != 0 ==> s.sess.apnProfile.Some?)
        case S2bGot(held, r) => s.saMskLen == 64 && s.sess.apnProfile.Some? && Accepted(r) && (s.inManager ==> held)
        case SpiGen => s.saMskLen == 64 && s.sess.apnProfile.Some? && (s.inManager ==> GoodS2b(s.sess))
        case GtpuGot(_) => s.saMskLen == 64 && (s.inManager ==> Earned(s))
        case AddLookup => s.saMskLen == 64 && (s.inManager ==> Earned(s))
        case AddRead => Earned(s)
        case Installing => Earned(s)
        case Activating => Earned(s) && s.sess.datapath == Some(Datapath(true, true))
        case _ => true)
  }

  lemma AnswerKeeps(s: State, a: Action)
    requires Inv(s) && a.SwmAnswer?
    ensures Inv(AttachStep(s, a))
  {}

  lemma RequestKeeps(s: State, a: Action)
    requires Inv(s) && !a.SwmAnswer?
    ensures Inv(AttachStep(s, a))
  {}

  lemma AttachStepKeeps(s: State, a: Action)
    requires Inv(s)
    ensures Inv(AttachStep(s, a))
  {
    if a.SwmAnswer? { AnswerKeeps(s, a); } else { RequestKeeps(s, a); }
  }

  /** Up to the S2b context. */
  lemma S2bStepKeeps(s: State, a: Action)
    requires Inv(s) && (a.ReadAmbr? || a.S2bAnswer? || a.LockS2b?)
    ensures Inv(InstallStep(s, a))
  {}

  /** From the SPI to the datapath. */
  lemma DatapathStepKeeps(s: State, a: Action)
    requires Inv(s) && (a.NewSpi? || a.LockGtpu? || a.LookupForAdd?)
    ensures Inv(InstallStep(s, a))
  {}

  lemma AddSessionKeeps(s: State, a: Action)
    requires Inv(s) && (a.AddSessionRead? || a.AddSessionResult?)
    ensures Inv(InstallStep(s, a))
  {}

  lemma ActivateKeeps(s: State)
    requires Inv(s)
    ensures Inv(InstallStep(s, LockActivate))
  {}

  lemma InstallStepKeeps(s: State, a: Action)
    requires Inv(s)
    ensures Inv(InstallStep(s, a))
  {
    match a
    case ReadAmbr | S2bAnswer(_) | LockS2b => S2bStepKeeps(s, a);
    case NewSpi(_, _, _) | LockGtpu | LookupForAdd => DatapathStepKeeps(s, a);
    case AddSessionRead | AddSessionResult(_) => AddSessionKeeps(s, a);
    case LockActivate => ActivateKeeps(s);
    case _ =>
  }

  lemma SpawnKeeps(s: State, a: Action)
    requires Inv(s) && (a.Spawn? || a.Finish?)
    ensures Inv(DeleteStep(s, a))
  {}

  lemma MarkKeeps(s: State, a: Action)
    requires Inv(s) && a.Mark?
    ensures Inv(DeleteStep(s, a))
  {}

  lemma SweepKeeps(s: State, a: Action)
    requires Inv(s) && a.Sweep?
    ensures Inv(DeleteStep(s, a))
  {}

  lemma DeleteStepKeeps(s: State, a: Action)
    requires Inv(s)
    ensures Inv(DeleteStep(s, a))
  {
    if a.Spawn? || a.Finish? { SpawnKeeps(s, a); } else if a.Mark? { MarkKeeps(s, a); } else if a.Sweep? { SweepKeeps(s, a); }
  }

  lemma {:induction false} RunKeeps(actions: seq<Action>)
    ensures Inv(Run(Init, actions))
    decreases |actions|
  {
    if actions == [] {
    } else {
      var front, a := actions[..|actions|-1], actions[|actions|-1];
      RunKeeps(front);
      AttachStepKeeps(Run(Init, front), a);
      InstallStepKeeps(Run(Init, front), a);
      DeleteStepKeeps(Run(Init, front), a);
    }
  }

  // ------------------------------------------------------------------ history

  /** The attach is past the verified final IKE_AUTH; past the S2b answer; past XFRM. */
  predicate PastAuth(pc: Pc) {
    pc.AmbrGot? || pc.Creating? || PastS2b(pc)
  }

  predicate PastS2b(pc: Pc) {
    pc.S2bGot? || pc.SpiGen? || PastXfrm(pc)
  }

  predicate PastXfrm(pc: Pc) {
    pc.GtpuGot? || pc.AddLookup? || pc.AddRead? || pc.Installing? || pc.Activating?
  }

  predicate Subscribed(p: Option<ApnProfile>) {
    p.Some? && p.value.ul != 0 && p.value.dl != 0
  }

  /** EAP has given a key of 64 octets. */
  ghost predicate KeyGiven(actions: seq<Action>) {
    exists p :: SwmAnswer(EapSuccess(64, p)) in actions
  }

  /** What must have happened for the state to be what it is. */
  ghost predicate History(s: State, actions: seq<Action>) {
    && (s.saMskLen == 64 ==> KeyGiven(actions))
    && (PastAuth(s.pc) ==> FinalRequest(true) in actions && KeyGiven(actions))
    && (s.pc.Creating? && s.pc.ul != 0 && s.pc.dl != 0 ==> s.sess.apnProfile == Some(ApnProfile(s.pc.ul, s.pc.dl)))
    && (PastS2b(s.pc) ==> Subscribed(s.sess.apnProfile))
    && (s.pc.S2bGot? ==> S2bAnswer(Some(s.pc.r)) in actions)
    && (s.sess.s2b.Some? ==> S2bAnswer(Some(s.sess.s2b.value)) in actions)
    && (PastXfrm(s.pc) ==> NewSpi(true, true, true) in actions)
    && (s.pc.Activating? ==> AddSessionResult(true) in actions)
  }

  lemma HistoryGrows(s: State, actions: seq<Action>, a: Action)
    requires History(s, actions)
    ensures History(s, actions + [a]) && a in actions + [a]
  {
    assert forall x :: x in actions ==> x in actions + [a];
  }

  lemma AttachHistory(s: State, actions: seq<Action>, a: Action)
    requires History(s, actions) && a in actions
    ensures History(AttachStep(s, a), actions)
  {}

  /** Up to the S2b context. */
  lemma S2bHistory(s: State, actions: seq<Action>, a: Action)
    requires History(s, actions) && a in actions && (a.ReadAmbr? || a.S2bAnswer? || a.LockS2b?)
    ensures History(InstallStep(s, a), actions)
  {}

  lemma InstallHistory(s: State, actions: seq<Action>, a: Action)
    requires History(s, actions) && a in actions
    ensures History(InstallStep(s, a), actions)
  {
    if a.ReadAmbr? || a.S2bAnswer? || a.LockS2b? {
      S2bHistory(s, actions, a);
    }
  }

  lemma {:induction false} RunHistory(actions: seq<Action>)
    ensures History(Run(Init, actions), actions)
    decreases |actions|
  {
    if actions == [] {
    } else {
      var front, a := actions[..|actions|-1], actions[|actions|-1];
      var s := Run(Init, front);
      assert actions == front + [a];
      RunHistory(front);
      HistoryGrows(s, front, a);
      AttachHistory(s, actions, a);
      InstallHistory(s, actions, a);
      assert History(DeleteStep(s, a), actions);
    }
  }

  /** In every interleaving, the step that makes a session active is the last one of the
      attach, taken from DatapathInstalling with all of CanActivate true just before, but for
      the EBI: that one is whatever the PGW's bearer context carried. Before it EAP gave a key
      of 64 octets, the AUTH payload was verified, the subscription had both rates, the PGW
      answered with the session's S2b context, and XFRM and GTP-U were installed. */
  lemma ActivationIsEarned(actions: seq<Action>, a: Action)
    requires Run(Init, actions).sess.phase != Active && Step(Run(Init, actions), a).sess.phase == Active
    ensures var s := Run(Init, actions).sess;
            var before := Move(s, DatapathInstalling);
            && a == LockActivate
            && Step(Run(Init, actions), a).sess == Move(before, Active)
            && before.s2b.Some?
            && (CanActivate(before) <==> before.s2b.value.ebi != 0)
            && KeyGiven(actions) && FinalRequest(true) in actions
            && Subscribed(before.apnProfile) && S2bAnswer(Some(before.s2b.value)) in actions
            && NewSpi(true, true, true) in actions && AddSessionResult(true) in actions
  {
    RunKeeps(actions);
    RunHistory(actions);
    OnlyLockActivates(Run(Init, actions), a);
  }

  predicate Deletable(s: State, tid: nat, kind: Kind) {
    && tid !in s.deleters && s.inManager && s.sess.phase != New
    && (if kind == Teardown then s.pc.Idle? || s.pc.Done? else s.sess.s2b.Some?)
  }

  lemma MarkAndSweep(s: State, tid: nat, kind: Kind)
    requires Deletable(s, tid, kind)
    ensures var s' := DeleteStep(DeleteStep(DeleteStep(s, Spawn(tid, kind)), Mark(tid)), Sweep(tid));
            && s'.sess.phase == Deleted && tid in s'.deleters && s'.deleters[tid] == Swept(kind) && s'.inManager
            && (kind == Teardown ==> !s'.saInAuth)
  {
    var s1 := DeleteStep(s, Spawn(tid, kind));
    assert s1.deleters[tid] == Found(kind) && s1.sess == s.sess;
  }

  lemma RunFour(actions: seq<Action>, a: Action, b: Action, c: Action, d: Action)
    ensures Run(Init, actions + [a, b, c, d]) == Step(Step(Step(Step(Run(Init, actions), a), b), c), d)
  {
    Extend(actions, a);
    Extend(actions + [a], b);
    Extend(actions + [a] + [b], c);
    Extend(actions + [a] + [b] + [c], d);
    assert actions + [a, b, c, d] == actions + [a] + [b] + [c] + [d];
  }

  /** A request of the PGW or a teardown that finds the session ends it: after its four steps the
      session is over, and out of the table, or without its S2b context after a handover. */
  lemma DeleteEnds(actions: seq<Action>, tid: nat, kind: Kind)
    requires Deletable(Run(Init, actions), tid, kind)
    ensures var s := Run(Init, actions + [Spawn(tid, kind), Mark(tid), Sweep(tid), Finish(tid)]);
            && s.sess.phase == Deleted && tid !in s.deleters
            && (if kind == PgwHandover then s.sess.s2b.None? && s.inManager else !s.inManager)
            && (kind == Teardown ==> !s.saInAuth)
  {
    RunFour(actions, Spawn(tid, kind), Mark(tid), Sweep(tid), Finish(tid));
    MarkAndSweep(Run(Init, actions), tid, kind);
  }

  lemma AttachNoActive(s: State, a: Action)
    requires s.sess.phase != Active
    ensures AttachStep(s, a).sess.phase != Active && DeleteStep(s, a).sess.phase != Active
  {}

  lemma InstallNoActive(s: State, a: Action)
    requires s.sess.phase != Active && a != LockActivate
    ensures InstallStep(s, a).sess.phase != Active
  {}

  lemma OnlyLockActivates(s: State, a: Action)
    requires Inv(s) && s.sess.phase != Active && Step(s, a).sess.phase == Active
    ensures var before := Move(s.sess, DatapathInstalling);
            && a == LockActivate && Step(s, a).sess == Move(before, Active) && before.s2b.Some?
            && (CanActivate(before) <==> before.s2b.value.ebi != 0)
  {
    AttachNoActive(s, a);
    if a != LockActivate { InstallNoActive(s, a); }
  }

  lemma AttachEnded(s: State, a: Action)
    requires Ended(s.sess.phase)
    ensures Ended(AttachStep(s, a).sess.phase)
  {}

  lemma InstallEnded(s: State, a: Action)
    requires Ended(s.sess.phase)
    ensures Ended(InstallStep(s, a).sess.phase)
  {}

  lemma StepEnded(s: State, a: Action)
    requires Ended(s.sess.phase)
    ensures Ended(Step(s, a).sess.phase)
  {
    AttachEnded(s, a);
    InstallEnded(s, a);
    assert Ended(DeleteStep(s, a).sess.phase);
  }

  /** A session that was cleaned up, failed or deleted never becomes active, whatever steps of
      the attach are still to come. */
  lemma {:induction false} EndedStaysEnded(s: State, actions: seq<Action>)
    requires Ended(s.sess.phase)
    ensures Ended(Run(s, actions).sess.phase)
    decreases |actions|
  {
    if actions == [] {
    } else {
      var front, a := actions[..|actions|-1], actions[|actions|-1];
      EndedStaysEnded(s, front);
      StepEnded(Run(s, front), a);
    }
  }

  lemma Extend(actions: seq<Action>, a: Action)
    ensures Run(Init, actions + [a]) == Step(Run(Init, actions), a)
  {
    assert (actions + [a])[..|actions|] == actions;
  }

  /** The attach up to a stored EAP result. */
  lemma EapSucceeds(p: ApnProfile) returns (actions: seq<Action>)
    ensures Run(Init, actions)
            == State(Idle, 2, true, 64, true, true, Session(EapAuthenticated, 64, Some(p), None, None), map[])
  {
    actions := [];
    Extend(actions, Round1); actions := actions + [Round1];
    Extend(actions, LockRound1); actions := actions + [LockRound1];
    Extend(actions, SwmAnswer(EapChallenge)); actions := actions + [SwmAnswer(EapChallenge)];
    assert Run(Init, actions).pc == Idle;
    Extend(actions, EapRequest); actions := actions + [EapRequest];
    var done := SwmAnswer(EapSuccess(64, Some(p)));
    Extend(actions, done); actions := actions + [done];
    assert Run(Init, actions).pc == EapDone(true, Some(p));
    Extend(actions, LockEap); actions := actions + [LockEap];
  }

  /** And on to the Create Session Request. */
  lemma S2bAsked(p: ApnProfile) returns (actions: seq<Action>)
    ensures Run(Init, actions)
            == State(Creating(p.ul, p.dl), 2, true, 64, true, true, Session(EapAuthenticated, 64, Some(p), None, None), map[])
  {
    actions := EapSucceeds(p);
    Extend(actions, FinalRequest(true)); actions := actions + [FinalRequest(true)];
    Extend(actions, ReadAmbr); actions := actions + [ReadAmbr];
  }

  /** And on to the S2b context. */
  lemma S2bSucceeds(p: ApnProfile, r: S2bContext) returns (actions: seq<Action>)
    requires p.ul != 0 && p.dl != 0 && Accepted(r)
    ensures Run(Init, actions)
            == State(SpiGen, 2, true, 64, true, true, Session(S2bAccepted, 64, Some(p), Some(r), None), map[])
  {
    actions := S2bAsked(p);
    Extend(actions, S2bAnswer(Some(r))); actions := actions + [S2bAnswer(Some(r))];
    Extend(actions, LockS2b); actions := actions + [LockS2b];
  }

  /** And on to the running AddSession. */
  lemma InstallStarts(p: ApnProfile, r: S2bContext) returns (actions: seq<Action>)
    requires p.ul != 0 && p.dl != 0 && Accepted(r)
    ensures Run(Init, actions)
            == State(AddRead, 2, false, 64, true, true, Session(GtpuInstalling, 64, Some(p), Some(r), None), map[])
  {
    actions := S2bSucceeds(p, r);
    Extend(actions, NewSpi(true, true, true)); actions := actions + [NewSpi(true, true, true)];
    Extend(actions, LockGtpu); actions := actions + [LockGtpu];
    Extend(actions, LookupForAdd); actions := actions + [LookupForAdd];
  }

  /** The attach can succeed with every S2b context that the response parser accepts, EBI 0
      included. */
  lemma AttachSucceeds(p: ApnProfile, r: S2bContext) returns (actions: seq<Action>)
    requires p.ul != 0 && p.dl != 0 && Accepted(r)
    ensures Run(Init, actions).sess == Session(Active, 64, Some(p), Some(r), Some(Datapath(true, true)))
  {
    actions := InstallStarts(p, r);
    Extend(actions, AddSessionRead); actions := actions + [AddSessionRead];
    Extend(actions, AddSessionResult(true)); actions := actions + [AddSessionResult(true)];
    Extend(actions, LockActivate); actions := actions + [LockActivate];
  }

  // --------------------------------------------------- how an attach goes on or ends

  /** The place of a step in the attach. */
  function Rank(pc: Pc): nat {
    match pc
    case Idle => 0
    case Round1Got => 1
    case Round1Wait => 2
    case EapWait => 3
    case EapDone(_, _) => 4
    case AmbrGot(_) => 5
    case Creating(_, _) => 6
    case S2bGot(_, _) => 7
    case SpiGen => 8
    case GtpuGot(_) => 9
    case AddLookup => 10
    case AddRead => 11
    case Installing => 12
    case Activating => 13
    case Done => 14
  }

  /** The action that an attach under way waits for. */
  predicate Awaited(pc: Pc, a: Action) {
    match pc
    case Idle => false
    case Round1Got => a == LockRound1
    case Round1Wait => a.SwmAnswer?
    case EapWait => a.SwmAnswer?
    case EapDone(_, _) => a == LockEap
    case AmbrGot(_) => a == ReadAmbr
    case Creating(_, _) => a.S2bAnswer?
    case S2bGot(_, _) => a == LockS2b
    case SpiGen => a.NewSpi?
    case GtpuGot(_) => a == LockGtpu
    case AddLookup => a == LookupForAdd
    case AddRead => a == AddSessionRead
    case Installing => a.AddSessionResult?
    case Activating => a == LockActivate
    case Done => false
  }

  /** What makes the attach wait for the UE's next request: an answer of the AAA server other
      than success, a stored EAP result, a missing rate, a refused S2b session, no SPI. */
  predicate GoesIdle(pc: Pc, a: Action) {
    match a
    case SwmAnswer(x) => !x.EapSuccess?
    case LockEap => true
    case S2bAnswer(reply) =>
      pc.Creating? && (pc.ul == 0 || pc.dl == 0 || reply.None? || reply.value.paa.None?
                       || reply.value.pgwControlTeid == 0 || reply.value.pgwUserTeid == 0)
    case NewSpi(ok, _, _) => !ok
    case _ => false
  }

  /** What ends it without an active session: XFRM not installed, the session or its S2b context
      gone, GTP-U not installed. */
  predicate EndsEarly(s: State, a: Action) {
    match a
    case NewSpi(ok, install, installOk) => ok && !(install && installOk)
    case LookupForAdd => !s.inManager
    case AddSessionRead => s.sess.s2b.None?
    case AddSessionResult(ok) => !ok
    case _ => false
  }

  /** No step leaves the attach where it was: it goes back to waiting for the UE or ends early in
      exactly the cases listed, and otherwise goes forward. */
  predicate Advances(s: State, a: Action, s': State) {
    && (s'.pc == Idle <==> GoesIdle(s.pc, a))
    && (s'.pc == Done <==> EndsEarly(s, a) || a == LockActivate)
    && (!GoesIdle(s.pc, a) ==> Rank(s.pc) < Rank(s'.pc))
    && s'.saInAuth == (s.saInAuth && !(a.NewSpi? && a.ok))
    && s'.eapRound == if !a.SwmAnswer? || a.answer == SwmError then s.eapRound
                      else if s.pc == Round1Wait then 1 else s.eapRound + 1
  }

  lemma EapAdvances(s: State, a: Action)
    ensures s.pc != Idle && !Awaited(s.pc, a) ==> AttachStep(s, a) == s
    ensures Awaited(s.pc, a) && (a == LockRound1 || a.SwmAnswer? || a == LockEap) ==> Advances(s, a, AttachStep(s, a))
  {}

  lemma InstallAdvances(s: State, a: Action)
    ensures s.pc != Idle && !Awaited(s.pc, a) ==> InstallStep(s, a) == s
    ensures Awaited(s.pc, a) && a != LockRound1 && !a.SwmAnswer? && a != LockEap ==> Advances(s, a, InstallStep(s, a))
  {}

  /** Every step of an attach under way advances it; those it does not wait for do nothing. */
  lemma AttachAdvances(s: State, a: Action)
    requires !a.Spawn? && !a.Mark? && !a.Sweep? && !a.Finish? && s.pc != Idle
    ensures if Awaited(s.pc, a) then Advances(s, a, Step(s, a)) else Step(s, a) == s
  {
    EapAdvances(s, a);
    InstallAdvances(s, a);
  }

  /** A request of the UE starts the step that its SA is ready for. */
  lemma RequestStarts(s: State)
    requires s.pc == Idle
    ensures Step(s, Round1).pc == Round1Got <==> s.saInAuth && s.eapRound == 0
    ensures Step(s, EapRequest).pc == EapWait <==> s.saInAuth && s.eapRound > 0
    ensures forall authOk :: Step(s, FinalRequest(authOk)).pc.AmbrGot?
              <==> s.saInAuth && s.eapRound > 0 && s.saMskLen == 64 && authOk
  {}

  /** Each of the conditions of CanActivate counts. */
  lemma CanActivateNeeds(s: Session, phase: Phase, n: nat)
    requires CanActivate(s) && phase != DatapathInstalling && n != 64
    ensures !CanActivate(s.(phase := phase)) && !CanActivate(s.(mskLen := n))
    ensures !CanActivate(s.(apnProfile := None)) && !CanActivate(s.(s2b := None)) && !CanActivate(s.(datapath := None))
    ensures var c := s.s2b.value;
            && !CanActivate(s.(s2b := Some(c.(paa := None)))) && !CanActivate(s.(s2b := Some(c.(pgwControlTeid := 0))))
            && !CanActivate(s.(s2b := Some(c.(pgwUserTeid := 0)))) && !CanActivate(s.(s2b := Some(c.(ebi := 0))))
    ensures forall b, i :: CanActivate(s.(datapath := Some(Datapath(b, i)))) <==> b && i
  {}
}
