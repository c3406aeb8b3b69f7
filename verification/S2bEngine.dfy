/** The GTPv2-C transaction engine as a state machine: client goroutines draw sequence numbers
    from a compare-and-swap allocator, register in the pending table and wait; one reader looks
    a response up, claims the table entry and delivers to the channel it looked up. Every lock
    region, atomic operation and channel operation is one step. */
module S2bEngine {
  import opened Octets
  import Gtpv2

  type Id = nat
  type Peer = nat

  datatype Msg = Msg(seqNo: nat, kind: byte, from: Peer)

  /** Where a client goroutine stands. `Leaving` has returned but not run its deferred delete. */
  datatype Phase = Fresh | Loaded(cur: nat) | Drawn | Waiting(attempt: nat) | Leaving | Done

  /** `born` counts the numbers issued when this one was; `inbox` is the channel of capacity 1. */
  datatype Txn = Txn(phase: Phase, seqNo: nat, born: nat, peer: Peer, inbox: seq<Msg>, delivered: seq<Msg>)

  /** The reader between its two lock regions, and between the claim and the send. */
  datatype Reader = Idle | Holding(id: Id, msg: Msg) | Claimed(id: Id, msg: Msg)

  datatype State = State(
    counter: nat,
    issued: seq<nat>,
    txns: map<Id, Txn>,
    pending: map<nat, Id>,
    reader: Reader,
    dropped: nat)

  /** The allocator's cap, its initial value and the strict peer check. */
  datatype Config = Config(cap: nat, start: nat, strict: bool)

  const N3_REQUESTS: nat := 3

  predicate ValidConfig(c: Config) {
    1 <= c.cap <= Gtpv2.MAX_SEQUENCE && 1 <= c.start <= c.cap
  }

  function Init(c: Config): State {
    State(c.start, [], map[], map[], Idle, 0)
  }

  datatype Action =
    | Begin(id: Id, peer: Peer)
    | Load(id: Id)
    | Cas(id: Id)
    | Register(id: Id)
    | Retransmit(id: Id)
    | Receive(id: Id)
    | GiveUp(id: Id)
    | Cleanup(id: Id)
    | Lookup(msg: Msg)
    | Claim
    | Deliver

  function Next(cap: nat, cur: nat): nat {
    if cur + 1 > cap then 1 else cur + 1
  }

  /** Echo, Delete Session, Create, Update and Delete Bearer requests never reach a channel. */
  predicate Request(kind: byte) {
    kind == 1 || kind == 36 || kind == 95 || kind == 97 || kind == 99
  }

  function Put(s: State, id: Id, t: Txn): State {
    s.(txns := s.txns[id := t])
  }

  function ClientStep(c: Config, s: State, a: Action, id: Id): State
    requires id in s.txns
  {
    var t := s.txns[id];
    match a
    case Load(_) =>
      if t.phase.Fresh? || t.phase.Loaded? then Put(s, id, t.(phase := Loaded(s.counter))) else s
    case Cas(_) =>
      if !t.phase.Loaded? then s
      else if s.counter != t.phase.cur then Put(s, id, t.(phase := Fresh))
      else
        var n := Next(c.cap, t.phase.cur);
        Put(s, id, t.(phase := Drawn, seqNo := n, born := |s.issued| + 1)).(counter := n, issued := s.issued + [n])
    case Register(_) =>
      if t.phase.Drawn? then Put(s, id, t.(phase := Waiting(1))).(pending := s.pending[t.seqNo := id]) else s
    case Retransmit(_) =>
      if t.phase.Waiting? && t.phase.attempt < N3_REQUESTS
      then Put(s, id, t.(phase := Waiting(t.phase.attempt + 1))) else s
    case Receive(_) =>
      if t.phase.Waiting? && t.inbox != [] then Put(s, id, t.(phase := Leaving, inbox := t.inbox[1..])) else s
    case GiveUp(_) =>
      if t.phase.Waiting? then Put(s, id, t.(phase := Leaving)) else s
    case Cleanup(_) =>
      if t.phase.Leaving? then Put(s, id, t.(phase := Done)).(pending := s.pending - {t.seqNo}) else s
    case _ => s
  }

  /** First lock region of the read loop: find the transaction; a wrong source is no match. */
  function LookupStep(c: Config, s: State, m: Msg): State {
    if !s.reader.Idle? || Request(m.kind) || m.seqNo !in s.pending then s
    else
      var id := s.pending[m.seqNo];
      if id !in s.txns || (c.strict && m.from != s.txns[id].peer) then s
      else s.(reader := Holding(id, m))
  }

  /** Second lock region: whatever is pending under the sequence number is removed. */
  function ClaimStep(s: State): State {
    if !s.reader.Holding? then s
    else if s.reader.msg.seqNo !in s.pending then s.(reader := Idle)
    else s.(reader := Claimed(s.reader.id, s.reader.msg), pending := s.pending - {s.reader.msg.seqNo})
  }

  /** The non-blocking send on the channel found by the look-up. */
  function DeliverStep(s: State): State {
    if !s.reader.Claimed? || s.reader.id !in s.txns then s
    else
      var t := s.txns[s.reader.id];
      if |t.inbox| < 1
      then Put(s, s.reader.id, t.(inbox := [s.reader.msg], delivered := t.delivered + [s.reader.msg])).(reader := Idle)
      else s.(reader := Idle, dropped := s.dropped + 1)
  }

  function Step(c: Config, s: State, a: Action): State {
    match a
    case Begin(id, peer) =>
      if id in s.txns then s else Put(s, id, Txn(Phase.Fresh, 0, 0, peer, [], []))
    case Lookup(m) => LookupStep(c, s, m)
    case Claim => ClaimStep(s)
    case Deliver => DeliverStep(s)
    case _ => if a.id in s.txns then ClientStep(c, s, a, a.id) else s
  }

  function Run(c: Config, acts: seq<Action>): State {
    if acts == [] then Init(c) else Step(c, Run(c, acts[..|acts| - 1]), acts[|acts| - 1])
  }

  // --------------------------------------------------------------- allocator

  /** The k-th number after `start` on the cycle 1..cap. */
  function Cycle(cap: nat, start: nat, k: nat): nat
    requires cap >= 1 && start >= 1
  {
    1 + (start - 1 + k) % cap
  }

  lemma CycleStep(cap: nat, start: nat, k: nat)
    requires cap >= 1 && start >= 1
    ensures Next(cap, Cycle(cap, start, k)) == Cycle(cap, start, k + 1)
  {
    var x := start - 1 + k;
    if x % cap == cap - 1 {
      assert x + 1 == cap * (x / cap + 1);
      MultipleMod(cap, x / cap + 1, 0);
    } else {
      assert x + 1 == cap * (x / cap) + (x % cap + 1);
      MultipleMod(cap, x / cap, x % cap + 1);
    }
  }

  lemma MultipleMod(m: nat, q: nat, r: nat)
    requires m >= 1 && r < m
    ensures (m * q + r) % m == r && (m * q + r) / m == q
  {
    var x := m * q + r;
    var k := x / m - q;
    assert x == m * (x / m) + x % m;
    assert m * k == m * (x / m) - m * q;
    Grows(m, k);
  }

  lemma Grows(m: int, k: int)
    requires m >= 1
    ensures (k >= 1 ==> m * k >= m) && (k <= -1 ==> m * k <= -m)
  {}

  lemma CycleRange(cap: nat, start: nat, k: nat)
    requires cap >= 1 && start >= 1
    ensures 1 <= Cycle(cap, start, k) <= cap
    ensures start <= cap ==> Cycle(cap, start, 0) == start
  {
    if start <= cap { MultipleMod(cap, 0, start - 1); }
  }

  lemma InitIssued(c: Config)
    requires ValidConfig(c)
    ensures Issued(c, Init(c)) && Exact(Init(c))
  {
    CycleRange(c.cap, c.start, 0);
  }

  /** Within one turn of the cycle no number repeats. */
  lemma CycleDistinct(cap: nat, start: nat, j: nat, k: nat)
    requires cap >= 1 && start >= 1 && j < k < j + cap
    ensures Cycle(cap, start, j) != Cycle(cap, start, k)
  {
    var x, d := start - 1 + j, k - j;
    var q, r := x / cap, x % cap;
    assert x == cap * q + r;
    if r + d < cap {
      MultipleMod(cap, q, r + d);
      assert start - 1 + k == cap * q + (r + d);
    } else {
      MultipleMod(cap, q + 1, r + d - cap);
      assert start - 1 + k == cap * (q + 1) + (r + d - cap);
    }
  }

  // ---------------------------------------------------------- single delivery

  predicate Registered(t: Txn) {
    t.phase.Waiting? || t.phase.Leaving?
  }

  predicate Fitting(c: Config, t: Txn, m: Msg) {
    m.seqNo == t.seqNo && (c.strict ==> m.from == t.peer)
  }

  /** A transaction has been sent at most one message, its own, and it lies in the channel or
      has been taken out. */
  predicate TxnOk(c: Config, t: Txn) {
    && |t.delivered| <= 1 && (t.inbox == [] || t.inbox == t.delivered)
    && (t.delivered != [] ==> Fitting(c, t, t.delivered[0]) && (Registered(t) || t.phase.Done?))
    && (t.phase.Waiting? ==> 1 <= t.phase.attempt <= N3_REQUESTS)
  }

  /** A table entry is under its transaction's number, and nothing was delivered to it yet. */
  predicate EntryOk(s: State, n: nat) {
    n in s.pending && s.pending[n] in s.txns &&
    var t := s.txns[s.pending[n]];
    t.seqNo == n && Registered(t) && t.delivered == []
  }

  /** The reader's transaction has received nothing; once claimed it is out of the table. */
  predicate ReaderOk(c: Config, s: State) {
    s.reader.Idle? || (
      && s.reader.id in s.txns
      && var t := s.txns[s.reader.id];
      && Fitting(c, t, s.reader.msg) && t.delivered == [] && (Registered(t) || t.phase.Done?)
      && (s.reader.Claimed? ==> t.seqNo !in s.pending || s.pending[t.seqNo] != s.reader.id))
  }

  ghost predicate Inv(c: Config, s: State) {
    && (forall id :: id in s.txns ==> TxnOk(c, s.txns[id]))
    && (forall n :: n in s.pending ==> EntryOk(s, n))
    && ReaderOk(c, s)
    && s.dropped == 0
  }

  lemma ClientTxnOk(c: Config, s: State, a: Action, id: Id)
    requires id in s.txns && TxnOk(c, s.txns[id])
    ensures TxnOk(c, ClientStep(c, s, a, id).txns[id])
    ensures forall id2 :: id2 != id ==> (id2 in s.txns <==> id2 in ClientStep(c, s, a, id).txns)
    ensures forall id2 :: id2 in s.txns && id2 != id ==> ClientStep(c, s, a, id).txns[id2] == s.txns[id2]
  {}

  lemma ClientEntryOk(c: Config, s: State, a: Action, id: Id, n: nat)
    requires id in s.txns && TxnOk(c, s.txns[id]) && (n in s.pending ==> EntryOk(s, n))
    ensures n in ClientStep(c, s, a, id).pending ==> EntryOk(ClientStep(c, s, a, id), n)
  {}

  lemma ClientReaderOk(c: Config, s: State, a: Action, id: Id)
    requires Inv(c, s) && id in s.txns
    ensures ReaderOk(c, ClientStep(c, s, a, id)) && ClientStep(c, s, a, id).dropped == 0
  {}

  lemma ClientKeeps(c: Config, s: State, a: Action, id: Id)
    requires Inv(c, s) && id in s.txns
    ensures Inv(c, ClientStep(c, s, a, id))
  {
    var s' := ClientStep(c, s, a, id);
    ClientTxnOk(c, s, a, id);
    ClientReaderOk(c, s, a, id);
    forall n | n in s'.pending
      ensures EntryOk(s', n)
    {
      ClientEntryOk(c, s, a, id, n);
    }
  }

  lemma LookupKeeps(c: Config, s: State, m: Msg)
    requires Inv(c, s)
    ensures Inv(c, LookupStep(c, s, m))
  {
    if m.seqNo in s.pending { assert EntryOk(s, m.seqNo); }
    assert forall n :: n in s.pending ==> EntryOk(s, n) ==> EntryOk(LookupStep(c, s, m), n);
  }

  lemma ClaimKeeps(c: Config, s: State)
    requires Inv(c, s)
    ensures Inv(c, ClaimStep(s))
  {
    var s' := ClaimStep(s);
    forall n | n in s'.pending
      ensures EntryOk(s', n)
    {
      assert EntryOk(s, n);
    }
  }

  /** The channel has room, so the send never drops. */
  lemma DeliverKeeps(c: Config, s: State)
    requires Inv(c, s)
    ensures Inv(c, DeliverStep(s))
    ensures s.reader.Claimed? ==> s.reader.id in s.txns && s.txns[s.reader.id].inbox == []
  {
    var s' := DeliverStep(s);
    if s.reader.Claimed? {
      var id, m := s.reader.id, s.reader.msg;
      assert TxnOk(c, s.txns[id]) && s.txns[id].delivered + [m] == [m];
      var t' := s.txns[id].(inbox := [m], delivered := [m]);
      assert s' == Put(s, id, t').(reader := Idle) && TxnOk(c, t');
      forall n | n in s'.pending ensures EntryOk(s', n) {
        assert EntryOk(s, n);
        assert s.pending[n] != id;
      }
    }
  }

  lemma StepKeeps(c: Config, s: State, a: Action)
    requires Inv(c, s)
    ensures Inv(c, Step(c, s, a))
  {
    match a
    case Begin(id, peer) =>
      var s' := Step(c, s, a);
      forall n | n in s'.pending
        ensures EntryOk(s', n)
      {
        assert EntryOk(s, n);
      }
    case Lookup(m) => LookupKeeps(c, s, m);
    case Claim => ClaimKeeps(c, s);
    case Deliver => DeliverKeeps(c, s);
    case _ => if a.id in s.txns { ClientKeeps(c, s, a, a.id); }
  }

  lemma {:induction false} RunKeeps(c: Config, acts: seq<Action>)
    ensures Inv(c, Run(c, acts))
  {
    if acts == [] {
    } else {
      RunKeeps(c, acts[..|acts| - 1]);
      StepKeeps(c, Run(c, acts[..|acts| - 1]), acts[|acts| - 1]);
    }
  }

  /** Single delivery, in every interleaving: a transaction's channel is sent at most one
      message, with its own sequence number and, under the strict check, from the peer it was
      sent to; and every send finds room. It does not depend on how often numbers repeat. */
  lemma SingleDelivery(c: Config, acts: seq<Action>, id: Id)
    requires id in Run(c, acts).txns
    ensures var t := Run(c, acts).txns[id];
            |t.delivered| <= 1 && forall m :: m in t.delivered ==> Fitting(c, t, m)
    ensures Run(c, acts).dropped == 0
  {
    RunKeeps(c, acts);
    DeliveredOnce(c, Run(c, acts), id);
  }

  lemma DeliveredOnce(c: Config, s: State, id: Id)
    requires Inv(c, s) && id in s.txns
    ensures |s.txns[id].delivered| <= 1 && forall m :: m in s.txns[id].delivered ==> Fitting(c, s.txns[id], m)
    ensures s.dropped == 0
  {
    assert TxnOk(c, s.txns[id]);
  }

  // ------------------------------------------------------ exact pending table

  /** Drawn and not yet cleaned up, or still in the reader's hand. */
  predicate Active(s: State, id: Id) {
    id in s.txns && (s.txns[id].phase.Drawn? || Registered(s.txns[id]) || (!s.reader.Idle? && s.reader.id == id))
  }

  /** Fewer than cap numbers were issued since each active transaction's own. */
  ghost predicate Roomy(c: Config, s: State) {
    forall id :: Active(s, id) ==> |s.issued| - s.txns[id].born < c.cap
  }

  ghost predicate RoomyRun(c: Config, acts: seq<Action>) {
    forall i :: 0 <= i <= |acts| ==> Roomy(c, Run(c, acts[..i]))
  }

  predicate HasNumber(t: Txn) {
    !t.phase.Fresh? && !t.phase.Loaded?
  }

  predicate NumberOk(s: State, t: Txn) {
    HasNumber(t) ==> 1 <= t.born <= |s.issued| && t.seqNo == s.issued[t.born - 1]
  }

  /** The numbers issued are the cycle, in order, and each went to one transaction. */
  ghost predicate Issued(c: Config, s: State)
    requires ValidConfig(c)
  {
    && (forall k :: 0 <= k < |s.issued| ==> s.issued[k] == Cycle(c.cap, c.start, k + 1))
    && s.counter == Cycle(c.cap, c.start, |s.issued|)
    && (forall id :: id in s.txns ==> NumberOk(s, s.txns[id]))
    && (forall id, id' :: id in s.txns && id' in s.txns && id != id' && HasNumber(s.txns[id]) && HasNumber(s.txns[id'])
          ==> s.txns[id].born != s.txns[id'].born)
  }

  /** Registered, and neither claimed by the reader nor delivered to. */
  predicate Unanswered(s: State, id: Id) {
    && id in s.txns && Registered(s.txns[id]) && s.txns[id].delivered == []
    && !(s.reader.Claimed? && s.reader.id == id)
  }

  predicate InTable(s: State, id: Id) {
    id in s.txns && s.txns[id].seqNo in s.pending && s.pending[s.txns[id].seqNo] == id
  }

  /** The pending table holds exactly the unanswered transactions. */
  ghost predicate Exact(s: State) {
    forall id :: InTable(s, id) <==> Unanswered(s, id)
  }

  lemma ActiveDistinct(c: Config, s: State, id: Id, id': Id)
    requires ValidConfig(c) && Inv(c, s) && Issued(c, s) && Roomy(c, s) && Active(s, id) && Active(s, id') && id != id'
    ensures s.txns[id].seqNo != s.txns[id'].seqNo
  {
    var t, t' := s.txns[id], s.txns[id'];
    assert NumberOk(s, t) && NumberOk(s, t');
    if t.born < t'.born {
      CycleDistinct(c.cap, c.start, t.born, t'.born);
    } else {
      CycleDistinct(c.cap, c.start, t'.born, t.born);
    }
  }

  /** The allocator's state changes only by drawing the next number. */
  lemma IssuedGrows(c: Config, s: State, a: Action)
    ensures var s' := Step(c, s, a);
            || (s'.issued == s.issued && s'.counter == s.counter)
            || (s'.counter == Next(c.cap, s.counter) && s'.issued == s.issued + [s'.counter])
  {}

  lemma NumberKept(c: Config, s: State, a: Action, id: Id)
    requires ValidConfig(c) && id in Step(c, s, a).txns && (id in s.txns ==> NumberOk(s, s.txns[id]))
    ensures NumberOk(Step(c, s, a), Step(c, s, a).txns[id])
  {
    StepNumbers(c, s, a, id);
    IssuedGrows(c, s, a);
  }

  lemma StepIssued(c: Config, s: State, a: Action)
    requires ValidConfig(c) && Inv(c, s) && Issued(c, s)
    ensures Issued(c, Step(c, s, a))
  {
    var s' := Step(c, s, a);
    CycleStep(c.cap, c.start, |s.issued|);
    IssuedGrows(c, s, a);
    forall id | id in s'.txns
      ensures NumberOk(s', s'.txns[id])
    {
      NumberKept(c, s, a, id);
    }
    BornDistinct(c, s, a);
  }

  /** A step gives a number to at most one transaction, and that number's turn is new. */
  lemma StepNumbers(c: Config, s: State, a: Action, id: Id)
    requires ValidConfig(c) && id in Step(c, s, a).txns
    ensures var t := Step(c, s, a).txns[id];
            HasNumber(t) ==>
              || (id in s.txns && HasNumber(s.txns[id]) && t.born == s.txns[id].born && t.seqNo == s.txns[id].seqNo)
              || (a == Cas(id) && t.born == |s.issued| + 1 && Step(c, s, a).issued == s.issued + [t.seqNo])
  {}

  lemma BornDistinct(c: Config, s: State, a: Action)
    requires ValidConfig(c) && Issued(c, s)
    ensures var s' := Step(c, s, a);
            forall id, id' :: id in s'.txns && id' in s'.txns && id != id' && HasNumber(s'.txns[id]) && HasNumber(s'.txns[id'])
              ==> s'.txns[id].born != s'.txns[id'].born
  {
    var s' := Step(c, s, a);
    forall id, id' | id in s'.txns && id' in s'.txns && id != id' && HasNumber(s'.txns[id]) && HasNumber(s'.txns[id'])
      ensures s'.txns[id].born != s'.txns[id'].born
    {
      StepNumbers(c, s, a, id);
      StepNumbers(c, s, a, id');
      assert id in s.txns ==> NumberOk(s, s.txns[id]);
      assert id' in s.txns ==> NumberOk(s, s.txns[id']);
    }
  }

  /** The step touches the table entry of another transaction: a registration overwrites it, a
      deferred delete or a claim removes it. */
  predicate Clash(s: State, a: Action) {
    match a
    case Register(id) => id in s.txns && s.txns[id].phase.Drawn? && s.txns[id].seqNo in s.pending
    case Cleanup(id) =>
      && id in s.txns && s.txns[id].phase.Leaving?
      && s.txns[id].seqNo in s.pending && s.pending[s.txns[id].seqNo] != id
    case Claim =>
      s.reader.Holding? && s.reader.msg.seqNo in s.pending && s.pending[s.reader.msg.seqNo] != s.reader.id
    case _ => false
  }

  lemma RegisterExactIff(c: Config, s: State, id: Id)
    requires Inv(c, s) && Exact(s) && id in s.txns && s.txns[id].phase.Drawn?
    ensures Exact(ClientStep(c, s, Register(id), id)) <==> s.txns[id].seqNo !in s.pending
  {
    var s', n := ClientStep(c, s, Register(id), id), s.txns[id].seqNo;
    assert TxnOk(c, s.txns[id]);
    if n in s.pending {
      var other := s.pending[n];
      assert EntryOk(s, n) && InTable(s, other);
      assert Unanswered(s', other) && !InTable(s', other);
    } else {
      forall id2
        ensures InTable(s', id2) <==> Unanswered(s', id2)
      {
        assert InTable(s, id2) <==> Unanswered(s, id2);
      }
    }
  }

  lemma CleanupExactIff(c: Config, s: State, id: Id)
    requires Inv(c, s) && Exact(s) && id in s.txns && s.txns[id].phase.Leaving?
    ensures Exact(ClientStep(c, s, Cleanup(id), id)) <==> (s.txns[id].seqNo in s.pending ==> s.pending[s.txns[id].seqNo] == id)
  {
    var s', n := ClientStep(c, s, Cleanup(id), id), s.txns[id].seqNo;
    if n in s.pending && s.pending[n] != id {
      var other := s.pending[n];
      assert EntryOk(s, n) && InTable(s, other);
      assert Unanswered(s', other) && !InTable(s', other);
    } else {
      forall id2
        ensures InTable(s', id2) <==> Unanswered(s', id2)
      {
        assert InTable(s, id2) <==> Unanswered(s, id2);
      }
    }
  }

  lemma ClaimExactIff(c: Config, s: State)
    requires Inv(c, s) && Exact(s) && s.reader.Holding?
    ensures Exact(ClaimStep(s)) <==> (s.reader.msg.seqNo in s.pending ==> s.pending[s.reader.msg.seqNo] == s.reader.id)
  {
    var s', n := ClaimStep(s), s.reader.msg.seqNo;
    if n in s.pending && s.pending[n] != s.reader.id {
      var other := s.pending[n];
      assert EntryOk(s, n) && InTable(s, other);
      assert Unanswered(s', other) && !InTable(s', other);
    } else {
      forall id2
        ensures InTable(s', id2) <==> Unanswered(s', id2)
      {
        assert InTable(s, id2) <==> Unanswered(s, id2);
      }
    }
  }

  /** A step keeps the table exact if and only if it does not clash. */
  lemma StepExactIff(c: Config, s: State, a: Action)
    requires Inv(c, s) && Exact(s)
    ensures Exact(Step(c, s, a)) <==> !Clash(s, a)
  {
    if a.Register? && a.id in s.txns && s.txns[a.id].phase.Drawn? {
      RegisterExactIff(c, s, a.id);
    } else if a.Cleanup? && a.id in s.txns && s.txns[a.id].phase.Leaving? {
      CleanupExactIff(c, s, a.id);
    } else if a.Claim? && s.reader.Holding? {
      ClaimExactIff(c, s);
    } else {
      OtherExact(c, s, a);
    }
  }

  /** With fewer than cap numbers issued in any active transaction's life no step clashes. */
  lemma RoomyNoClash(c: Config, s: State, a: Action)
    requires ValidConfig(c) && Inv(c, s) && Issued(c, s) && Roomy(c, s) && Exact(s)
    ensures !Clash(s, a)
  {
    match a
    case Register(id) =>
      if id in s.txns && s.txns[id].phase.Drawn? && s.txns[id].seqNo in s.pending {
        assert EntryOk(s, s.txns[id].seqNo);
        ActiveDistinct(c, s, id, s.pending[s.txns[id].seqNo]);
      }
    case Cleanup(id) =>
      if id in s.txns && s.txns[id].phase.Leaving? && s.txns[id].seqNo in s.pending && s.pending[s.txns[id].seqNo] != id {
        assert EntryOk(s, s.txns[id].seqNo);
        ActiveDistinct(c, s, id, s.pending[s.txns[id].seqNo]);
      }
    case Claim =>
      if s.reader.Holding? && s.reader.msg.seqNo in s.pending && s.pending[s.reader.msg.seqNo] != s.reader.id {
        assert EntryOk(s, s.reader.msg.seqNo);
        ActiveDistinct(c, s, s.reader.id, s.pending[s.reader.msg.seqNo]);
      }
    case _ =>
  }

  /** The other steps leave the table alone, and with it who is unanswered. */
  lemma OtherSame(c: Config, s: State, a: Action, id: Id)
    requires Inv(c, s) && Exact(s)
    requires a.Register? && a.id in s.txns ==> !s.txns[a.id].phase.Drawn?
    requires a.Cleanup? && a.id in s.txns ==> !s.txns[a.id].phase.Leaving?
    requires a.Claim? ==> !s.reader.Holding?
    ensures Step(c, s, a).pending == s.pending
    ensures Unanswered(Step(c, s, a), id) <==> Unanswered(s, id)
    ensures id in Step(c, s, a).txns && Registered(Step(c, s, a).txns[id]) ==>
              id in s.txns && Registered(s.txns[id]) && Step(c, s, a).txns[id].seqNo == s.txns[id].seqNo
    ensures id in s.txns && Registered(s.txns[id]) ==> id in Step(c, s, a).txns && Registered(Step(c, s, a).txns[id])
  {}

  lemma OtherExact(c: Config, s: State, a: Action)
    requires Inv(c, s) && Exact(s)
    requires a.Register? && a.id in s.txns ==> !s.txns[a.id].phase.Drawn?
    requires a.Cleanup? && a.id in s.txns ==> !s.txns[a.id].phase.Leaving?
    requires a.Claim? ==> !s.reader.Holding?
    ensures Exact(Step(c, s, a))
  {
    var s' := Step(c, s, a);
    StepKeeps(c, s, a);
    forall id
      ensures InTable(s', id) <==> Unanswered(s', id)
    {
      assert InTable(s, id) <==> Unanswered(s, id);
      OtherSame(c, s, a, id);
      if InTable(s', id) { assert EntryOk(s', s'.txns[id].seqNo); }
    }
  }

  ghost predicate ExactRun(c: Config, acts: seq<Action>) {
    forall i :: 0 <= i <= |acts| ==> Exact(Run(c, acts[..i]))
  }

  ghost predicate ClashFree(c: Config, acts: seq<Action>) {
    forall i :: 0 <= i < |acts| ==> !Clash(Run(c, acts[..i]), acts[i])
  }

  lemma Prefixes(acts: seq<Action>, a: Action, i: nat)
    requires i <= |acts|
    ensures (acts + [a])[..i] == acts[..i] && acts[..|acts|] == acts
  {}

  lemma ExactPrefix(c: Config, acts: seq<Action>, a: Action)
    ensures ExactRun(c, acts + [a]) <==> ExactRun(c, acts) && Exact(Run(c, acts + [a]))
  {
    var all := acts + [a];
    assert all[..|all|] == all;
    forall i | 0 <= i <= |acts| ensures all[..i] == acts[..i] { Prefixes(acts, a, i); }
    if ExactRun(c, all) {
      forall i | 0 <= i <= |acts| ensures Exact(Run(c, acts[..i])) {
        assert Exact(Run(c, all[..i]));
      }
      assert Exact(Run(c, all[..|all|]));
    } else {
      var i :| 0 <= i <= |all| && !Exact(Run(c, all[..i]));
      assert i <= |acts| ==> !Exact(Run(c, acts[..i]));
    }
  }

  lemma ClashPrefix(c: Config, acts: seq<Action>, a: Action)
    ensures ClashFree(c, acts + [a]) <==> ClashFree(c, acts) && !Clash(Run(c, acts), a)
  {
    var all := acts + [a];
    Prefixes(acts, a, |acts|);
    if ClashFree(c, all) {
      forall i | 0 <= i < |acts| ensures !Clash(Run(c, acts[..i]), acts[i]) {
        Prefixes(acts, a, i);
        assert !Clash(Run(c, all[..i]), all[i]);
      }
      assert !Clash(Run(c, all[..|acts|]), all[|acts|]);
    } else {
      var i :| 0 <= i < |all| && Clash(Run(c, all[..i]), all[i]);
      if i < |acts| { Prefixes(acts, a, i); }
    }
  }

  /** The pending table is exact after every step of a run if and only if no step clashes. */
  lemma {:induction false} RunExactIff(c: Config, acts: seq<Action>)
    ensures ExactRun(c, acts) <==> ClashFree(c, acts)
  {
    if acts == [] {
      assert acts[..0] == [];
    } else {
      var front, a := acts[..|acts| - 1], acts[|acts| - 1];
      assert acts == front + [a];
      RunExactIff(c, front);
      ExactPrefix(c, front, a);
      ClashPrefix(c, front, a);
      assert front[..|front|] == front;
      if ExactRun(c, front) {
        RunKeeps(c, front);
        assert Exact(Run(c, front[..|front|]));
        StepExactIff(c, Run(c, front), a);
      }
    }
  }

  /** In every run in which fewer than cap numbers are issued during any transaction's life,
      the numbers follow the cycle and the pending table is exact after every step. */
  lemma {:induction false} RunExact(c: Config, acts: seq<Action>)
    requires ValidConfig(c) && RoomyRun(c, acts)
    ensures Issued(c, Run(c, acts)) && Exact(Run(c, acts)) && ExactRun(c, acts)
  {
    RunIssued(c, acts);
    RoomyClashFree(c, acts);
    RunExactIff(c, acts);
    assert acts[..|acts|] == acts;
  }

  lemma {:induction false} RoomyClashFree(c: Config, acts: seq<Action>)
    requires ValidConfig(c) && RoomyRun(c, acts)
    ensures ClashFree(c, acts)
  {
    if acts == [] {
    } else {
      var front, a := acts[..|acts| - 1], acts[|acts| - 1];
      assert acts == front + [a];
      assert forall i :: 0 <= i <= |front| ==> front[..i] == acts[..i];
      RoomyClashFree(c, front);
      RunExactIff(c, front);
      RunKeeps(c, front);
      RunIssued(c, front);
      assert front[..|front|] == front && Roomy(c, Run(c, acts[..|front|]));
      assert Exact(Run(c, front[..|front|]));
      RoomyNoClash(c, Run(c, front), a);
      ClashPrefix(c, front, a);
    }
  }

  /** The allocator alone: whatever the interleaving, the k-th success returns the k-th number. */
  lemma {:induction false} RunIssued(c: Config, acts: seq<Action>)
    requires ValidConfig(c)
    ensures Issued(c, Run(c, acts))
  {
    if acts == [] {
      InitIssued(c);
    } else {
      var front := acts[..|acts| - 1];
      RunIssued(c, front);
      RunKeeps(c, front);
      StepIssued(c, Run(c, front), acts[|acts| - 1]);
    }
  }

  /** What the PGW asks: Echo, Delete Session, Create, Update and Delete Bearer Request. */
  const REQUESTS: set<byte> := {1, 36, 95, 97, 99}

  /** In such a run a fitting message that is no request, such as the responses 2, 33 and 37 that
      the client waits for, reaches the unanswered transaction if the reader gets to finish
      before the goroutine leaves. */
  lemma ResponseReaches(c: Config, acts: seq<Action>, id: Id, m: Msg)
    requires ValidConfig(c) && RoomyRun(c, acts)
    requires var s := Run(c, acts);
             Unanswered(s, id) && s.reader.Idle? && Fitting(c, s.txns[id], m) && m.kind !in REQUESTS
    ensures var s := Run(c, acts + [Lookup(m), Claim, Deliver]);
            id in s.txns && s.txns[id].delivered == [m]
            && (Run(c, acts).txns[id].phase.Waiting? ==> s.txns[id].phase.Waiting? && s.txns[id].inbox == [m])
  {
    RunExact(c, acts);
    RunKeeps(c, acts);
    ThreeSteps(c, Run(c, acts), id, m);
    RunThree(c, acts, Lookup(m), Claim, Deliver);
  }

  lemma ThreeSteps(c: Config, s: State, id: Id, m: Msg)
    requires Inv(c, s) && Exact(s) && Unanswered(s, id) && s.reader.Idle? && Fitting(c, s.txns[id], m)
    requires m.kind !in REQUESTS
    ensures var s' := DeliverStep(ClaimStep(LookupStep(c, s, m)));
            && id in s'.txns && s'.txns[id] == s.txns[id].(inbox := [m], delivered := [m])
  {
    assert InTable(s, id) && TxnOk(c, s.txns[id]);
    assert LookupStep(c, s, m) == s.(reader := Holding(id, m));
    assert s.txns[id].delivered + [m] == [m];
  }

  /** A waiting transaction whose channel holds a response takes it, leaves, and ends with its
      number out of the table. */
  lemma ResponseTaken(c: Config, acts: seq<Action>, id: Id)
    requires id in Run(c, acts).txns && Run(c, acts).txns[id].phase.Waiting? && Run(c, acts).txns[id].inbox != []
    ensures var t, s := Run(c, acts).txns[id], Run(c, acts + [Receive(id), Cleanup(id)]);
            id in s.txns && s.txns[id] == t.(phase := Done, inbox := []) && t.seqNo !in s.pending
  {
    RunKeeps(c, acts);
    assert TxnOk(c, Run(c, acts).txns[id]);
    var a1, a2 := acts + [Receive(id)], acts + [Receive(id), Cleanup(id)];
    assert a1[..|a1| - 1] == acts && a2[..|a2| - 1] == a1;
  }

  /** No request of the PGW is ever in a channel, in the reader's hand or delivered. */
  ghost predicate NoRequests(s: State) {
    && (!s.reader.Idle? ==> s.reader.msg.kind !in REQUESTS)
    && forall id, m :: id in s.txns && m in s.txns[id].delivered ==> m.kind !in REQUESTS
  }

  lemma StepNoRequests(c: Config, s: State, a: Action)
    requires NoRequests(s)
    ensures NoRequests(Step(c, s, a))
  {}

  lemma {:induction false} RequestsNeverDelivered(c: Config, acts: seq<Action>)
    ensures NoRequests(Run(c, acts))
  {
    if acts == [] {
    } else {
      RequestsNeverDelivered(c, acts[..|acts| - 1]);
      StepNoRequests(c, Run(c, acts[..|acts| - 1]), acts[|acts| - 1]);
    }
  }

  /** A waiting transaction can always end: giving up, or taking what was delivered, and then
      cleaning up, leaves it done and its number free, and touches no other transaction. */
  lemma TransactionEnds(c: Config, s: State, id: Id)
    requires id in s.txns && s.txns[id].phase.Waiting?
    ensures var s' := Step(c, Step(c, s, GiveUp(id)), Cleanup(id));
            && s'.txns == s.txns[id := s.txns[id].(phase := Done)] && s'.pending == s.pending - {s.txns[id].seqNo}
    ensures s.txns[id].inbox != [] ==>
              var s' := Step(c, Step(c, s, Receive(id)), Cleanup(id));
              && s'.txns == s.txns[id := s.txns[id].(phase := Done, inbox := s.txns[id].inbox[1..])]
              && s'.pending == s.pending - {s.txns[id].seqNo}
  {}

  /** The read loop never gets stuck: a claim and a delivery later it is back at the socket,
      whatever the other goroutines did in between. */
  lemma ReaderReturns(c: Config, s: State)
    requires Inv(c, s)
    ensures s.reader.Holding? ==> !ClaimStep(s).reader.Holding?
    ensures s.reader.Claimed? ==> DeliverStep(s).reader.Idle?
    ensures DeliverStep(ClaimStep(s)).reader.Idle?
  {}

  /** A request is sent at most three times, and three times if nobody answers. */
  lemma ThreeAttempts(c: Config, acts: seq<Action>, id: Id)
    requires id in Run(c, acts).txns
    ensures var t := Run(c, acts).txns[id];
            && (t.phase.Waiting? ==> 1 <= t.phase.attempt <= 3)
            && (t.phase.Drawn? ==>
                  var s := Run(c, acts + [Register(id), Retransmit(id), Retransmit(id)]);
                  id in s.txns && s.txns[id] == t.(phase := Waiting(3)))
  {
    RunKeeps(c, acts);
    assert TxnOk(c, Run(c, acts).txns[id]);
    RunThree(c, acts, Register(id), Retransmit(id), Retransmit(id));
  }

  lemma RunThree(c: Config, acts: seq<Action>, a: Action, b: Action, d: Action)
    ensures Run(c, acts + [a, b, d]) == Step(c, Step(c, Step(c, Run(c, acts), a), b), d)
  {
    var a1, a2, a3 := acts + [a], acts + [a, b], acts + [a, b, d];
    assert a1[..|a1| - 1] == acts && a2[..|a2| - 1] == a1 && a3[..|a3| - 1] == a2;
    assert Run(c, a1) == Step(c, Run(c, acts), a);
    assert Run(c, a2) == Step(c, Run(c, a1), b);
  }

  /** With repeated numbers the table can lose a waiting transaction: with cap 1 the second
      transaction takes the first one's place. */
  lemma RepeatLoses() returns (c: Config, acts: seq<Action>)
    ensures ValidConfig(c)
    ensures var s := Run(c, acts); Unanswered(s, 0) && !InTable(s, 0)
  {
    c := Config(1, 1, true);
    acts := [Begin(0, 7), Load(0), Cas(0), Register(0), Begin(1, 7), Load(1), Cas(1), Register(1)];
    var s := RepeatFirst(c, acts);
    s := RepeatSecond(c, acts, s);
    assert acts[..8] == acts;
  }

  lemma SecondDraws(c: Config, s0: State)
    requires c == Config(1, 1, true)
    requires s0 == State(1, [1], map[0 := Txn(Waiting(1), 1, 1, 7, [], [])], map[1 := 0], Idle, 0)
    ensures Step(c, Step(c, Step(c, s0, Begin(1, 7)), Load(1)), Cas(1))
            == State(1, [1, 1], map[0 := s0.txns[0], 1 := Txn(Drawn, 1, 2, 7, [], [])], map[1 := 0], Idle, 0)
  {
    var s1 := Step(c, s0, Begin(1, 7));
    assert s1.txns == map[0 := s0.txns[0], 1 := Txn(Phase.Fresh, 0, 0, 7, [], [])];
    var s2 := Step(c, s1, Load(1));
    assert s2.txns == map[0 := s0.txns[0], 1 := Txn(Loaded(1), 0, 0, 7, [], [])];
  }

  lemma SecondOverwrites(c: Config, s: State)
    requires c == Config(1, 1, true) && 0 in s.txns && s.txns[0] == Txn(Waiting(1), 1, 1, 7, [], [])
    requires 1 in s.txns && s.txns[1] == Txn(Drawn, 1, 2, 7, [], []) && s.pending == map[1 := 0] && s.reader.Idle?
    ensures var s' := Step(c, s, Register(1)); Unanswered(s', 0) && !InTable(s', 0)
  {
    assert Step(c, s, Register(1)).pending[1] == 1;
  }

  lemma RepeatSecond(c: Config, acts: seq<Action>, s0: State) returns (s: State)
    requires c == Config(1, 1, true) && |acts| >= 8
    requires acts[4] == Begin(1, 7) && acts[5] == Load(1) && acts[6] == Cas(1) && acts[7] == Register(1)
    requires s0 == State(1, [1], map[0 := Txn(Waiting(1), 1, 1, 7, [], [])], map[1 := 0], Idle, 0)
    requires Run(c, acts[..4]) == s0
    ensures Run(c, acts[..8]) == s && Unanswered(s, 0) && !InTable(s, 0)
  {
    SecondDraws(c, s0);
    s := Unroll(c, acts, 5, s0);
    s := Unroll(c, acts, 6, s);
    s := Unroll(c, acts, 7, s);
    SecondOverwrites(c, s);
    s := Unroll(c, acts, 8, s);
  }

  lemma RepeatFirst(c: Config, acts: seq<Action>) returns (s: State)
    requires c == Config(1, 1, true) && |acts| >= 4
    requires acts[0] == Begin(0, 7) && acts[1] == Load(0) && acts[2] == Cas(0) && acts[3] == Register(0)
    ensures s == State(1, [1], map[0 := Txn(Waiting(1), 1, 1, 7, [], [])], map[1 := 0], Idle, 0)
    ensures Run(c, acts[..4]) == s
  {
    assert acts[..0] == [];
    s := Unroll(c, acts, 1, Init(c));
    s := Unroll(c, acts, 2, s);
    assert s.txns == map[0 := Txn(Loaded(1), 0, 0, 7, [], [])];
    s := Unroll(c, acts, 3, s);
    assert s.txns == map[0 := Txn(Drawn, 1, 1, 7, [], [])] && s.issued == [1];
    s := Unroll(c, acts, 4, s);
  }

  lemma Unroll(c: Config, acts: seq<Action>, n: nat, s: State) returns (s': State)
    requires 0 < n <= |acts| && Run(c, acts[..n - 1]) == s
    ensures s' == Step(c, s, acts[n - 1]) && Run(c, acts[..n]) == s'
  {
    assert acts[..n][..n - 1] == acts[..n - 1];
    s' := Step(c, s, acts[n - 1]);
  }
}
