/** The Create Bearer response cache: a retransmitted request is answered from the cache and
    does not reach the handler a second time. */
module BearerCache {
  import opened Octets
  import opened Gtpv2
  import opened Gtpv2Bearer

  const LIFETIME: nat := 60
  const BUFFER: nat := 4096

  type Peer = nat

  datatype Key = Key(peer: Peer, teid: nat, seqNo: nat, kind: byte)

  datatype Entry = Entry(encoded: Bytes, expires: nat)

  type Cache = map<Key, Entry>

  /** What the handler decided for a request. */
  datatype Verdict = Verdict(accepted: bool, cause: byte, localTeid: Teid, localIp: Option<Address>, pgwControl: Teid, bearers: seq<BearerResult>)

  /** A received request: the time of the look-up, the time the answer was stored, and what the
      handler would decide, None if no handler is installed; `own` is the configured GTP-U address. */
  datatype Arrival = Arrival(now: nat, stored: nat, peer: Peer, msg: Message, handler: Option<Verdict>, own: Address)

  /** Whether the handler was asked, whether the answer went into the cache, and its octets. */
  datatype Answer = Answer(called: bool, stored: bool, bytes: Bytes)

  const NO_HANDLER := Verdict(false, CAUSE_CONTEXT_NOT_FOUND, 0, None, 0, [])

  function VerdictOf(a: Arrival): Verdict {
    if a.handler.Some? then a.handler.value else NO_HANDLER
  }

  function KeyOf(a: Arrival): Key {
    Key(a.peer, a.msg.teid, a.msg.seqNo, a.msg.kind)
  }

  /** The request came out of the receive buffer, and the handler gives no more bearers than it
      was asked for. */
  predicate Received(a: Arrival) {
    && MIN_SEQUENCE <= a.msg.seqNo <= MAX_SEQUENCE && |a.msg.payload| <= BUFFER && a.now <= a.stored
    && (ParseRequest(a.msg.payload).Ok? ==> |VerdictOf(a).bearers| <= |ParseRequest(a.msg.payload).value.bearers|)
  }

  /** The bearer results that go into the response; a verdict without any speaks for the
      request as a whole. */
  function Results(v: Verdict, ev: Event): seq<BearerResult>
    requires ev.bearers != []
  {
    if v.bearers != [] then v.bearers
    else [BearerResult(ev.bearers[0].ebi, v.accepted, if v.cause == 0 then CAUSE_ACCEPTED else v.cause,
                       v.localTeid, v.localIp, 0, None, None)]
  }

  function Refusal(m: Message): Message {
    Message(96, true, m.teid, m.seqNo, IeBytes(CauseIe(CAUSE_CONTEXT_NOT_FOUND)))
  }

  function Purged(c: Cache, now: nat): Cache {
    map k | k in c && now <= c[k].expires :: c[k]
  }

  /** The cache after one request, and the answer sent. */
  function Handle(c: Cache, a: Arrival): (Cache, Answer) {
    var live := Purged(c, a.now);
    if KeyOf(a) in live then (live, Answer(false, false, live[KeyOf(a)].encoded)) else
    var ev := ParseRequest(a.msg.payload);
    if ev.Err? then (live, Answer(false, false, MessageBytes(Refusal(a.msg))))
    else if ev.value.bearers == [] then (live, Answer(false, false, []))
    else
      var resp := ResponseMessage(a.msg, VerdictOf(a).cause, a.own, VerdictOf(a).pgwControl, Results(VerdictOf(a), ev.value));
      if !Encodable(resp) then (live, Answer(a.handler.Some?, false, []))
      else
        var bytes := MessageBytes(resp);
        (Purged(live, a.stored)[KeyOf(a) := Entry(bytes, a.stored + LIFETIME)], Answer(a.handler.Some?, true, bytes))
  }

  class Client {
    var cache: Cache

    constructor ()
      ensures cache == map[]
    {
      cache := map[];
    }

    method Purge(now: nat)
      modifies this
      ensures cache == Purged(old(cache), now)
    {
      var todo := cache.Keys;
      while todo != {}
        invariant todo <= old(cache).Keys
        invariant forall k :: k in cache <==> k in old(cache) && (k in todo || now <= old(cache)[k].expires)
        invariant forall k :: k in cache ==> cache[k] == old(cache)[k]
        decreases |todo|
      {
        var k :| k in todo;
        todo := todo - {k};
        if now > cache[k].expires { cache := cache - {k}; }
      }
    }

    /** handleCreateBearerRequest: look up, parse, ask the handler, encode, store, send. */
    method HandleCreateBearerRequest(a: Arrival) returns (answer: Answer)
      requires Received(a)
      modifies this
      ensures (cache, answer) == Handle(old(cache), a)
    {
      Purge(a.now);
      if KeyOf(a) in cache { return Answer(false, false, cache[KeyOf(a)].encoded); }
      var ev := ParseCreateBearerRequest(a.msg.payload);
      if ev.Err? {
        var refusal := Encode(Refusal(a.msg));
        return Answer(false, false, if refusal.Ok? then refusal.value else []);
      }
      ParsedRequest(a.msg.payload);
      var v := NO_HANDLER;
      if a.handler.Some? { v := a.handler.value; }
      var results := v.bearers;
      if |results| == 0 {
        var cause := if v.cause == 0 then CAUSE_ACCEPTED else v.cause;
        results := [BearerResult(ev.value.bearers[0].ebi, v.accepted, cause,
                                 v.localTeid, v.localIp, 0, None, None)];
      }
      var resp := CreateBearerResponseMessage(a.msg, v.cause, a.own, v.pgwControl, results);
      var encoded := Encode(resp);
      if encoded.Err? { return Answer(a.handler.Some?, false, []); }
      Purge(a.stored);
      cache := cache[KeyOf(a) := Entry(encoded.value, a.stored + LIFETIME)];
      answer := Answer(a.handler.Some?, true, encoded.value);
    }
  }

  /** A decided request never escapes the cache: its response always encodes and is stored,
      and the handler, if there is one, decides exactly the requests that are stored. */
  lemma HandledIsStored(c: Cache, a: Arrival)
    requires Received(a)
    ensures var (c', answer) := Handle(c, a);
            answer.stored ==> KeyOf(a) in c' && c'[KeyOf(a)] == Entry(answer.bytes, a.stored + LIFETIME)
    ensures KeyOf(a) !in Purged(c, a.now) ==> (Handle(c, a).1.stored <==> ParseRequest(a.msg.payload).Ok?)
    ensures Handle(c, a).1.called <==> Handle(c, a).1.stored && a.handler.Some?
  {
    var ev := ParseRequest(a.msg.payload);
    if ev.Ok? {
      ParsedRequest(a.msg.payload);
      ResponseEncodable(a.msg, VerdictOf(a).cause, a.own, VerdictOf(a).pgwControl, Results(VerdictOf(a), ev.value));
    }
  }

  /** The answer to a request that does not parse is a response to it, to its own TEID, with
      nothing but cause 64; nothing is asked or stored. */
  lemma RefusedResponse(c: Cache, a: Arrival)
    requires Received(a) && a.msg.teid < P32 && KeyOf(a) !in Purged(c, a.now) && ParseRequest(a.msg.payload).Err?
    ensures var (c', answer) := Handle(c, a);
            && c' == Purged(c, a.now) && !answer.called && !answer.stored
            && DecodeMessage(answer.bytes) == Ok(Message(96, true, a.msg.teid, a.msg.seqNo, [2, 0, 2, 0, 64, 0]))
  {
    assert IeBytes(CauseIe(64)) == [2, 0, 2, 0, 64, 0];
    MessageRoundTrip(Refusal(a.msg));
  }

  /** What the handler decided, or the refusal when there is none; zero stands for acceptance. */
  ghost predicate Decides(a: Arrival, cause: byte, pgwControl: Teid, rs: seq<BearerResult>, first: byte) {
    match a.handler
    case None => cause == 64 && pgwControl == 0 && rs == [BearerResult(first, false, 64, 0, None, 0, None, None)]
    case Some(v) =>
      && cause == (if v.cause == 0 then 16 else v.cause) && pgwControl == v.pgwControl
      && if v.bearers != [] then rs == v.bearers
         else rs == [BearerResult(first, v.accepted, cause, v.localTeid, v.localIp, 0, None, None)]
  }

  /** The bytes stored are a response to the request, addressed to the PGW's control TEID if the
      verdict has it, and name the cause and every bearer of the verdict. */
  lemma StoredResponse(c: Cache, a: Arrival, cause: byte, pgwControl: Teid, rs: seq<BearerResult>, ev: Event)
    requires Received(a) && Handle(c, a).1.stored && a.msg.teid < P32 && ParseRequest(a.msg.payload) == Ok(ev)
    requires ev.bearers != [] && Decides(a, cause, pgwControl, rs, ev.bearers[0].ebi)
    ensures var d := DecodeMessage(Handle(c, a).1.bytes);
            && d.Ok? && d.value.kind == 96 && d.value.seqNo == a.msg.seqNo
            && d.value.teid == (if pgwControl != 0 then pgwControl else a.msg.teid)
            && var es := DecodeIes(d.value.payload);
            && es.Ok? && es.value != [] && es.value[0] == Ie(2, 0, [cause, 0])
            && ReadResponse(d.value.payload) == Ok(Infos(Fill(cause, a.own), rs))
  {
    ParsedRequest(a.msg.payload);
    var v, top := VerdictOf(a), Fill(cause, a.own);
    assert rs == Results(v, ev);
    ResponseEncodable(a.msg, v.cause, a.own, pgwControl, rs);
    MessageRoundTrip(ResponseMessage(a.msg, v.cause, a.own, pgwControl, rs));
    ResponseRecovered(top, rs);
  }

  // -------------------------------------------------------------------- runs

  function Run(xs: seq<Arrival>): Cache {
    if xs == [] then map[] else Handle(Run(xs[..|xs| - 1]), xs[|xs| - 1]).0
  }

  function AnswerAt(xs: seq<Arrival>, i: nat): Answer
    requires i < |xs|
  {
    Handle(Run(xs[..i]), xs[i]).1
  }

  /** The read loop takes requests one after the other on a monotone clock. */
  ghost predicate InOrder(xs: seq<Arrival>) {
    && (forall i :: 0 <= i < |xs| ==> Received(xs[i]))
    && (forall i, j :: 0 <= i < j < |xs| ==> xs[i].stored <= xs[j].now)
  }

  predicate SameRequest(a: Arrival, b: Arrival) {
    a.peer == b.peer && a.msg.teid == b.msg.teid && a.msg.seqNo == b.msg.seqNo && a.msg.kind == b.msg.kind
  }

  /** Request `i` was decided and its answer is still valid, for up to 60 seconds, when the same
      request comes as number `j`. */
  ghost predicate Covers(xs: seq<Arrival>, i: nat, j: nat) {
    i < j < |xs| && SameRequest(xs[i], xs[j]) && AnswerAt(xs, i).stored && xs[j].now <= xs[i].stored + 60
  }

  lemma AnswerStays(xs: seq<Arrival>, n: nat, i: nat)
    requires i < n <= |xs|
    ensures AnswerAt(xs[..n], i) == AnswerAt(xs, i)
  {
    assert xs[..n][..i] == xs[..i];
  }

  lemma RunStep(xs: seq<Arrival>, n: nat)
    requires n < |xs|
    ensures Run(xs[..n + 1]) == Handle(Run(xs[..n]), xs[n]).0
  {
    assert xs[..n + 1][..n] == xs[..n];
  }

  lemma HandleKeeps(c: Cache, a: Arrival, k: Key)
    requires k in c && a.now <= a.stored <= c[k].expires
    ensures k in Handle(c, a).0 && Handle(c, a).0[k] == c[k]
  {}

  /** An answer stays in the cache, unchanged, until its time is up. */
  lemma {:induction false} KeptUntilExpiry(xs: seq<Arrival>, i: nat, n: nat)
    requires InOrder(xs) && i < n <= |xs| && AnswerAt(xs, i).stored
    requires forall j :: i < j < n ==> xs[j].stored <= xs[i].stored + LIFETIME
    ensures var c, k := Run(xs[..n]), KeyOf(xs[i]);
            k in c && c[k] == Entry(AnswerAt(xs, i).bytes, xs[i].stored + LIFETIME)
    decreases n
  {
    var last := xs[n - 1];
    assert Received(last);
    RunStep(xs, n - 1);
    if n == i + 1 {
      HandledIsStored(Run(xs[..i]), last);
    } else {
      KeptUntilExpiry(xs, i, n - 1);
      HandleKeeps(Run(xs[..n - 1]), last, KeyOf(xs[i]));
    }
  }

  /** Create Bearer is idempotent: from storing until 60 seconds later, every request with the
      same peer, TEID, sequence number and type gets the same bytes without the handler. */
  lemma Idempotent(xs: seq<Arrival>, i: nat, j: nat)
    requires InOrder(xs) && Covers(xs, i, j)
    ensures AnswerAt(xs, j) == Answer(false, false, AnswerAt(xs, i).bytes)
  {
    forall n | i < n < j ensures xs[n].stored <= xs[i].stored + LIFETIME {
      assert xs[n].stored <= xs[j].now;
    }
    KeptUntilExpiry(xs, i, j);
  }

  /** Whatever the cache holds was stored by a request that was decided. */
  lemma {:induction false} CacheOrigin(xs: seq<Arrival>, k: Key) returns (i: nat)
    requires k in Run(xs) && forall j :: 0 <= j < |xs| ==> Received(xs[j])
    ensures i < |xs| && KeyOf(xs[i]) == k && AnswerAt(xs, i).stored
    ensures Run(xs)[k] == Entry(AnswerAt(xs, i).bytes, xs[i].stored + LIFETIME)
  {
    var n := |xs| - 1;
    var front, a := xs[..n], xs[n];
    assert xs[..n + 1] == xs;
    HandledIsStored(Run(front), a);
    if k == KeyOf(a) && Handle(Run(front), a).1.stored {
      i := n;
    } else {
      assert k in Run(front) && Run(xs)[k] == Run(front)[k];
      i := CacheOrigin(front, k);
      assert front[..i] == xs[..i];
    }
  }

  /** A request is decided, by the handler if there is one, exactly when it parses and no earlier
      answer to it is still valid. */
  lemma HandlerCalledIff(xs: seq<Arrival>, j: nat)
    requires InOrder(xs) && j < |xs|
    ensures AnswerAt(xs, j).called <==> AnswerAt(xs, j).stored && xs[j].handler.Some?
    ensures AnswerAt(xs, j).stored
            <==> ParseRequest(xs[j].msg.payload).Ok? && forall i: nat :: i < j ==> !Covers(xs, i, j)
  {
    var c, k := Run(xs[..j]), KeyOf(xs[j]);
    HandledIsStored(c, xs[j]);
    if k in Purged(c, xs[j].now) {
      var i := CacheOrigin(xs[..j], k);
      AnswerStays(xs, j, i);
      assert Covers(xs, i, j);
    } else {
      forall i: nat | i < j ensures !Covers(xs, i, j) {
        if Covers(xs, i, j) { Idempotent(xs, i, j); KeptStill(xs, i, j); }
      }
    }
  }

  lemma KeptStill(xs: seq<Arrival>, i: nat, j: nat)
    requires InOrder(xs) && Covers(xs, i, j)
    ensures KeyOf(xs[j]) in Purged(Run(xs[..j]), xs[j].now)
  {
    forall n | i < n < j ensures xs[n].stored <= xs[i].stored + LIFETIME {
      assert xs[n].stored <= xs[j].now;
    }
    KeptUntilExpiry(xs, i, j);
  }
}
