/** Create Bearer Request and Response, and Create Session Response, as information elements. */
module Gtpv2Bearer {
  import opened Octets
  import opened Gtpv2

  const CAUSE_ACCEPTED: byte := 16
  const CAUSE_CONTEXT_NOT_FOUND: byte := 64
  const IFACE_EPDG_GTPU: byte := 31
  const IFACE_PGW_GTPC: byte := 32
  const IFACE_PGW_GTPU: byte := 33

  // ---------------------------------------------------------------- response

  type Teid = t: nat | t < P32

  /** Addresses are None if missing and Some([]) if not IPv4. */
  datatype BearerResult = BearerResult(
    ebi: byte, accepted: bool, cause: byte, localTeid: Teid, localIp: Option<Address>,
    pgwTeid: Teid, pgwIp: Option<Address>, charging: Option<Teid>)

  /** What a bearer without its own cause and address gets: the cause of the whole result, and
      the configured GTP-U address. */
  datatype Fill = Fill(cause: byte, own: Address)

  function CauseIe(cause: byte): Ie {
    Ie(IE_CAUSE, 0, [cause, 0])
  }

  function EbiIe(ebi: byte): Ie {
    Ie(IE_EBI, 0, [ebi % 16])
  }

  function CauseOf(top: Fill, r: BearerResult): byte {
    if r.cause == 0 then top.cause else r.cause
  }

  function LocalIp(top: Fill, r: BearerResult): Address {
    if r.localIp.Some? then r.localIp.value else top.own
  }

  predicate Granted(r: BearerResult) {
    r.accepted && r.localTeid != 0
  }

  predicate Echoed(r: BearerResult) {
    Granted(r) && r.pgwTeid != 0 && r.pgwIp.Some?
  }

  /** EBI and cause, then what a granted bearer adds. */
  function ContextChildren(top: Fill, r: BearerResult): seq<Ie> {
    [EbiIe(r.ebi), CauseIe(CauseOf(top, r))]
    + (if Granted(r) then [FteidIe(8, Fteid(IFACE_EPDG_GTPU, r.localTeid, LocalIp(top, r)))] else [])
    + (if Echoed(r) then [FteidIe(9, Fteid(IFACE_PGW_GTPU, r.pgwTeid, r.pgwIp.value))] else [])
    + (if Granted(r) && r.charging.Some? then [Ie(IE_CHARGING_ID, 0, U32(r.charging.value))] else [])
  }

  function ContextIe(top: Fill, r: BearerResult): Ie {
    Ie(IE_BEARER_CONTEXT, 0, EncodeIes(ContextChildren(top, r)))
  }

  function ContextIes(top: Fill, rs: seq<BearerResult>): (es: seq<Ie>)
    ensures |es| == |rs|
  {
    if rs == [] then [] else ContextIes(top, rs[..|rs| - 1]) + [ContextIe(top, rs[|rs| - 1])]
  }

  function ResponseIes(top: Fill, rs: seq<BearerResult>): seq<Ie> {
    [CauseIe(top.cause)] + ContextIes(top, rs) + [Ie(IE_RECOVERY, 0, [0])]
  }

  /** createBearerResponseMessage for a result that lists its bearers. */
  function ResponseMessage(req: Message, cause: byte, own: Address, pgwControl: Teid, rs: seq<BearerResult>): Message {
    var top := Fill(if cause == 0 then CAUSE_ACCEPTED else cause, own);
    Message(96, true, if pgwControl != 0 then pgwControl else req.teid, req.seqNo, EncodeIes(ResponseIes(top, rs)))
  }

  /** The children of one bearer context. */
  method BuildChildren(cause: byte, own: Address, r: BearerResult) returns (children: seq<Ie>)
    ensures children == ContextChildren(Fill(cause, own), r)
  {
    var c := if r.cause == 0 then cause else r.cause;
    children := [EbiIe(r.ebi), CauseIe(c)];
    if r.accepted && r.localTeid != 0 {
      var ip := own;
      if r.localIp.Some? { ip := r.localIp.value; }
      children := children + [FteidIe(8, Fteid(IFACE_EPDG_GTPU, r.localTeid, ip))];
      if r.pgwTeid != 0 && r.pgwIp.Some? {
        children := children + [FteidIe(9, Fteid(IFACE_PGW_GTPU, r.pgwTeid, r.pgwIp.value))];
      }
      if r.charging.Some? {
        children := children + [Ie(IE_CHARGING_ID, 0, U32(r.charging.value))];
      }
    }
  }

  method CreateBearerResponseMessage(req: Message, cause0: byte, own: Address, pgwControl: Teid, rs: seq<BearerResult>)
      returns (m: Message)
    ensures m == ResponseMessage(req, cause0, own, pgwControl, rs)
  {
    var cause := if cause0 == 0 then CAUSE_ACCEPTED else cause0;
    ghost var top := Fill(cause, own);
    var payload := [CauseIe(cause)];
    for i := 0 to |rs|
      invariant payload == [CauseIe(cause)] + ContextIes(top, rs[..i])
    {
      var children := BuildChildren(cause, own, rs[i]);
      var encoded := EncodeAll(children);
      assert rs[..i + 1][..i] == rs[..i];
      payload := payload + [Ie(IE_BEARER_CONTEXT, 0, encoded)];
    }
    assert rs[..|rs|] == rs;
    payload := payload + [Ie(IE_RECOVERY, 0, [0])];
    var bytes := EncodeAll(payload);
    m := Message(96, true, if pgwControl != 0 then pgwControl else req.teid, req.seqNo, bytes);
  }

  // --------------------------------------------------------- reading it back

  datatype BearerInfo = BearerInfo(ebi: byte, cause: byte, epdg: Option<Fteid>, pgw: Option<Fteid>, charging: Option<nat>)

  function FirstOctet(e: Option<Ie>): byte {
    if e.Some? && e.value.payload != [] then e.value.payload[0] else 0
  }

  function FindFteid(es: seq<Ie>, instance: byte): Option<Fteid> {
    var e := FindIe(es, 87, instance);
    if e.Some? then ParseFteid(e.value) else None
  }

  function FindCharging(es: seq<Ie>): Option<nat> {
    var e := FindIe(es, 94, 0);
    if e.Some? && |e.value.payload| >= 4 then Some(GetU32(e.value.payload, 0)) else None
  }

  function ReadContext(children: seq<Ie>): BearerInfo {
    BearerInfo(FirstOctet(FindIe(children, 73, 0)), FirstOctet(FindIe(children, 2, 0)),
               FindFteid(children, 8), FindFteid(children, 9), FindCharging(children))
  }

  /** The bearer contexts among the elements, each decoded. */
  function ReadContexts(es: seq<Ie>): Result<seq<BearerInfo>> {
    if es == [] then Ok([]) else
    var front, e := ReadContexts(es[..|es| - 1]), es[|es| - 1];
    if front.Err? || e.kind != 93 then front else
    match DecodeIes(e.payload)
    case Err => Err
    case Ok(children) => Ok(front.value + [ReadContext(children)])
  }

  function ReadResponse(payload: Bytes): Result<seq<BearerInfo>> {
    match DecodeIes(payload)
    case Err => Err
    case Ok(es) => ReadContexts(es)
  }

  /** What a bearer result says. */
  function Info(top: Fill, r: BearerResult): BearerInfo {
    var granted := r.accepted && r.localTeid != 0;
    BearerInfo(r.ebi % 16, if r.cause == 0 then top.cause else r.cause,
               if granted then Some(Fteid(31, r.localTeid, if r.localIp.Some? then r.localIp.value else top.own)) else None,
               if granted && r.pgwTeid != 0 && r.pgwIp.Some? then Some(Fteid(33, r.pgwTeid, r.pgwIp.value)) else None,
               if granted && r.charging.Some? then Some(r.charging.value) else None)
  }

  function Infos(top: Fill, rs: seq<BearerResult>): seq<BearerInfo> {
    seq(|rs|, i requires 0 <= i < |rs| => Info(top, rs[i]))
  }

  lemma FindSkips(es: seq<Ie>, kind: byte, instance: byte, k: nat)
    requires k <= |es| && forall i :: 0 <= i < k ==> es[i].kind != kind || es[i].instance != instance
    ensures FindIe(es, kind, instance) == FindIe(es[k..], kind, instance)
  {
    if k == 0 {
    } else {
      FindSkips(es[1..], kind, instance, k - 1);
      assert es[1..][k - 1..] == es[k..];
    }
  }

  /** Where each child stands. */
  lemma FindChild(es: seq<Ie>, kind: byte, instance: byte, k: nat)
    requires k < |es| ==> es[k].kind == kind && es[k].instance == instance
    requires k <= |es| && forall i :: 0 <= i < k ==> es[i].kind != kind || es[i].instance != instance
    ensures FindIe(es, kind, instance) == if k < |es| then Some(es[k]) else None
  {
    FindSkips(es, kind, instance, k);
  }

  lemma ContextEpdg(top: Fill, r: BearerResult)
    ensures var es := ContextChildren(top, r);
            && FindIe(es, IE_EBI, 0) == Some(EbiIe(r.ebi)) && FindIe(es, IE_CAUSE, 0) == Some(CauseIe(CauseOf(top, r)))
            && FindFteid(es, 8) == Info(top, r).epdg
  {
    var es := ContextChildren(top, r);
    FindChild(es, IE_EBI, 0, 0);
    FindChild(es, IE_CAUSE, 0, 1);
    FindChild(es, IE_FTEID, 8, 2);
    if Granted(r) { FteidRoundTrip(8, Fteid(IFACE_EPDG_GTPU, r.localTeid, LocalIp(top, r))); }
  }

  lemma ContextPgw(top: Fill, r: BearerResult)
    ensures FindFteid(ContextChildren(top, r), 9) == Info(top, r).pgw
  {
    var es := ContextChildren(top, r);
    if Echoed(r) {
      FindChild(es, IE_FTEID, 9, 3);
      FteidRoundTrip(9, Fteid(IFACE_PGW_GTPU, r.pgwTeid, r.pgwIp.value));
    } else {
      FindChild(es, IE_FTEID, 9, |es|);
    }
  }

  lemma ContextCharging(top: Fill, r: BearerResult)
    ensures FindCharging(ContextChildren(top, r)) == Info(top, r).charging
  {
    var es := ContextChildren(top, r);
    if Granted(r) && r.charging.Some? {
      FindChild(es, IE_CHARGING_ID, 0, if Echoed(r) then 4 else 3);
      Read32(U32(r.charging.value), 0, r.charging.value);
    } else {
      FindChild(es, IE_CHARGING_ID, 0, |es|);
    }
  }

  lemma ContextReads(top: Fill, r: BearerResult)
    ensures ReadContext(ContextChildren(top, r)) == Info(top, r)
  {
    ContextEpdg(top, r);
    ContextPgw(top, r);
    ContextCharging(top, r);
  }

  function Length(es: seq<Ie>): nat {
    if es == [] then 0 else 4 + |es[0].payload| + Length(es[1..])
  }

  lemma {:induction false} EncodedLength(es: seq<Ie>)
    ensures |EncodeIes(es)| == Length(es)
  {
    if es == [] {
    } else {
      EncodedLength(es[1..]);
    }
  }

  lemma {:induction false} LengthSplit(xs: seq<Ie>, ys: seq<Ie>)
    ensures Length(xs + ys) == Length(xs) + Length(ys)
  {
    if xs == [] {
      assert xs + ys == ys;
    } else {
      assert (xs + ys)[1..] == xs[1..] + ys;
      LengthSplit(xs[1..], ys);
    }
  }

  lemma {:induction false} LengthBound(es: seq<Ie>, n: nat)
    requires forall i :: 0 <= i < |es| ==> |es[i].payload| <= n
    ensures Length(es) <= (4 + n) * |es|
  {
    if es == [] {
    } else {
      LengthBound(es[1..], n);
    }
  }

  /** A bearer context takes at most 49 octets. */
  lemma ContextShort(top: Fill, r: BearerResult)
    ensures |ContextIe(top, r).payload| <= 45
    ensures forall i :: 0 <= i < |ContextChildren(top, r)| ==> Fits(ContextChildren(top, r)[i])
  {
    var es := ContextChildren(top, r);
    var xs := [EbiIe(r.ebi), CauseIe(CauseOf(top, r))];
    var ys := if Granted(r) then [FteidIe(8, Fteid(IFACE_EPDG_GTPU, r.localTeid, LocalIp(top, r)))] else [];
    var zs := if Echoed(r) then [FteidIe(9, Fteid(IFACE_PGW_GTPU, r.pgwTeid, r.pgwIp.value))] else [];
    var ws := if Granted(r) && r.charging.Some? then [Ie(IE_CHARGING_ID, 0, U32(r.charging.value))] else [];
    assert es == xs + ys + zs + ws;
    LengthSplit(xs, ys);
    LengthSplit(xs + ys, zs);
    LengthSplit(xs + ys + zs, ws);
    EncodedLength(es);
    assert Length(xs) == 11 by { assert xs[1..][1..] == []; }
    assert Length(ys) <= 13 && Length(zs) <= 13 && Length(ws) <= 8;
  }

  lemma {:induction false} ContextIesShape(top: Fill, rs: seq<BearerResult>)
    ensures forall i :: 0 <= i < |rs| ==> ContextIes(top, rs)[i] == ContextIe(top, rs[i])
  {
    if rs == [] {
    } else {
      ContextIesShape(top, rs[..|rs| - 1]);
    }
  }

  lemma ReadOneMore(es: seq<Ie>, infos: seq<BearerInfo>, top: Fill, r: BearerResult)
    requires ReadContexts(es) == Ok(infos)
    ensures ReadContexts(es + [ContextIe(top, r)]) == Ok(infos + [Info(top, r)])
  {
    var all := es + [ContextIe(top, r)];
    assert all[..|all| - 1] == es && all[|all| - 1] == ContextIe(top, r);
    ContextShort(top, r);
    IeRoundTrip(ContextChildren(top, r));
    ContextReads(top, r);
  }

  lemma OneMoreResult(top: Fill, es: seq<Ie>, rs: seq<BearerResult>)
    requires rs != []
    ensures es + ContextIes(top, rs) == es + ContextIes(top, rs[..|rs| - 1]) + [ContextIe(top, rs[|rs| - 1])]
  {
    var xs, x := ContextIes(top, rs[..|rs| - 1]), ContextIe(top, rs[|rs| - 1]);
    assert es + (xs + [x]) == es + xs + [x];
  }

  lemma OneMoreInfo(top: Fill, rs: seq<BearerResult>)
    requires rs != []
    ensures Infos(top, rs) == Infos(top, rs[..|rs| - 1]) + [Info(top, rs[|rs| - 1])]
  {
    var front := rs[..|rs| - 1];
    assert forall i :: 0 <= i < |front| ==> front[i] == rs[i];
  }

  lemma {:induction false} ContextsRead(top: Fill, es: seq<Ie>, rs: seq<BearerResult>)
    requires ReadContexts(es) == Ok([])
    ensures ReadContexts(es + ContextIes(top, rs)) == Ok(Infos(top, rs))
  {
    if rs == [] {
      assert es + ContextIes(top, rs) == es;
      assert Infos(top, rs) == [];
    } else {
      var front, r := rs[..|rs| - 1], rs[|rs| - 1];
      ContextsRead(top, es, front);
      ReadOneMore(es + ContextIes(top, front), Infos(top, front), top, r);
      OneMoreResult(top, es, rs);
      OneMoreInfo(top, rs);
    }
  }

  /** Decoding a Create Bearer Response recovers its cause and every bearer's EBI, cause, TEIDs
      and charging id, in order; the last element is the restart counter. */
  lemma ResponseRecovered(top: Fill, rs: seq<BearerResult>)
    ensures var d := DecodeIes(EncodeIes(ResponseIes(top, rs)));
            && d.Ok? && |d.value| == |rs| + 2 && d.value[0] == Ie(2, 0, [top.cause, 0]) && d.value[|rs| + 1] == Ie(3, 0, [0])
            && forall i :: 0 < i <= |rs| ==> d.value[i].kind == 93 && d.value[i].instance == 0
    ensures ReadResponse(EncodeIes(ResponseIes(top, rs))) == Ok(Infos(top, rs))
  {
    var es := ResponseIes(top, rs);
    ContextIesShape(top, rs);
    forall i | 0 <= i < |es| ensures Fits(es[i]) {
      if 0 < i <= |rs| { ContextShort(top, rs[i - 1]); }
    }
    IeRoundTrip(es);
    assert [CauseIe(top.cause)][..0] == [];
    assert ReadContexts([CauseIe(top.cause)]) == Ok([]);
    ContextsRead(top, [CauseIe(top.cause)], rs);
    assert es[..|es| - 1] == [CauseIe(top.cause)] + ContextIes(top, rs);
  }

  /** Up to 1336 bearers the response fits a GTPv2-C message. */
  lemma ResponseEncodable(req: Message, cause: byte, own: Address, pgwControl: Teid, rs: seq<BearerResult>)
    requires MIN_SEQUENCE <= req.seqNo <= MAX_SEQUENCE && |rs| <= 1336
    ensures Encodable(ResponseMessage(req, cause, own, pgwControl, rs))
  {
    var top := Fill(if cause == 0 then CAUSE_ACCEPTED else cause, own);
    var cs := ContextIes(top, rs);
    ContextIesShape(top, rs);
    forall i | 0 <= i < |cs| ensures |cs[i].payload| <= 45 { ContextShort(top, rs[i]); }
    LengthBound(cs, 45);
    LengthSplit([CauseIe(top.cause)], cs);
    LengthSplit([CauseIe(top.cause)] + cs, [Ie(IE_RECOVERY, 0, [0])]);
    EncodedLength(ResponseIes(top, rs));
  }

  // ----------------------------------------------------------------- request

  datatype Context = Context(
    ebi: byte, hasEbi: bool, unassigned: bool, pgwTeid: nat, pgwIp: Option<Address>, qci: byte, tft: Bytes, charging: Option<nat>)

  const NoContext := Context(0, false, false, 0, None, 0, [], None)

  /** parseEBI: zero is no EBI. */
  function ParseEbi(payload: Bytes): byte {
    if payload == [] then 0 else payload[0] % 16
  }

  /** A later child of the same type replaces what an earlier one said. */
  function ReadChild(c: Context, e: Ie): Context {
    if e.kind == IE_EBI then
      if ParseEbi(e.payload) != 0 then c.(ebi := ParseEbi(e.payload), hasEbi := true)
      else if e.payload == [0] then c.(unassigned := true) else c
    else if e.kind == IE_FTEID then
      match ParseFteid(e)
      case None => c
      case Some(f) => c.(pgwTeid := f.teid, pgwIp := if f.ip == [] then None else Some(f.ip))
    else if e.kind == IE_BEARER_QOS then (if |e.payload| > 1 then c.(qci := e.payload[1]) else c)
    else if e.kind == IE_TFT then c.(tft := e.payload)
    else if e.kind == IE_CHARGING_ID then (if |e.payload| >= 4 then c.(charging := Some(GetU32(e.payload, 0))) else c)
    else c
  }

  function ReadChildren(es: seq<Ie>): Context {
    if es == [] then NoContext else ReadChild(ReadChildren(es[..|es| - 1]), es[|es| - 1])
  }

  predicate Usable(c: Context) {
    (c.hasEbi || c.unassigned) && c.pgwTeid != 0
  }

  datatype Event = Event(linkedEbi: byte, bearers: seq<Context>)

  function ReadTop(ev: Event, e: Ie): Result<Event> {
    if e.kind == IE_EBI then Ok(if ev.linkedEbi == 0 then ev.(linkedEbi := ParseEbi(e.payload)) else ev)
    else if e.kind != IE_BEARER_CONTEXT then Ok(ev)
    else match DecodeIes(e.payload)
      case Err => Err
      case Ok(children) =>
        var c := ReadChildren(children);
        Ok(if Usable(c) then ev.(bearers := ev.bearers + [c]) else ev)
  }

  function ReadTops(es: seq<Ie>): Result<Event> {
    if es == [] then Ok(Event(0, [])) else
    match ReadTops(es[..|es| - 1])
    case Err => Err
    case Ok(ev) => ReadTop(ev, es[|es| - 1])
  }

  /** parseCreateBearerRequest: without a bearer, or with an unassigned first EBI and no linked
      EBI, the request is refused. */
  function ParseRequest(payload: Bytes): Result<Event> {
    match DecodeIes(payload)
    case Err => Err
    case Ok(es) =>
      match ReadTops(es)
      case Err => Err
      case Ok(ev) =>
        var ebi := if ev.bearers == [] then 0 else ev.bearers[0].ebi;
        if ebi == 0 && (ev.bearers == [] || ev.linkedEbi == 0) then Err
        else if ev.bearers == [] || ev.bearers[0].pgwTeid == 0 then Err
        else Ok(ev)
  }

  method ReadContextChildren(es: seq<RawIe>) returns (c: Context)
    ensures c == ReadChildren(IesOf(es))
  {
    c := NoContext;
    for i := 0 to |es|
      invariant c == ReadChildren(IesOf(es)[..i])
    {
      assert IesOf(es)[..i + 1][..i] == IesOf(es)[..i];
      c := ReadChild(c, es[i].ie);
    }
    assert IesOf(es)[..|es|] == IesOf(es);
  }

  method ReadTopElement(ev: Event, top: Ie) returns (r: Result<Event>)
    ensures r == ReadTop(ev, top)
  {
    if top.kind == IE_EBI {
      var ebi := ParseEbi(top.payload);
      return Ok(if ebi != 0 && ev.linkedEbi == 0 then ev.(linkedEbi := ebi) else ev);
    }
    if top.kind != IE_BEARER_CONTEXT { return Ok(ev); }
    var children := DecodeListWithRaw(top.payload);
    RawAgrees(top.payload, 0);
    assert top.payload[0..] == top.payload;
    if children.Err? { return Err; }
    var c := ReadContextChildren(children.value);
    r := Ok(if (c.hasEbi || c.unassigned) && c.pgwTeid != 0 then ev.(bearers := ev.bearers + [c]) else ev);
  }

  method ReadTopElements(tops: seq<RawIe>) returns (r: Result<Event>)
    ensures r == ReadTops(IesOf(tops))
  {
    ghost var es := IesOf(tops);
    var ev := Event(0, []);
    for i := 0 to |tops|
      invariant Ok(ev) == ReadTops(es[..i])
    {
      assert es[..i + 1][..i] == es[..i];
      var next := ReadTopElement(ev, tops[i].ie);
      if next.Err? {
        ReadTopsFail(es, i);
        return Err;
      }
      ev := next.value;
    }
    assert es[..|es|] == es;
    r := Ok(ev);
  }

  method ParseCreateBearerRequest(payload: Bytes) returns (r: Result<Event>)
    ensures r == ParseRequest(payload)
  {
    var tops := DecodeListWithRaw(payload);
    RawAgrees(payload, 0);
    assert payload[0..] == payload;
    if tops.Err? { return Err; }
    var ev := ReadTopElements(tops.value);
    if ev.Err? { return Err; }
    var bearers := ev.value.bearers;
    var ebi := 0;
    if |bearers| > 0 { ebi := bearers[0].ebi; }
    if ebi == 0 && !(|bearers| > 0 && ev.value.linkedEbi != 0) { return Err; }
    if |bearers| == 0 || bearers[0].pgwTeid == 0 { return Err; }
    r := ev;
  }

  lemma {:induction false} ReadTopsFail(es: seq<Ie>, i: nat)
    requires i < |es| && ReadTops(es[..i]).Ok? && ReadTop(ReadTops(es[..i]).value, es[i]).Err?
    ensures ReadTops(es).Err?
    decreases |es|
  {
    if i == |es| - 1 {
    } else {
      var front := es[..|es| - 1];
      assert front[..i] == es[..i];
      ReadTopsFail(front, i);
    }
  }

  lemma {:induction false} ReadTopsShape(es: seq<Ie>)
    requires ReadTops(es).Ok?
    ensures |ReadTops(es).value.bearers| <= |es|
    ensures forall c :: c in ReadTops(es).value.bearers ==> Usable(c) && (c.hasEbi ==> 1 <= c.ebi < 16)
  {
    if es == [] {
    } else {
      ReadTopsShape(es[..|es| - 1]);
      var e := es[|es| - 1];
      if e.kind == IE_BEARER_CONTEXT { ChildrenShape(DecodeIes(e.payload).value); }
    }
  }

  lemma {:induction false} ChildrenShape(es: seq<Ie>)
    ensures ReadChildren(es).hasEbi ==> 1 <= ReadChildren(es).ebi < 16
    ensures !ReadChildren(es).hasEbi ==> ReadChildren(es).ebi == 0
  {
    if es == [] {
    } else {
      ChildrenShape(es[..|es| - 1]);
    }
  }

  lemma {:induction false} DecodedCount(b: Bytes)
    requires DecodeIes(b).Ok?
    ensures 4 * |DecodeIes(b).value| <= |b|
    decreases |b|
  {
    if b == [] {
    } else {
      DecodedCount(b[4 + GetU16(b, 1)..]);
    }
  }

  /** A parsed request names at least one bearer, each with an EBI or a request for one and a
      non-zero PGW TEID, and no more than its octets have room for. */
  lemma ParsedRequest(payload: Bytes)
    requires ParseRequest(payload).Ok?
    ensures var ev := ParseRequest(payload).value;
            && 1 <= |ev.bearers| && 4 * |ev.bearers| <= |payload|
            && (forall c :: c in ev.bearers ==>
                  (c.hasEbi || c.unassigned) && c.pgwTeid != 0 && (c.hasEbi ==> 1 <= c.ebi < 16))
            && (ev.bearers[0].ebi == 0 ==> ev.linkedEbi != 0)
  {
    var es := DecodeIes(payload).value;
    ReadTopsShape(es);
    DecodedCount(payload);
  }

  // ------------------------------------------- requests, however they are laid out

  predicate Has(es: seq<Ie>, kind: byte) {
    exists x :: x in es && x.kind == kind
  }

  predicate AllFit(es: seq<Ie>) {
    forall i :: 0 <= i < |es| ==> Fits(es[i])
  }

  lemma HasLast(es: seq<Ie>, kind: byte)
    requires es != []
    ensures Has(es, kind) <==> Has(es[..|es| - 1], kind) || es[|es| - 1].kind == kind
  {
    var front, e := es[..|es| - 1], es[|es| - 1];
    assert forall x :: x in es <==> x in front || x == e;
  }

  /** A bearer context that can be asked for: an EBI or a request for one, and a PGW F-TEID. */
  predicate Askable(c: Context) {
    && c.ebi < 16 && c.hasEbi == (c.ebi != 0) && c.unassigned == (c.ebi == 0) && c.pgwTeid != 0
  }

  /** A child of one of the kinds read says what the context says: an EBI, zero as a lone zero
      octet; an F-TEID of whatever instance and interface; a Bearer QoS whose second octet is
      the QCI; a TFT; a charging id. */
  predicate Says(e: Ie, c: Context) {
    && (e.kind == 73 ==> e.payload != [] && e.payload[0] % 16 == c.ebi && (c.ebi == 0 ==> e.payload == [0]))
    && (e.kind == 87 ==>
          var f := ParseFteid(e);
          f.Some? && f.value.teid == c.pgwTeid && c.pgwIp == if f.value.ip == [] then None else Some(f.value.ip))
    && (e.kind == 80 ==> |e.payload| > 1 && e.payload[1] == c.qci)
    && (e.kind == 84 ==> e.payload == c.tft)
    && (e.kind == 94 ==> |e.payload| >= 4 && c.charging == Some(GetU32(e.payload, 0)))
  }

  /** The children of a bearer context element ask for this context. What it has no value for
      may be absent. */
  predicate Asks(es: seq<Ie>, c: Context) {
    && Askable(c) && (forall e :: e in es ==> Says(e, c))
    && Has(es, 73) && Has(es, 87)
    && (c.qci != 0 ==> Has(es, 80)) && (c.tft != [] ==> Has(es, 84))
    && (c.charging.Some? ==> Has(es, 94))
  }

  /** What has been read of the context once children of these kinds were seen. */
  function Partly(ebi: bool, fteid: bool, qos: bool, tft: bool, charging: bool, c: Context): Context {
    Context(if ebi then c.ebi else 0, ebi && c.hasEbi, ebi && c.unassigned,
            if fteid then c.pgwTeid else 0, if fteid then c.pgwIp else None,
            if qos then c.qci else 0, if tft then c.tft else [], if charging then c.charging else None)
  }

  lemma ReadAsked(c: Context, e: Ie, ebi: bool, fteid: bool, qos: bool, tft: bool, charging: bool)
    requires Askable(c) && Says(e, c)
    ensures ReadChild(Partly(ebi, fteid, qos, tft, charging, c), e)
            == Partly(ebi || e.kind == IE_EBI, fteid || e.kind == IE_FTEID, qos || e.kind == IE_BEARER_QOS,
                      tft || e.kind == IE_TFT, charging || e.kind == IE_CHARGING_ID, c)
  {}

  lemma {:induction false} PartlyRead(es: seq<Ie>, c: Context)
    requires Askable(c) && forall e :: e in es ==> Says(e, c)
    ensures ReadChildren(es) == Partly(Has(es, IE_EBI), Has(es, IE_FTEID), Has(es, IE_BEARER_QOS), Has(es, IE_TFT),
                                       Has(es, IE_CHARGING_ID), c)
  {
    if es == [] {
    } else {
      var front, e := es[..|es| - 1], es[|es| - 1];
      assert forall x :: x in front || x == e ==> x in es;
      PartlyRead(front, c);
      ReadAsked(c, e, Has(front, IE_EBI), Has(front, IE_FTEID), Has(front, IE_BEARER_QOS), Has(front, IE_TFT),
                Has(front, IE_CHARGING_ID));
      HasLast(es, IE_EBI);
      HasLast(es, IE_FTEID);
      HasLast(es, IE_BEARER_QOS);
      HasLast(es, IE_TFT);
      HasLast(es, IE_CHARGING_ID);
    }
  }

  lemma AskedRead(es: seq<Ie>, c: Context)
    requires Asks(es, c)
    ensures ReadChildren(es) == c
  {
    PartlyRead(es, c);
  }

  /** The bearer context elements, in order. */
  function ContextsOf(es: seq<Ie>): seq<Ie> {
    if es == [] then [] else
    var e := es[|es| - 1];
    ContextsOf(es[..|es| - 1]) + (if e.kind == 93 then [e] else [])
  }

  /** The context elements ask for these contexts, one for one; `css` are their children. */
  predicate AskForAll(es: seq<Ie>, css: seq<seq<Ie>>, cs: seq<Context>) {
    && |es| == |css| == |cs|
    && forall i :: 0 <= i < |es| ==> es[i].payload == EncodeIes(css[i]) && AllFit(css[i]) && Asks(css[i], cs[i])
  }

  /** The parser takes the element for this context. */
  predicate ReadsAs(e: Ie, c: Context) {
    DecodeIes(e.payload).Ok? && ReadChildren(DecodeIes(e.payload).value) == c && Usable(c)
  }

  lemma AskedReadsAs(e: Ie, children: seq<Ie>, c: Context)
    requires e.payload == EncodeIes(children) && AllFit(children) && Asks(children, c)
    ensures ReadsAs(e, c)
  {
    IeRoundTrip(children);
    AskedRead(children, c);
  }

  predicate NamesEbi(e: Ie, ebi: byte) {
    e.kind == 73 && e.payload != [] && e.payload[0] % 16 == ebi
  }

  /** An EBI element that names none: empty, or zero in its low half. */
  predicate NamesNone(e: Ie) {
    e.kind == 73 ==> e.payload == [] || e.payload[0] % 16 == 0
  }

  /** The linked EBI is that of the first element naming a non-zero one; zero if none does. */
  predicate Links(es: seq<Ie>, linked: byte) {
    if linked == 0 then forall i :: 0 <= i < |es| ==> NamesNone(es[i])
    else exists k :: 0 <= k < |es| && NamesEbi(es[k], linked) && forall i :: 0 <= i < k ==> NamesNone(es[i])
  }

  function LinkedOf(es: seq<Ie>): byte {
    if es == [] then 0 else
    var front, e := LinkedOf(es[..|es| - 1]), es[|es| - 1];
    if front != 0 || e.kind != IE_EBI then front else ParseEbi(e.payload)
  }

  lemma {:induction false} LinkedIs(es: seq<Ie>, linked: byte)
    requires Links(es, linked)
    ensures LinkedOf(es) == linked
  {
    if es == [] {
    } else {
      var front := es[..|es| - 1];
      assert forall i :: 0 <= i < |front| ==> front[i] == es[i];
      if Links(front, linked) {
        LinkedIs(front, linked);
      } else {
        LinkedIs(front, 0);
      }
    }
  }

  lemma ReadTopContext(ev: Event, e: Ie, c: Context)
    requires e.kind == IE_BEARER_CONTEXT && ReadsAs(e, c)
    ensures ReadTop(ev, e) == Ok(ev.(bearers := ev.bearers + [c]))
  {}

  lemma {:induction false} TopsRead(es: seq<Ie>, cs: seq<Context>)
    requires |ContextsOf(es)| == |cs| && forall i :: 0 <= i < |cs| ==> ReadsAs(ContextsOf(es)[i], cs[i])
    ensures ReadTops(es) == Ok(Event(LinkedOf(es), cs))
    decreases |es|
  {
    if es == [] {
    } else {
      var front, e := es[..|es| - 1], es[|es| - 1];
      if e.kind == IE_BEARER_CONTEXT {
        var n := |cs| - 1;
        assert ContextsOf(es)[..n] == ContextsOf(front) && ContextsOf(es)[n] == e;
        TopsRead(front, cs[..n]);
        ReadTopContext(ReadTops(front).value, e, cs[n]);
        assert cs == cs[..n] + [cs[n]];
      } else {
        assert ContextsOf(front) == ContextsOf(es);
        TopsRead(front, cs);
      }
    }
  }

  /** Every request that asks for at least one bearer, and names a linked bearer if the first one
      asked for has no EBI, is parsed to exactly what it asks for, in order, however its elements
      and their children are arranged and whatever other elements stand between them. */
  lemma RequestRecovered(es: seq<Ie>, linked: byte, css: seq<seq<Ie>>, cs: seq<Context>)
    requires AllFit(es) && Links(es, linked) && AskForAll(ContextsOf(es), css, cs)
    requires cs != [] && (linked != 0 || cs[0].ebi != 0)
    ensures ParseRequest(EncodeIes(es)) == Ok(Event(linked, cs))
  {
    IeRoundTrip(es);
    forall i | 0 <= i < |cs| ensures ReadsAs(ContextsOf(es)[i], cs[i]) {
      AskedReadsAs(ContextsOf(es)[i], css[i], cs[i]);
    }
    TopsRead(es, cs);
    LinkedIs(es, linked);
    assert ReadsAs(ContextsOf(es)[0], cs[0]);
  }

  // ------------------------------------------------- Create Session Response

  datatype SessionResult = SessionResult(
    paa: Bytes, controlTeid: nat, controlIp: Address, ebi: byte, userTeid: nat, userIp: Address)

  /** The F-TEID for this interface, else the first readable one at a fallback instance. */
  function FindByInterface(es: seq<Ie>, iface: byte, fallback: seq<byte>): Option<Fteid> {
    var own := FindInterface(es, iface);
    if own.Some? then own else FindFallback(es, fallback)
  }

  function FindInterface(es: seq<Ie>, iface: byte): Option<Fteid> {
    if es == [] then None else
    var f := if es[0].kind == IE_FTEID then ParseFteid(es[0]) else None;
    if f.Some? && f.value.iface == iface then f else FindInterface(es[1..], iface)
  }

  function FindFallback(es: seq<Ie>, fallback: seq<byte>): Option<Fteid> {
    if fallback == [] then None else
    var f := FindFteid(es, fallback[0]);
    if f.Some? then f else FindFallback(es, fallback[1..])
  }

  function ReadPaa(es: seq<Ie>): Option<Bytes> {
    var e := FindIe(es, IE_PAA, 0);
    if e.None? || |e.value.payload| < 5 || e.value.payload[0] % 8 != 1 then None else Some(e.value.payload[1..5])
  }

  /** One bearer context; one that does not decode is passed over. */
  function ReadSessionContext(r: SessionResult, e: Ie): SessionResult {
    if e.kind != IE_BEARER_CONTEXT || DecodeIes(e.payload).Err? then r else
    var children := DecodeIes(e.payload).value;
    var ebi := FindIe(children, IE_EBI, 0);
    var r' := if ebi.Some? && ebi.value.payload != [] then r.(ebi := ebi.value.payload[0]) else r;
    match FindByInterface(children, IFACE_PGW_GTPU, [2, 5])
    case None => r'
    case Some(f) => r'.(userTeid := f.teid, userIp := if f.ip != [] then f.ip else r'.userIp)
  }

  function ReadSessionContexts(r: SessionResult, es: seq<Ie>): SessionResult {
    if es == [] then r else ReadSessionContext(ReadSessionContexts(r, es[..|es| - 1]), es[|es| - 1])
  }

  /** A protocol configuration options element that is refused. `refuses` is what the strict
      decoder rejects; nothing when options are off or decoded leniently. */
  predicate PcoRefused(es: seq<Ie>, refuses: Bytes -> bool) {
    var pco, apco := FindIe(es, IE_PCO, 0), FindIe(es, IE_APCO, 0);
    (pco.Some? && refuses(pco.value.payload)) || (apco.Some? && refuses(apco.value.payload))
  }

  /** parseCreateSessionResponse. */
  function ParseSessionResponse(payload: Bytes, configuredPgw: Address, refuses: Bytes -> bool): Result<SessionResult> {
    match DecodeIes(payload)
    case Err => Err
    case Ok(es) =>
      if PcoRefused(es, refuses) then Err else
      if FirstOctet(FindIe(es, IE_CAUSE, 0)) != CAUSE_ACCEPTED || ReadPaa(es).None? then Err else
      var control := FindByInterface(es, IFACE_PGW_GTPC, [1, 0]);
      var r := SessionResult(ReadPaa(es).value,
                             if control.Some? then control.value.teid else 0,
                             if control.Some? && control.value.ip != [] then control.value.ip else configuredPgw,
                             5, 0, []);
      var r' := ReadSessionContexts(r, es);
      if r'.controlTeid == 0 || r'.userTeid == 0 || r'.userIp == [] then Err else Ok(r')
  }

  /** The context names an EBI. */
  predicate Names(e: Ie, ebi: byte) {
    && e.kind == 93 && DecodeIes(e.payload).Ok?
    && var x := FindIe(DecodeIes(e.payload).value, 73, 0);
    x.Some? && x.value.payload != [] && x.value.payload[0] == ebi
  }

  predicate Silent(e: Ie) {
    forall ebi: byte :: !Names(e, ebi)
  }

  lemma {:induction false} LastEbiWins(r: SessionResult, es: seq<Ie>) returns (k: nat)
    ensures var r' := ReadSessionContexts(r, es);
            && r'.paa == r.paa && r'.controlTeid == r.controlTeid && r'.controlIp == r.controlIp
            && (if k < |es| then Names(es[k], r'.ebi) && (forall i :: k < i < |es| ==> Silent(es[i]))
                else r'.ebi == r.ebi && forall i :: 0 <= i < |es| ==> Silent(es[i]))
  {
    k := 0;
    if es == [] {
    } else {
      var n, e := |es| - 1, es[|es| - 1];
      var front := es[..n];
      var j := LastEbiWins(r, front);
      var r1, r' := ReadSessionContexts(r, front), ReadSessionContexts(r, es);
      assert forall i :: 0 <= i < n ==> front[i] == es[i];
      if Names(e, r'.ebi) {
        k := n;
      } else {
        assert Silent(e) && r'.ebi == r1.ebi;
        k := if j < n then j else |es|;
      }
    }
  }

  // ------------------------------------------ responses, however they are laid out

  predicate Is(e: Ie, kind: byte, instance: byte) {
    e.kind == kind && e.instance == instance
  }

  /** The first element of that kind at instance 0. */
  predicate FirstOfKind(es: seq<Ie>, kind: byte, k: nat) {
    k < |es| && Is(es[k], kind, 0) && forall i :: 0 <= i < k ==> !Is(es[i], kind, 0)
  }

  /** Neither kind of protocol configuration options is refused. */
  ghost predicate OptionsTaken(es: seq<Ie>, refuses: Bytes -> bool) {
    forall k: nat :: FirstOfKind(es, 78, k) || FirstOfKind(es, 163, k) ==> !refuses(es[k].payload)
  }

  lemma {:induction false} FoundFirst(es: seq<Ie>, kind: byte) returns (k: nat)
    ensures if FindIe(es, kind, 0).Some? then FirstOfKind(es, kind, k) && FindIe(es, kind, 0) == Some(es[k])
            else forall i :: 0 <= i < |es| ==> !Is(es[i], kind, 0)
  {
    k := 0;
    if es == [] {
    } else if Is(es[0], kind, 0) {
    } else {
      var j := FoundFirst(es[1..], kind);
      k := j + 1;
      assert forall i :: 0 < i < |es| ==> es[i] == es[1..][i - 1];
    }
  }

  lemma RefusedIff(es: seq<Ie>, refuses: Bytes -> bool)
    ensures PcoRefused(es, refuses) <==> !OptionsTaken(es, refuses)
  {
    var i := FoundFirst(es, 78);
    var j := FoundFirst(es, 163);
  }

  /** An accepted response says cause 16, has options that are not refused, and always yields the
      IPv4 address of its PAA, non-zero control and user TEIDs and a PGW user address; the EBI is
      that of the last bearer context naming one, else 5. */
  lemma AcceptedSession(payload: Bytes, configuredPgw: Address, refuses: Bytes -> bool) returns (k: nat, c: nat, p: nat)
    requires ParseSessionResponse(payload, configuredPgw, refuses).Ok?
    ensures var r := ParseSessionResponse(payload, configuredPgw, refuses).value;
            var es := DecodeIes(payload).value;
            && OptionsTaken(es, refuses) && r.controlTeid != 0 && r.userTeid != 0 && |r.userIp| == 4
            && FirstOfKind(es, 2, c) && [16] <= es[c].payload
            && FirstOfKind(es, 79, p) && |es[p].payload| >= 5 && es[p].payload[0] % 8 == 1 && r.paa == es[p].payload[1..5]
            && (if k < |es| then Names(es[k], r.ebi) && (forall i :: k < i < |es| ==> Silent(es[i]))
                else r.ebi == 5 && forall i :: 0 <= i < |es| ==> Silent(es[i]))
  {
    var es := DecodeIes(payload).value;
    RefusedIff(es, refuses);
    c := FoundFirst(es, 2);
    p := FoundFirst(es, 79);
    var control := FindByInterface(es, IFACE_PGW_GTPC, [1, 0]);
    k := LastEbiWins(SessionResult(ReadPaa(es).value,
                                   if control.Some? then control.value.teid else 0,
                                   if control.Some? && control.value.ip != [] then control.value.ip else configuredPgw,
                                   5, 0, []), es);
  }

  /** The first element of that kind and instance starts with these octets. */
  predicate LeadsWith(es: seq<Ie>, kind: byte, instance: byte, head: Bytes) {
    exists k :: 0 <= k < |es| && Is(es[k], kind, instance) && head <= es[k].payload
      && forall i :: 0 <= i < k ==> !Is(es[i], kind, instance)
  }

  predicate OfInterface(e: Ie, iface: byte) {
    e.kind == 87 && ParseFteid(e).Some? && ParseFteid(e).value.iface == iface
  }

  /** The first F-TEID of the interface. */
  predicate FirstOf(es: seq<Ie>, iface: byte, f: Fteid) {
    exists k :: 0 <= k < |es| && OfInterface(es[k], iface) && ParseFteid(es[k]) == Some(f)
      && forall i :: 0 <= i < k ==> !OfInterface(es[i], iface)
  }

  /** What the first F-TEID of an instance says; None if there is none or it cannot be read. */
  predicate At(es: seq<Ie>, instance: byte, f: Option<Fteid>) {
    || (f.None? && forall i :: 0 <= i < |es| ==> !Is(es[i], 87, instance))
    || exists k :: 0 <= k < |es| && Is(es[k], 87, instance) && ParseFteid(es[k]) == f
         && forall i :: 0 <= i < k ==> !Is(es[i], 87, instance)
  }

  /** The F-TEID of the interface; if there is none, the one at instance `a`, else at `b`. */
  predicate Tunnel(es: seq<Ie>, iface: byte, a: byte, b: byte, f: Fteid) {
    || FirstOf(es, iface, f)
    || (&& (forall i :: 0 <= i < |es| ==> !OfInterface(es[i], iface))
        && (At(es, a, Some(f)) || (At(es, a, None) && At(es, b, Some(f)))))
  }

  /** The last bearer context has these children. */
  predicate LastContext(es: seq<Ie>, children: seq<Ie>) {
    exists k :: 0 <= k < |es| && es[k].kind == 93 && es[k].payload == EncodeIes(children)
      && forall i :: k < i < |es| ==> es[i].kind != 93
  }

  /** What a PGW grants. */
  datatype Grant = Grant(pdn: byte, paa: Bytes, control: Fteid, ebi: byte, user: Fteid)

  predicate Proper(g: Grant) {
    && g.pdn % 8 == 1 && |g.paa| == 4 && g.control.teid != 0 && g.user.teid != 0 && |g.user.ip| == 4
  }

  /** The elements of a response, and the children of its last bearer context, grant this. */
  predicate Grants(es: seq<Ie>, children: seq<Ie>, g: Grant) {
    && AllFit(es) && AllFit(children) && LastContext(es, children)
    && LeadsWith(es, 2, 0, [16]) && LeadsWith(es, 79, 0, [g.pdn] + g.paa)
    && Tunnel(es, 32, 1, 0, g.control)
    && LeadsWith(children, 73, 0, [g.ebi]) && Tunnel(children, 33, 2, 5, g.user)
  }

  lemma LeadFound(es: seq<Ie>, kind: byte, instance: byte, head: Bytes)
    requires LeadsWith(es, kind, instance, head)
    ensures FindIe(es, kind, instance).Some? && head <= FindIe(es, kind, instance).value.payload
  {
    var k :| 0 <= k < |es| && Is(es[k], kind, instance) && head <= es[k].payload
             && forall i :: 0 <= i < k ==> !Is(es[i], kind, instance);
    forall i | 0 <= i < k ensures es[i].kind != kind || es[i].instance != instance { assert !Is(es[i], kind, instance); }
    FindChild(es, kind, instance, k);
  }

  lemma {:induction false} InterfaceFound(es: seq<Ie>, iface: byte, k: nat)
    requires k <= |es| && (forall i :: 0 <= i < k ==> !OfInterface(es[i], iface)) && (k < |es| ==> OfInterface(es[k], iface))
    ensures FindInterface(es, iface) == if k < |es| then ParseFteid(es[k]) else None
    decreases k
  {
    if k == 0 {
      assert es != [] ==> OfInterface(es[0], iface);
    } else {
      assert !OfInterface(es[0], iface);
      InterfaceFound(es[1..], iface, k - 1);
    }
  }

  lemma InstanceFound(es: seq<Ie>, instance: byte, f: Option<Fteid>)
    requires At(es, instance, f)
    ensures FindFteid(es, instance) == f
  {
    if k :| 0 <= k < |es| && Is(es[k], IE_FTEID, instance) && ParseFteid(es[k]) == f
            && forall i :: 0 <= i < k ==> !Is(es[i], IE_FTEID, instance) {
      forall i | 0 <= i < k ensures es[i].kind != IE_FTEID || es[i].instance != instance {
        assert !Is(es[i], IE_FTEID, instance);
      }
      FindChild(es, IE_FTEID, instance, k);
    } else {
      forall i | 0 <= i < |es| ensures es[i].kind != IE_FTEID || es[i].instance != instance {
        assert !Is(es[i], IE_FTEID, instance);
      }
      FindChild(es, IE_FTEID, instance, |es|);
    }
  }

  lemma TunnelFound(es: seq<Ie>, iface: byte, a: byte, b: byte, f: Fteid)
    requires Tunnel(es, iface, a, b, f)
    ensures FindByInterface(es, iface, [a, b]) == Some(f)
  {
    if FirstOf(es, iface, f) {
      var k :| 0 <= k < |es| && OfInterface(es[k], iface) && ParseFteid(es[k]) == Some(f)
               && forall i :: 0 <= i < k ==> !OfInterface(es[i], iface);
      InterfaceFound(es, iface, k);
    } else {
      InterfaceFound(es, iface, |es|);
      assert [a, b][1..] == [b];
      if At(es, a, Some(f)) {
        InstanceFound(es, a, Some(f));
      } else {
        InstanceFound(es, a, None);
        InstanceFound(es, b, Some(f));
        assert FindFallback(es, [a, b]) == FindFallback(es, [b]);
      }
    }
  }

  lemma {:induction false} LastContextRead(r: SessionResult, es: seq<Ie>, k: nat)
    requires k < |es| && forall i :: k < i < |es| ==> es[i].kind != IE_BEARER_CONTEXT
    ensures ReadSessionContexts(r, es) == ReadSessionContext(ReadSessionContexts(r, es[..k]), es[k])
    decreases |es|
  {
    if k == |es| - 1 {
    } else {
      var front := es[..|es| - 1];
      assert front[..k] == es[..k];
      LastContextRead(r, front, k);
    }
  }

  lemma ContextWith(r: SessionResult, e: Ie, children: seq<Ie>, ebi: byte, f: Fteid)
    requires e.kind == IE_BEARER_CONTEXT && DecodeIes(e.payload) == Ok(children)
    requires FindIe(children, IE_EBI, 0).Some? && [ebi] <= FindIe(children, IE_EBI, 0).value.payload
    requires FindByInterface(children, IFACE_PGW_GTPU, [2, 5]) == Some(f) && f.ip != []
    ensures ReadSessionContext(r, e) == r.(ebi := ebi, userTeid := f.teid, userIp := f.ip)
  {}

  lemma GrantedContexts(r: SessionResult, es: seq<Ie>, children: seq<Ie>, g: Grant)
    requires Proper(g) && Grants(es, children, g)
    ensures ReadSessionContexts(r, es) == r.(ebi := g.ebi, userTeid := g.user.teid, userIp := g.user.ip)
  {
    var k :| 0 <= k < |es| && es[k].kind == IE_BEARER_CONTEXT && es[k].payload == EncodeIes(children)
             && forall i :: k < i < |es| ==> es[i].kind != IE_BEARER_CONTEXT;
    IeRoundTrip(children);
    LeadFound(children, IE_EBI, 0, [g.ebi]);
    TunnelFound(children, IFACE_PGW_GTPU, 2, 5, g.user);
    LastContextRead(r, es, k);
    var j := LastEbiWins(r, es[..k]);
    ContextWith(ReadSessionContexts(r, es[..k]), es[k], children, g.ebi, g.user);
  }

  lemma GrantedFields(es: seq<Ie>, children: seq<Ie>, g: Grant)
    requires Proper(g) && Grants(es, children, g)
    ensures FirstOctet(FindIe(es, IE_CAUSE, 0)) == CAUSE_ACCEPTED
    ensures ReadPaa(es) == Some(g.paa) && FindByInterface(es, IFACE_PGW_GTPC, [1, 0]) == Some(g.control)
  {
    LeadFound(es, IE_CAUSE, 0, [CAUSE_ACCEPTED]);
    LeadFound(es, IE_PAA, 0, [g.pdn] + g.paa);
    var p := FindIe(es, IE_PAA, 0).value.payload;
    assert p[..5] == [g.pdn] + g.paa;
    assert p[1..5] == p[..5][1..];
    TunnelFound(es, IFACE_PGW_GTPC, 1, 0, g.control);
  }

  lemma ParseWith(payload: Bytes, configuredPgw: Address, refuses: Bytes -> bool, es: seq<Ie>, paa: Bytes, control: Fteid, r: SessionResult)
    requires DecodeIes(payload) == Ok(es) && !PcoRefused(es, refuses) && FirstOctet(FindIe(es, IE_CAUSE, 0)) == CAUSE_ACCEPTED
    requires ReadPaa(es) == Some(paa) && FindByInterface(es, IFACE_PGW_GTPC, [1, 0]) == Some(control)
    requires ReadSessionContexts(
               SessionResult(paa, control.teid, if control.ip != [] then control.ip else configuredPgw, 5, 0, []), es) == r
    requires r.controlTeid != 0 && r.userTeid != 0 && r.userIp != []
    ensures ParseSessionResponse(payload, configuredPgw, refuses) == Ok(r)
  {}

  /** Every granted session is recovered: address, control and user F-TEID, EBI, however the
      elements are arranged and whatever else the response carries. Of several causes, addresses
      and control F-TEIDs the first counts, of several bearer contexts the last. */
  lemma SessionRecovered(es: seq<Ie>, children: seq<Ie>, g: Grant, configuredPgw: Address, refuses: Bytes -> bool)
    requires Proper(g) && Grants(es, children, g) && OptionsTaken(es, refuses)
    ensures ParseSessionResponse(EncodeIes(es), configuredPgw, refuses)
            == Ok(SessionResult(g.paa, g.control.teid, if g.control.ip != [] then g.control.ip else configuredPgw,
                                g.ebi, g.user.teid, g.user.ip))
  {
    var r := SessionResult(g.paa, g.control.teid, if g.control.ip != [] then g.control.ip else configuredPgw, 5, 0, []);
    IeRoundTrip(es);
    RefusedIff(es, refuses);
    GrantedFields(es, children, g);
    GrantedContexts(r, es, children, g);
    ParseWith(EncodeIes(es), configuredPgw, refuses, es, g.paa, g.control,
              r.(ebi := g.ebi, userTeid := g.user.teid, userIp := g.user.ip));
  }
}
