/** GTPv2-C messages and information elements (3GPP TS 29.274): the codec of the S2b client. */
module Gtpv2 {
  import opened Octets

  datatype Message = Message(kind: byte, hasTeid: bool, teid: nat, seqNo: nat, payload: Bytes)

  datatype Ie = Ie(kind: byte, instance: byte, payload: Bytes)

  datatype RawIe = RawIe(ie: Ie, offset: nat, length: nat, raw: Bytes)

  const MIN_SEQUENCE: nat := 1
  const MAX_SEQUENCE: nat := 0xffffff

  // ---------------------------------------------------------------- messages

  function HeaderLen(hasTeid: bool): nat {
    if hasTeid then 12 else 8
  }

  predicate Encodable(m: Message) {
    MIN_SEQUENCE <= m.seqNo <= MAX_SEQUENCE && HeaderLen(m.hasTeid) - 4 + |m.payload| <= 0xffff
  }

  function MessageBytes(m: Message): Bytes {
    [if m.hasTeid then 0x48 else 0x40, m.kind] + U16(HeaderLen(m.hasTeid) - 4 + |m.payload|)
    + (if m.hasTeid then U32(m.teid) else []) + U24(m.seqNo) + [0] + m.payload
  }

  function EncodeMessage(m: Message): Result<Bytes> {
    if Encodable(m) then Ok(MessageBytes(m)) else Err
  }

  /** message.encode, which fills a buffer field by field. */
  method Encode(m: Message) returns (r: Result<Bytes>)
    ensures r == EncodeMessage(m)
    ensures r.Ok? <==> 1 <= m.seqNo <= 0xffffff && |m.payload| <= if m.hasTeid then 65527 else 65531
  {
    if m.seqNo < MIN_SEQUENCE || m.seqNo > MAX_SEQUENCE { return Err; }
    var headerLen, flags: byte := 8, 0x40;
    if m.hasTeid { flags, headerLen := 0x48, 12; }
    var length := headerLen - 4 + |m.payload|;
    if length > 0xffff { return Err; }
    var out := new byte[headerLen + |m.payload|];
    ghost var done := [flags, m.kind] + U16(length);
    StoredNext(out[..], [], done);
    Store(out, 0, [flags, m.kind] + U16(length));
    var offset := 4;
    if m.hasTeid {
      StoredNext(out[..], done, U32(m.teid));
      Store(out, offset, U32(m.teid));
      offset, done := offset + 4, done + U32(m.teid);
    }
    StoredNext(out[..], done, U24(m.seqNo) + [0]);
    Store(out, offset, U24(m.seqNo) + [0]);
    offset, done := offset + 4, done + (U24(m.seqNo) + [0]);
    StoredNext(out[..], done, m.payload);
    Store(out, offset, m.payload);
    assert out[..] == done + m.payload;
    assert done + m.payload == MessageBytes(m);
    r := Ok(out[..]);
  }

  /** decodeMessage; the top three bits of the first octet are the version, bit 4 the T flag. */
  function DecodeMessage(b: Bytes): Result<Message> {
    if |b| < 8 || b[0] / 32 != 2 || GetU16(b, 2) != |b| - 4 then Err else
    var hasTeid := b[0] / 8 % 2 == 1;
    if hasTeid && |b| < 12 then Err else
    var at := if hasTeid then 8 else 4;
    var seqNo := GetU24(b, at);
    if seqNo < MIN_SEQUENCE || seqNo > MAX_SEQUENCE then Err else
    Ok(Message(b[1], hasTeid, if hasTeid then GetU32(b, 4) else 0, seqNo, b[at + 4..]))
  }

  /** A message in the form that decoding gives: no TEID value without the flag. */
  predicate Normal(m: Message) {
    if m.hasTeid then m.teid < P32 else m.teid == 0
  }

  lemma HeaderFields(m: Message)
    requires Encodable(m)
    ensures var b, n := MessageBytes(m), HeaderLen(m.hasTeid);
            && |b| == n + |m.payload| && b[n..] == m.payload
            && b[0] == (if m.hasTeid then 0x48 else 0x40) && b[1] == m.kind
            && b[2..4] == U16(n - 4 + |m.payload|) && b[n - 4..n - 1] == U24(m.seqNo)
            && (m.hasTeid ==> b[4..8] == U32(m.teid))
  {
    var n, len := HeaderLen(m.hasTeid), HeaderLen(m.hasTeid) - 4 + |m.payload|;
    var h := [if m.hasTeid then 0x48 else 0x40, m.kind] + U16(len);
    var t: Bytes := if m.hasTeid then U32(m.teid) else [];
    var s := U24(m.seqNo) + [0];
    var b := MessageBytes(m);
    assert b == h + t + s + m.payload;
    assert |h| == 4 && |h + t| == n - 4 && |h + t + s| == n;
    assert b[..4] == h && h[2..4] == U16(len);
    assert b[4..n - 4] == t;
    assert b[n - 4..n - 1] == U24(m.seqNo);
  }

  lemma HeaderValues(m: Message)
    requires Normal(m) && Encodable(m)
    ensures var b, n := MessageBytes(m), HeaderLen(m.hasTeid);
            && |b| == n + |m.payload|
            && GetU16(b, 2) == |b| - 4 && GetU24(b, n - 4) == m.seqNo
            && (m.hasTeid ==> GetU32(b, 4) == m.teid)
  {
    var b, n := MessageBytes(m), HeaderLen(m.hasTeid);
    HeaderFields(m);
    Read16(b, 2, n - 4 + |m.payload|);
    Read24(b, n - 4, m.seqNo);
    if m.hasTeid { Read32(b, 4, m.teid); }
  }

  lemma DecodeFields(b: Bytes, m: Message)
    requires Normal(m) && Encodable(m)
    requires var n := HeaderLen(m.hasTeid);
             && |b| == n + |m.payload| && b[n..] == m.payload
             && b[0] == (if m.hasTeid then 0x48 else 0x40) && b[1] == m.kind
             && GetU16(b, 2) == |b| - 4 && GetU24(b, n - 4) == m.seqNo
             && (m.hasTeid ==> GetU32(b, 4) == m.teid)
    ensures DecodeMessage(b) == Ok(m)
  {}

  /** Decoding undoes encoding. */
  lemma MessageRoundTrip(m: Message)
    requires Normal(m) && Encodable(m)
    ensures DecodeMessage(MessageBytes(m)) == Ok(m)
  {
    HeaderFields(m);
    HeaderValues(m);
    DecodeFields(MessageBytes(m), m);
  }

  /** What re-encoding does to an accepted buffer: the piggybacking and spare bits of the first
      octet and the spare octet after the sequence number become zero, all else stays. */
  lemma ReencodeMessage(b: Bytes)
    requires DecodeMessage(b).Ok?
    ensures var m := DecodeMessage(b).value;
            var at := HeaderLen(m.hasTeid) - 1;
            && Encodable(m) && Normal(m)
            && MessageBytes(m) == b[0 := if m.hasTeid then 0x48 else 0x40][at := 0]
  {
    var m := DecodeMessage(b).value;
    var n := HeaderLen(m.hasTeid);
    PutGet16(b, 2);
    PutGet24(b, n - 4);
    if m.hasTeid { PutGet32(b, 4); }
    HeaderFields(m);
    var c := MessageBytes(m);
    var d := b[0 := if m.hasTeid then 0x48 else 0x40][n - 1 := 0];
    SpareOctet(m);
    assert |c| == |b|;
    forall i | 0 <= i < |c|
      ensures c[i] == d[i]
    {
      if 2 <= i < 4 { assert c[i] == c[2..4][i - 2] && b[i] == b[2..4][i - 2]; }
      else if n - 4 <= i < n - 1 { assert c[i] == c[n - 4..n - 1][i - (n - 4)] && b[i] == b[n - 4..n - 1][i - (n - 4)]; }
      else if 4 <= i < n - 4 { assert c[i] == c[4..8][i - 4] && b[i] == b[4..8][i - 4]; }
      else if n <= i { assert c[i] == c[n..][i - n] && b[i] == b[n..][i - n]; }
    }
  }

  lemma SpareOctet(m: Message)
    ensures |MessageBytes(m)| >= HeaderLen(m.hasTeid) && MessageBytes(m)[HeaderLen(m.hasTeid) - 1] == 0
  {}

  // ---------------------------------------------------- information elements

  function IeBytes(e: Ie): Bytes {
    [e.kind] + U16(|e.payload|) + [e.instance % 16] + e.payload
  }

  function EncodeIes(es: seq<Ie>): Bytes {
    if es == [] then [] else IeBytes(es[0]) + EncodeIes(es[1..])
  }

  method EncodeAll(es: seq<Ie>) returns (out: Bytes)
    ensures out == EncodeIes(es)
  {
    out := [];
    for i := 0 to |es|
      invariant out + EncodeIes(es[i..]) == EncodeIes(es)
    {
      assert es[i..][1..] == es[i + 1..];
      ghost var was := out;
      out := out + IeBytes(es[i]);
      assert was + (IeBytes(es[i]) + EncodeIes(es[i + 1..])) == out + EncodeIes(es[i + 1..]);
    }
    assert out + [] == out;
  }

  function FirstIe(b: Bytes): Ie
    requires |b| >= 4 && |b| >= 4 + GetU16(b, 1)
  {
    Ie(b[0], b[3] % 16, b[4..4 + GetU16(b, 1)])
  }

  predicate Framed(b: Bytes) {
    |b| >= 4 && |b| >= 4 + GetU16(b, 1)
  }

  /** decodeIEs */
  function DecodeIes(b: Bytes): Result<seq<Ie>>
    decreases |b|
  {
    if b == [] then Ok([])
    else if !Framed(b) then Err
    else Cons(FirstIe(b), DecodeIes(b[4 + GetU16(b, 1)..]))
  }

  method DecodeList(input: Bytes) returns (r: Result<seq<Ie>>)
    ensures r == DecodeIes(input)
  {
    var out: seq<Ie> := [];
    var payload := input;
    JoinNone(DecodeIes(input));
    while |payload| > 0
      invariant DecodeIes(input) == Join(out, DecodeIes(payload))
      decreases |payload|
    {
      if |payload| < 4 { return Err; }
      var l := GetU16(payload, 1);
      if |payload| < 4 + l { return Err; }
      JoinCons(out, FirstIe(payload), DecodeIes(payload[4 + l..]));
      out := out + [Ie(payload[0], payload[3] % 16, payload[4..4 + l])];
      payload := payload[4 + l..];
    }
    assert out + [] == out;
    r := Ok(out);
  }

  /** An element whose length and instance the wire can carry. */
  predicate Fits(e: Ie) {
    |e.payload| < P16 && e.instance < 16
  }

  lemma FirstOfEncoded(e: Ie, rest: Bytes)
    requires Fits(e)
    ensures var b := IeBytes(e) + rest;
            Framed(b) && FirstIe(b) == e && b[4 + GetU16(b, 1)..] == rest
  {
    var b := IeBytes(e) + rest;
    assert b[1..3] == U16(|e.payload|);
    Read16(b, 1, |e.payload|);
    assert b[4..4 + |e.payload|] == e.payload;
  }

  lemma DecodedFits(b: Bytes)
    requires DecodeIes(b).Ok? && b != []
    ensures DecodeIes(b).value != [] && Fits(DecodeIes(b).value[0])
  {}

  /** Decoding a concatenation of encodings gives the list back exactly when every element fits
      its length and instance fields. */
  lemma {:induction false} IeRoundTripIff(es: seq<Ie>)
    ensures DecodeIes(EncodeIes(es)) == Ok(es) <==> forall i :: 0 <= i < |es| ==> Fits(es[i])
  {
    if es == [] {
    } else {
      IeRoundTripIff(es[1..]);
      var b := EncodeIes(es);
      assert b != [];
      assert [es[0]] + es[1..] == es;
      assert forall i :: 0 <= i < |es| - 1 ==> es[1..][i] == es[i + 1];
      if Fits(es[0]) {
        FirstOfEncoded(es[0], EncodeIes(es[1..]));
        var d := DecodeIes(EncodeIes(es[1..]));
        if d.Ok? {
          assert ([es[0]] + d.value)[1..] == d.value;
        }
        if forall i :: 0 <= i < |es[1..]| ==> Fits(es[1..][i]) {
          forall i | 0 <= i < |es| ensures Fits(es[i]) { if i > 0 { assert es[i] == es[1..][i - 1]; } }
        }
      } else if DecodeIes(b).Ok? {
        DecodedFits(b);
      }
    }
  }

  lemma IeRoundTrip(es: seq<Ie>)
    requires forall i :: 0 <= i < |es| ==> Fits(es[i])
    ensures DecodeIes(EncodeIes(es)) == Ok(es)
  {
    IeRoundTripIff(es);
  }

  // -------------------------------------------------------- elements with raw

  function RawAt(b: Bytes, offset: nat): (x: RawIe)
    requires offset <= |b| && Framed(b[offset..])
    ensures offset + 4 + x.length <= |b|
  {
    var l := GetU16(b[offset..], 1);
    RawIe(FirstIe(b[offset..]), offset, l, b[offset..offset + 4 + l])
  }

  /** decodeIEsWithRaw from this offset on. */
  function DecodeRaw(b: Bytes, offset: nat): Result<seq<RawIe>>
    requires offset <= |b|
    decreases |b| - offset
  {
    if offset == |b| then Ok([])
    else if !Framed(b[offset..]) then Err
    else Cons(RawAt(b, offset), DecodeRaw(b, offset + 4 + RawAt(b, offset).length))
  }

  lemma NextRaw(out: seq<RawIe>, b: Bytes, offset: nat)
    requires offset < |b|
    ensures if !Framed(b[offset..]) then Join(out, DecodeRaw(b, offset)).Err?
            else var x := RawAt(b, offset);
            Join(out, DecodeRaw(b, offset)) == Join(out + [x], DecodeRaw(b, offset + 4 + x.length))
  {
    if Framed(b[offset..]) {
      var x := RawAt(b, offset);
      JoinCons(out, x, DecodeRaw(b, offset + 4 + x.length));
    }
  }

  method DecodeListWithRaw(b: Bytes) returns (r: Result<seq<RawIe>>)
    ensures r == DecodeRaw(b, 0)
  {
    var out: seq<RawIe> := [];
    var offset := 0;
    JoinNone(DecodeRaw(b, 0));
    while offset < |b|
      invariant 0 <= offset <= |b|
      invariant DecodeRaw(b, 0) == Join(out, DecodeRaw(b, offset))
    {
      NextRaw(out, b, offset);
      if !Framed(b[offset..]) { return Err; }
      var x := RawAt(b, offset);
      out := out + [x];
      offset := offset + 4 + x.length;
    }
    assert out + [] == out;
    r := Ok(out);
  }

  function IesOf(rs: seq<RawIe>): (es: seq<Ie>)
    ensures |es| == |rs| && forall i :: 0 <= i < |rs| ==> es[i] == rs[i].ie
  {
    seq(|rs|, i requires 0 <= i < |rs| => rs[i].ie)
  }

  function Raws(rs: seq<RawIe>): Bytes {
    if rs == [] then [] else rs[0].raw + Raws(rs[1..])
  }

  lemma IesOfCons(x: RawIe, rs: seq<RawIe>)
    ensures IesOf([x] + rs) == [x.ie] + IesOf(rs)
    ensures Raws([x] + rs) == x.raw + Raws(rs)
  {
    assert ([x] + rs)[1..] == rs;
  }

  lemma RawStep(b: Bytes, offset: nat)
    requires offset <= |b| && Framed(b[offset..])
    ensures var x, rest := RawAt(b, offset), b[offset..];
            && x.ie == FirstIe(rest) && x.length == GetU16(rest, 1)
            && rest[4 + x.length..] == b[offset + 4 + x.length..]
            && x.raw + b[offset + 4 + x.length..] == rest
  {}

  /** Both decoders accept the same inputs with equal elements, and the raw slices concatenate
      to the input. */
  lemma {:induction false} RawAgrees(b: Bytes, offset: nat)
    requires offset <= |b|
    ensures DecodeRaw(b, offset).Ok? <==> DecodeIes(b[offset..]).Ok?
    ensures DecodeRaw(b, offset).Ok? ==>
              IesOf(DecodeRaw(b, offset).value) == DecodeIes(b[offset..]).value && Raws(DecodeRaw(b, offset).value) == b[offset..]
    decreases |b| - offset
  {
    if offset == |b| {
    } else if !Framed(b[offset..]) {
    } else {
      var x := RawAt(b, offset);
      var end := offset + 4 + x.length;
      RawStep(b, offset);
      RawAgrees(b, end);
      var ies := DecodeIes(b[end..]);
      assert DecodeIes(b[offset..]) == Cons(x.ie, ies);
      if DecodeRaw(b, end).Ok? {
        IesOfCons(x, DecodeRaw(b, end).value);
      }
    }
  }

  /** A raw slice starts at its offset, has its length, and encodes its element up to the
      spare half octet. */
  predicate RawOk(b: Bytes, r: RawIe) {
    && r.length == |r.ie.payload| && r.offset + 4 + r.length <= |b|
    && r.raw == b[r.offset..r.offset + 4 + r.length]
    && IeBytes(r.ie) == r.raw[3 := r.raw[3] % 16]
  }

  lemma RawAtOk(b: Bytes, offset: nat)
    requires offset <= |b| && Framed(b[offset..])
    ensures RawOk(b, RawAt(b, offset))
  {
    var rest, x := b[offset..], RawAt(b, offset);
    PutGet16(rest, 1);
    assert x.raw == rest[..4 + x.length];
    assert x.raw[3 := x.raw[3] % 16] == [rest[0]] + rest[1..3] + [rest[3] % 16] + rest[4..4 + x.length];
  }

  lemma {:induction false} RawSlices(b: Bytes, offset: nat)
    requires offset <= |b| && DecodeRaw(b, offset).Ok?
    ensures forall r :: r in DecodeRaw(b, offset).value ==> RawOk(b, r)
    decreases |b| - offset
  {
    if offset >= |b| {
    } else {
      RawAtOk(b, offset);
      RawSlices(b, offset + 4 + RawAt(b, offset).length);
    }
  }

  // ----------------------------------------------------------------- F-TEIDs

  const IE_CAUSE: byte := 2
  const IE_RECOVERY: byte := 3
  const IE_EBI: byte := 73
  const IE_PCO: byte := 78
  const IE_PAA: byte := 79
  const IE_BEARER_QOS: byte := 80
  const IE_TFT: byte := 84
  const IE_FTEID: byte := 87
  const IE_BEARER_CONTEXT: byte := 93
  const IE_CHARGING_ID: byte := 94
  const IE_APCO: byte := 163

  /** An IPv4 address, or the lack of one. */
  type Address = a: Bytes | a == [] || |a| == 4

  datatype Fteid = Fteid(iface: byte, teid: nat, ip: Address)

  function FteidIe(instance: byte, f: Fteid): Ie {
    Ie(IE_FTEID, instance, [0x80 + f.iface % 64] + U32(f.teid) + f.ip)
  }

  function ParseFteid(e: Ie): Option<Fteid> {
    if |e.payload| < 5 then None else
    var iface, teid := e.payload[0] % 64, GetU32(e.payload, 1);
    if e.payload[0] / 128 == 0 || |e.payload| < 9 then Some(Fteid(iface, teid, []))
    else Some(Fteid(iface, teid, e.payload[5..9]))
  }

  lemma FteidRoundTrip(instance: byte, f: Fteid)
    requires f.iface < 64 && f.teid < P32
    ensures ParseFteid(FteidIe(instance, f)) == Some(f)
  {
    var p := FteidIe(instance, f).payload;
    assert p[1..5] == U32(f.teid);
    Read32(p, 1, f.teid);
    assert p[5..] == f.ip;
    assert p[0] == 128 + f.iface;
    if f.ip != [] { assert p[5..9] == f.ip; }
  }

  /** The first element of this type and instance. */
  function FindIe(es: seq<Ie>, kind: byte, instance: byte): Option<Ie> {
    if es == [] then None
    else if es[0].kind == kind && es[0].instance == instance then Some(es[0])
    else FindIe(es[1..], kind, instance)
  }

  method Find(es: seq<Ie>, kind: byte, instance: byte) returns (r: Option<Ie>)
    ensures r == FindIe(es, kind, instance)
  {
    for i := 0 to |es|
      invariant FindIe(es, kind, instance) == FindIe(es[i..], kind, instance)
    {
      assert es[i..][1..] == es[i + 1..];
      if es[i].kind == kind && es[i].instance == instance { return Some(es[i]); }
    }
    r := None;
  }
}
