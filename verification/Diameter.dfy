/** Diameter messages and AVPs (section 4.1 of RFC 6733). */
module Diameter {
  import opened Octets

  datatype Avp = Avp(code: nat, vendor: nat, flags: byte, data: Bytes)

  const MANDATORY: byte := 0x40
  const HEADER: nat := 20
  const MAX_MESSAGE: nat := 1048576

  function Pad4(n: nat): nat {
    (n + 3) / 4 * 4
  }

  predicate VBit(flags: byte) {
    flags >= 128
  }

  function HeaderSize(vendor: nat): nat {
    if vendor != 0 then 12 else 8
  }

  /** The flags with the V bit as the vendor demands. */
  function WireFlags(a: Avp): byte {
    if a.vendor != 0 && !VBit(a.flags) then a.flags + 128 else a.flags
  }

  function Normal(a: Avp): Avp {
    a.(flags := WireFlags(a))
  }

  function Normals(xs: seq<Avp>): (r: seq<Avp>)
    ensures |r| == |xs| && forall i :: 0 <= i < |xs| ==> r[i] == Normal(xs[i])
  {
    seq(|xs|, i requires 0 <= i < |xs| => Normal(xs[i]))
  }

  function Len(a: Avp): nat {
    HeaderSize(a.vendor) + |a.data|
  }

  function AvpBytes(a: Avp): (b: Bytes)
    ensures |b| == Pad4(Len(a)) && |b| >= 8
  {
    U32(a.code) + [WireFlags(a)] + U24(Len(a)) + (if a.vendor != 0 then U32(a.vendor) else []) + a.data
    + Zeros(Pad4(Len(a)) - Len(a))
  }

  /** AVP.Encode, which fills a zeroed buffer. */
  method EncodeAvp(a: Avp) returns (out: Bytes)
    ensures out == AvpBytes(a)
  {
    var flags, headerSize := a.flags, 8;
    if a.vendor != 0 {
      if flags < 128 { flags := flags + 128; }
      headerSize := 12;
    }
    var length := headerSize + |a.data|;
    var padded := Pad4(length);
    var v: Bytes := [];
    if a.vendor != 0 { v := U32(a.vendor); }
    out := FillBuffer(U32(a.code), flags, U24(length), v, a.data, padded);
  }

  /** A zeroed buffer with the fields copied in one behind the other. */
  method FillBuffer(code: Bytes, flags: byte, length: Bytes, vendor: Bytes, data: Bytes, padded: nat) returns (out: Bytes)
    requires |code| == 4 && |length| == 3 && 8 + |vendor| + |data| <= padded
    ensures out == code + [flags] + length + vendor + data + Zeros(padded - (8 + |vendor| + |data|))
  {
    var buf := new byte[padded](_ => 0);
    var head := code + [flags] + length;
    assert buf[..] == [] + Zeros(padded);
    StoredZeros([], padded, head);
    Store(buf, 0, head);
    assert [] + head == head;
    StoredZeros(head, padded - 8, vendor);
    Store(buf, 8, vendor);
    StoredZeros(head + vendor, padded - (8 + |vendor|), data);
    Store(buf, 8 + |vendor|, data);
    out := buf[..];
  }

  function AvpsBytes(xs: seq<Avp>): Bytes {
    if xs == [] then [] else AvpBytes(xs[0]) + AvpsBytes(xs[1..])
  }

  // ---------------------------------------------------------------- decoding

  function VendorOf(b: Bytes): nat
    requires |b| >= 8
  {
    if VBit(b[4]) && |b| >= 12 then GetU32(b, 8) else 0
  }

  /** The buffer starts with a whole AVP, its padding included. */
  predicate Framed(b: Bytes) {
    && |b| >= 8 && (VBit(b[4]) ==> |b| >= 12 && GetU32(b, 8) != 0)
    && HeaderSize(VendorOf(b)) <= GetU24(b, 5) && Pad4(GetU24(b, 5)) <= |b|
  }

  function FirstAvp(b: Bytes): Avp
    requires Framed(b)
  {
    Avp(GetU32(b, 0), VendorOf(b), b[4], b[HeaderSize(VendorOf(b))..GetU24(b, 5)])
  }

  function DecodeAvps(b: Bytes): Result<seq<Avp>>
    decreases |b|
  {
    if b == [] then Ok([])
    else if !Framed(b) then Err
    else Cons(FirstAvp(b), DecodeAvps(b[Pad4(GetU24(b, 5))..]))
  }

  /** One round of the decoding loop; None on any of its errors. */
  method DecodeOne(data: Bytes) returns (a: Option<Avp>, step: nat)
    requires data != []
    ensures a.Some? <==> Framed(data)
    ensures a.Some? ==> a.value == FirstAvp(data) && step == Pad4(GetU24(data, 5)) && 0 < step <= |data|
  {
    step := 0;
    if |data| < 8 { return None, step; }
    var code, flags, length := GetU32(data, 0), data[4], GetU24(data, 5);
    var headerSize, vendor := 8, 0;
    if VBit(flags) {
      headerSize := 12;
      if |data| < headerSize { return None, step; }
      vendor := GetU32(data, 8);
      if vendor == 0 { return None, step; }
    }
    if length < headerSize || |data| < length { return None, step; }
    var avp := Avp(code, vendor, flags, data[headerSize..length]);
    step := Pad4(length);
    if |data| < step { return None, step; }
    a := Some(avp);
  }

  method DecodeAVPs(input: Bytes) returns (r: Result<seq<Avp>>)
    ensures r == DecodeAvps(input)
  {
    var out: seq<Avp> := [];
    var data := input;
    JoinNone(DecodeAvps(input));
    while |data| > 0
      invariant DecodeAvps(input) == Join(out, DecodeAvps(data))
      decreases |data|
    {
      var a, step := DecodeOne(data);
      if a.None? { return Err; }
      JoinCons(out, a.value, DecodeAvps(data[step..]));
      out := out + [a.value];
      data := data[step..];
    }
    assert out + [] == out;
    r := Ok(out);
  }

  // --------------------------------------------------------------- inverses

  /** In the fields' ranges, with the V bit only for a vendor and a length of 24 bits. */
  predicate Fits(a: Avp) {
    && a.code < P32 && a.vendor < P32
    && (VBit(a.flags) ==> a.vendor != 0) && Len(a) < P24
  }

  lemma Layout(a: Avp, rest: Bytes)
    ensures var b, h, n := AvpBytes(a) + rest, HeaderSize(a.vendor), Len(a);
            && b[0..4] == U32(a.code) && b[4] == WireFlags(a) && b[5..8] == U24(n)
            && (a.vendor != 0 ==> b[8..12] == U32(a.vendor))
            && b[h..n] == a.data && b[Pad4(n)..] == rest && b[n..Pad4(n)] == Zeros(Pad4(n) - n)
  {
    var h, n := HeaderSize(a.vendor), Len(a);
    var v: Bytes := if a.vendor != 0 then U32(a.vendor) else [];
    var head := U32(a.code) + [WireFlags(a)] + U24(n) + v;
    var z := Zeros(Pad4(n) - n);
    var b := AvpBytes(a) + rest;
    assert b == head + a.data + z + rest;
    assert |head| == h && b[..h] == head;
    assert b[0..4] == head[0..4] && b[4] == head[4] && b[5..8] == head[5..8];
    if a.vendor != 0 { assert b[8..12] == head[8..12]; }
  }

  lemma PadWithin(n: nat)
    ensures n <= Pad4(n) < n + 4 && Pad4(n) % 4 == 0
  {}

  lemma FirstOfEncoded(a: Avp, rest: Bytes)
    requires Fits(a)
    ensures var b := AvpBytes(a) + rest;
            Framed(b) && FirstAvp(b) == Normal(a) && b[Pad4(GetU24(b, 5))..] == rest
  {
    var b := AvpBytes(a) + rest;
    Layout(a, rest);
    PadWithin(Len(a));
    Read32(b, 0, a.code);
    Read24(b, 5, Len(a));
    if a.vendor != 0 { Read32(b, 8, a.vendor); }
  }

  lemma DecodedFits(b: Bytes)
    requires Framed(b)
    ensures Fits(FirstAvp(b)) && Normal(FirstAvp(b)) == FirstAvp(b)
  {
    PadWithin(GetU24(b, 5));
  }

  ghost predicate AllFit(xs: seq<Avp>) {
    forall i :: 0 <= i < |xs| ==> Fits(xs[i])
  }

  lemma AllFitCons(a: Avp, xs: seq<Avp>)
    ensures AllFit([a] + xs) <==> Fits(a) && AllFit(xs)
  {
    var all := [a] + xs;
    assert all[0] == a && forall i :: 0 <= i < |xs| ==> all[i + 1] == xs[i];
    if AllFit(all) {
      forall i | 0 <= i < |xs| ensures Fits(xs[i]) { assert Fits(all[i + 1]); }
    }
  }

  lemma NormalsCons(x: Avp, xs: seq<Avp>)
    ensures Normals([x] + xs) == [Normal(x)] + Normals(xs)
  {
    assert forall i :: 0 <= i < |xs| ==> ([x] + xs)[i + 1] == xs[i];
  }

  /** Decoding the concatenated encodings gives the list back, V bits normalised, exactly when
      every AVP fits. */
  lemma {:induction false} RoundTripIff(xs: seq<Avp>)
    requires forall i :: 0 <= i < |xs| ==> xs[i].code < P32 && xs[i].vendor < P32
    ensures DecodeAvps(AvpsBytes(xs)) == Ok(Normals(xs)) <==> AllFit(xs)
  {
    if xs == [] {
      assert Normals(xs) == [];
    } else {
      var a, rest := xs[0], xs[1..];
      RoundTripIff(rest);
      assert [a] + rest == xs;
      NormalsCons(a, rest);
      AllFitCons(a, rest);
      OneMore(a, AvpsBytes(rest), Normals(rest));
    }
  }

  lemma OneMore(a: Avp, b: Bytes, xs: seq<Avp>)
    requires a.code < P32 && a.vendor < P32
    ensures DecodeAvps(AvpBytes(a) + b) == Ok([Normal(a)] + xs) <==> Fits(a) && DecodeAvps(b) == Ok(xs)
  {
    var all := AvpBytes(a) + b;
    if Fits(a) {
      FirstOfEncoded(a, b);
      assert DecodeAvps(all) == Cons(Normal(a), DecodeAvps(b));
      if DecodeAvps(b).Ok? {
        assert ([Normal(a)] + DecodeAvps(b).value)[1..] == DecodeAvps(b).value;
        assert ([Normal(a)] + xs)[1..] == xs;
      }
    } else if Framed(all) && DecodeAvps(all).Ok? {
      DecodedFits(all);
      assert DecodeAvps(all).value[0] == FirstAvp(all);
      assert !Fits(Normal(a));
      assert ([Normal(a)] + xs)[0] == Normal(a);
    }
  }

  lemma RoundTrip(xs: seq<Avp>)
    requires AllFit(xs)
    ensures DecodeAvps(AvpsBytes(xs)) == Ok(Normals(xs))
  {
    RoundTripIff(xs);
  }

  /** The buffer with the padding octets of every AVP set to zero. */
  function Zeroed(b: Bytes): Bytes
    decreases |b|
  {
    if !Framed(b) then b else
    var n := GetU24(b, 5);
    PadWithin(n);
    b[..n] + Zeros(Pad4(n) - n) + Zeroed(b[Pad4(n)..])
  }

  lemma Pieces(b: Bytes, h: nat, n: nat)
    requires 8 <= h <= n <= |b|
    ensures b[0..4] + [b[4]] + b[5..8] + b[8..h] + b[h..n] == b[..n]
  {}

  lemma FirstFields(b: Bytes)
    requires Framed(b)
    ensures var a, n := FirstAvp(b), GetU24(b, 5);
            var h := HeaderSize(a.vendor);
            && h <= n <= |b| && U32(a.code) == b[0..4] && WireFlags(a) == b[4] && U24(Len(a)) == b[5..8] && Len(a) == n
            && (if a.vendor != 0 then U32(a.vendor) else []) == b[8..h] && a.data == b[h..n]
  {
    PadWithin(GetU24(b, 5));
    PutGet32(b, 0);
    PutGet24(b, 5);
    if VendorOf(b) != 0 { PutGet32(b, 8); }
  }

  lemma ReencodeFirst(b: Bytes)
    requires Framed(b)
    ensures var n := GetU24(b, 5);
            n <= Pad4(n) && n <= |b| && AvpBytes(FirstAvp(b)) == b[..n] + Zeros(Pad4(n) - n)
  {
    var a, n := FirstAvp(b), GetU24(b, 5);
    PadWithin(n);
    FirstFields(b);
    Pieces(b, HeaderSize(a.vendor), n);
  }

  /** Re-encoding what an accepted buffer decodes to gives the buffer with its padding zeroed. */
  lemma {:induction false} Reencode(b: Bytes)
    requires DecodeAvps(b).Ok?
    ensures AvpsBytes(DecodeAvps(b).value) == Zeroed(b)
    decreases |b|
  {
    if b == [] {
    } else {
      var n := GetU24(b, 5);
      ReencodeFirst(b);
      Reencode(b[Pad4(n)..]);
      var xs := DecodeAvps(b[Pad4(n)..]).value;
      assert DecodeAvps(b).value == [FirstAvp(b)] + xs;
      assert ([FirstAvp(b)] + xs)[1..] == xs;
    }
  }

  // ------------------------------------------------------------ grouped AVPs

  datatype Tree = Leaf(avp: Avp) | Group(code: nat, vendor: nat, children: seq<Tree>)

  /** GroupedAVP: the data is the children's encodings. */
  function ToAvp(t: Tree): Avp
    decreases t, 0
  {
    match t
    case Leaf(a) => a
    case Group(code, vendor, children) => Avp(code, vendor, MANDATORY, AvpsBytes(ToAvps(children)))
  }

  function ToAvps(ts: seq<Tree>): (r: seq<Avp>)
    ensures |r| == |ts|
    decreases ts, 1
  {
    if ts == [] then [] else [ToAvp(ts[0])] + ToAvps(ts[1..])
  }

  /** Every AVP of the tree fits, the groups with the encodings inside them. */
  predicate TreeFits(t: Tree)
    decreases t, 0
  {
    Fits(ToAvp(t)) && (t.Group? ==> TreesFit(t.children))
  }

  predicate TreesFit(ts: seq<Tree>)
    decreases ts, 1
  {
    ts == [] || (TreeFits(ts[0]) && TreesFit(ts[1..]))
  }

  /** Decoding the AVP, and the data of each group in turn, finds the tree. */
  ghost predicate Reads(a: Avp, t: Tree)
    decreases t, 0
  {
    match t
    case Leaf(x) => a == Normal(x)
    case Group(code, vendor, children) =>
      && a.code == code && a.vendor == vendor
      && DecodeAvps(a.data).Ok? && ReadsAll(DecodeAvps(a.data).value, children)
  }

  ghost predicate ReadsAll(xs: seq<Avp>, ts: seq<Tree>)
    decreases ts, 1
  {
    |xs| == |ts| && (ts == [] || (Reads(xs[0], ts[0]) && ReadsAll(xs[1..], ts[1..])))
  }

  /** The round trip at any depth of grouping. */
  lemma {:induction false} TreeRoundTrip(t: Tree)
    requires TreeFits(t)
    ensures Reads(Normal(ToAvp(t)), t)
    decreases t, 0
  {
    match t
    case Leaf(_) =>
    case Group(code, vendor, children) =>
      TreesRoundTrip(children);
  }

  lemma OneMoreTree(x: Avp, xs: seq<Avp>)
    requires Fits(x) && DecodeAvps(AvpsBytes(xs)) == Ok(Normals(xs))
    ensures DecodeAvps(AvpsBytes([x] + xs)) == Ok(Normals([x] + xs))
  {
    NormalsCons(x, xs);
    OneMore(x, AvpsBytes(xs), Normals(xs));
    assert ([x] + xs)[1..] == xs;
  }

  lemma {:induction false} TreesRoundTrip(ts: seq<Tree>)
    requires TreesFit(ts)
    ensures DecodeAvps(AvpsBytes(ToAvps(ts))) == Ok(Normals(ToAvps(ts)))
    ensures ReadsAll(Normals(ToAvps(ts)), ts)
    decreases ts, 1
  {
    if ts == [] {
      assert Normals([]) == [];
    } else {
      TreeRoundTrip(ts[0]);
      TreesRoundTrip(ts[1..]);
      var x, xs := ToAvp(ts[0]), ToAvps(ts[1..]);
      OneMoreTree(x, xs);
      NormalsCons(x, xs);
      var ys := Normals(xs);
      assert ([Normal(x)] + ys)[1..] == ys;
    }
  }

  // ---------------------------------------------------------------- messages

  datatype Message = Message(flags: byte, command: nat, app: nat, hopByHop: nat, endToEnd: nat, avps: seq<Avp>)

  function MessageHeader(m: Message, length: nat): (h: Bytes)
    ensures |h| == HEADER
  {
    [1] + U24(length) + [m.flags] + U24(m.command) + U32(m.app) + U32(m.hopByHop) + U32(m.endToEnd)
  }

  function MessageBytes(m: Message): Bytes {
    MessageHeader(m, HEADER + |AvpsBytes(m.avps)|) + AvpsBytes(m.avps)
  }

  datatype Received = Received(msg: Message, rest: Bytes)

  /** DecodeMessage reads one message off a byte stream. */
  function DecodeMessage(stream: Bytes): Result<Received> {
    if |stream| < 4 || stream[0] != 1 then Err else
    var length := GetU24(stream, 1);
    if length < HEADER || length > MAX_MESSAGE || |stream| < length then Err else
    match DecodeAvps(stream[HEADER..length])
    case Err => Err
    case Ok(avps) =>
      Ok(Received(Message(stream[4], GetU24(stream, 5), GetU32(stream, 8), GetU32(stream, 12), GetU32(stream, 16), avps),
                  stream[length..]))
  }

  ghost predicate InRange(m: Message) {
    && m.command < P24 && m.app < P32 && m.hopByHop < P32 && m.endToEnd < P32
    && AllFit(m.avps)
    && HEADER + |AvpsBytes(m.avps)| <= MAX_MESSAGE
  }

  lemma MessageFields(m: Message, rest: Bytes)
    requires InRange(m)
    ensures var b, n := MessageBytes(m) + rest, HEADER + |AvpsBytes(m.avps)|;
            && |b| == n + |rest| && b[0] == 1 && GetU24(b, 1) == n && b[4] == m.flags && GetU24(b, 5) == m.command
            && GetU32(b, 8) == m.app && GetU32(b, 12) == m.hopByHop && GetU32(b, 16) == m.endToEnd
            && b[HEADER..n] == AvpsBytes(m.avps) && b[n..] == rest
  {
    var payload := AvpsBytes(m.avps);
    var n := HEADER + |payload|;
    var tail := payload + rest;
    var b := MessageHeader(m, n) + tail;
    assert MessageBytes(m) + rest == b;
    HeaderFields(m, n, tail);
    assert b[HEADER..n] == b[HEADER..][..|payload|] && b[n..] == b[HEADER..][|payload|..];
  }

  lemma HeaderSlices(len: Bytes, f: byte, c: Bytes, x: Bytes, y: Bytes, z: Bytes, tail: Bytes)
    requires |len| == |c| == 3 && |x| == |y| == |z| == 4
    ensures var b := [1] + len + [f] + c + x + y + z + tail;
            && b[0] == 1 && b[1..4] == len && b[4] == f && b[5..8] == c
            && b[8..12] == x && b[12..16] == y && b[16..20] == z && b[20..] == tail
  {}

  lemma HeaderFields(m: Message, n: nat, tail: Bytes)
    requires InRange(m) && n < P24
    ensures var b := MessageHeader(m, n) + tail;
            && b[0] == 1 && GetU24(b, 1) == n && b[4] == m.flags && GetU24(b, 5) == m.command
            && GetU32(b, 8) == m.app && GetU32(b, 12) == m.hopByHop && GetU32(b, 16) == m.endToEnd && b[HEADER..] == tail
  {
    var b := MessageHeader(m, n) + tail;
    HeaderSlices(U24(n), m.flags, U24(m.command), U32(m.app), U32(m.hopByHop), U32(m.endToEnd), tail);
    Read24(b, 1, n);
    Read24(b, 5, m.command);
    Read32(b, 8, m.app);
    Read32(b, 12, m.hopByHop);
    Read32(b, 16, m.endToEnd);
  }

  /** A message read off the stream is the one written to it, and what follows is untouched. */
  lemma MessageRoundTrip(m: Message, rest: Bytes)
    requires InRange(m)
    ensures DecodeMessage(MessageBytes(m) + rest) == Ok(Received(m.(avps := Normals(m.avps)), rest))
  {
    MessageFields(m, rest);
    RoundTrip(m.avps);
  }
}
