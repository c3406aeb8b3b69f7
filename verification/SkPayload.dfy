/** The Encrypted payload of IKEv2 (section 3.14 of RFC 7296, section 3 of RFC 5282) and the key
    material behind it. Ciphers, MAC and PRF are parameters of which only lengths and the
    inverse law are known. */
module SkPayload {
  import opened Octets

  const BLOCK: nat := 16
  const HEADER: nat := 28
  const NONCE: nat := 12
  const TAG: nat := 16

  type Key = Bytes

  datatype Suite =
    | Cbc(encrypt: (Key, Bytes, Bytes) -> Bytes, decrypt: (Key, Bytes, Bytes) -> Bytes,
          mac: (Key, Bytes) -> Bytes, integLen: nat)
    | Aead(seal: (Key, Bytes, Bytes, Bytes) -> Bytes, open: (Key, Bytes, Bytes, Bytes) -> Option<Bytes>, saltLen: nat)

  /** Block ciphers keep the length and are undone under the same key and IV; an AEAD seal adds
      its tag and opens under the same key, nonce and associated data. */
  ghost predicate Lawful(s: Suite) {
    match s
    case Cbc(encrypt, decrypt, mac, integLen) =>
      && (forall k, iv, p :: |encrypt(k, iv, p)| == |p|)
      && (forall k, iv, p :: |p| % BLOCK == 0 ==> decrypt(k, iv, encrypt(k, iv, p)) == p)
      && (forall k, d :: |mac(k, d)| >= integLen)
    case Aead(seal, open, saltLen) =>
      && 0 < saltLen <= NONCE
      && (forall k, n, p, a :: |seal(k, n, p, a)| == |p| + TAG)
      && (forall k, n, p, a :: open(k, n, seal(k, n, p, a), a) == Some(p))
  }

  datatype Keys = Keys(ai: Key, ar: Key, ei: Key, er: Key)

  /** The keys as the other end uses them to receive. */
  function PeerView(k: Keys): Keys {
    Keys(k.ar, k.ai, k.er, k.ei)
  }

  // ----------------------------------------------------------------- padding

  function PadLen(n: nat): nat {
    BLOCK - n % BLOCK
  }

  /** Zeros and, last, the number of octets before it. */
  function Pad(p: Bytes): Bytes {
    p + Zeros(PadLen(|p|) - 1) + [PadLen(|p|) - 1]
  }

  function Unpad(p: Bytes): Result<Bytes> {
    if p == [] then Err else
    var n: int := (p[|p| - 1] as int) + 1;
    if n > |p| then Err else Ok(p[..|p| - n])
  }

  /** Padding takes 1 to 16 octets, fills whole blocks and is undone. */
  lemma PadRoundTrip(p: Bytes)
    ensures 1 <= PadLen(|p|) <= BLOCK && |Pad(p)| == |p| + PadLen(|p|) && |Pad(p)| % BLOCK == 0
    ensures Unpad(Pad(p)) == Ok(p)
  {
    var n := PadLen(|p|);
    assert |p| + n == BLOCK * (|p| / BLOCK + 1);
    assert Pad(p)[|Pad(p)| - 1] == n - 1;
    assert Pad(p)[..|Pad(p)| - n] == p;
  }

  /** The buffer that Encrypt fills. */
  method PadBuffer(p: Bytes) returns (out: Bytes)
    ensures out == Pad(p)
  {
    var padLen := BLOCK - |p| % BLOCK;
    var padded := new byte[|p| + padLen];
    forall i | 0 <= i < |p| { padded[i] := p[i]; }
    var i := |p|;
    while i < padded.Length - 1
      invariant |p| <= i <= padded.Length - 1
      invariant padded[..|p|] == p
      invariant forall j :: |p| <= j < i ==> padded[j] == 0
    {
      padded[i] := 0;
      i := i + 1;
    }
    padded[padded.Length - 1] := padLen - 1;
    assert padded[..|p|] == p;
    assert padded[|p|..padded.Length - 1] == Zeros(padLen - 1);
    assert padded[..] == padded[..|p|] + padded[|p|..padded.Length - 1] + [padded[padded.Length - 1]];
    out := padded[..];
  }

  function DecryptCbc(s: Suite, key: Key, c: Bytes): Result<Bytes>
    requires s.Cbc?
  {
    if |c| < BLOCK || |c| % BLOCK != 0 then Err else Unpad(s.decrypt(key, c[..BLOCK], c[BLOCK..]))
  }

  // ---------------------------------------------------------------- messages

  /** encryptedSKMessageLen: computed before anything is encrypted. */
  function MessageLen(s: Suite, plainLen: nat): int {
    if s.Aead? then HEADER + 4 + (NONCE - s.saltLen) + plainLen + TAG
    else HEADER + 4 + (BLOCK + plainLen + PadLen(plainLen)) + s.integLen
  }

  /** The generic header of the SK payload. */
  function SkHeader(next: byte, len: nat): Bytes {
    [next, 0] + U16(len)
  }

  function Salt(s: Suite, key: Key): Bytes
    requires s.Aead? && |key| > s.saltLen
  {
    key[|key| - s.saltLen..]
  }

  function CipherKey(s: Suite, key: Key): Bytes
    requires s.Aead? && |key| > s.saltLen
  {
    key[..|key| - s.saltLen]
  }

  function EncryptCbcSk(s: Suite, k: Keys, next: byte, plain: Bytes, header: Bytes, iv: Bytes): Bytes
    requires s.Cbc?
  {
    var c := iv + s.encrypt(k.er, iv, Pad(plain));
    var body := header + SkHeader(next, 4 + |c| + s.integLen) + c;
    var tag := s.mac(k.ar, body);
    body + if s.integLen <= |tag| then tag[..s.integLen] else tag
  }

  function EncryptAeadSk(s: Suite, k: Keys, next: byte, plain: Bytes, header: Bytes, iv: Bytes): Bytes
    requires s.Aead? && |k.er| > s.saltLen
  {
    var aad := header + SkHeader(next, 4 + |iv| + |plain| + TAG);
    aad + iv + s.seal(CipherKey(s, k.er), Salt(s, k.er) + iv, plain, aad)
  }

  /** encryptSK with the random IV it draws. */
  function EncryptSk(s: Suite, k: Keys, next: byte, plain: Bytes, header: Bytes, iv: Bytes): Result<Bytes> {
    if s.Cbc? then Ok(EncryptCbcSk(s, k, next, plain, header, iv))
    else if |k.er| <= s.saltLen then Err
    else Ok(EncryptAeadSk(s, k, next, plain, header, iv))
  }

  function IvLen(s: Suite): int {
    if s.Cbc? then BLOCK else NONCE - s.saltLen
  }

  datatype Inner = Inner(next: byte, plain: Bytes)

  function DecryptCbcSk(s: Suite, k: Keys, msg: Bytes): Result<Inner>
    requires s.Cbc?
  {
    if |msg| < HEADER + 4 + s.integLen then Err else
    var end := |msg| - s.integLen;
    var tag := s.mac(k.ai, msg[..end]);
    if |tag| < s.integLen || tag[..s.integLen] != msg[end..] then Err else
    match DecryptCbc(s, k.ei, msg[HEADER + 4..end])
    case Err => Err
    case Ok(p) => Ok(Inner(msg[HEADER], p))
  }

  function DecryptAeadSk(s: Suite, k: Keys, msg: Bytes): Result<Inner>
    requires s.Aead? && s.saltLen <= NONCE
  {
    if |k.ei| <= s.saltLen then Err else
    var iv := NONCE - s.saltLen;
    if |msg| < HEADER + 4 + iv + TAG then Err else
    var nonce := Salt(s, k.ei) + msg[HEADER + 4..HEADER + 4 + iv];
    match s.open(CipherKey(s, k.ei), nonce, msg[HEADER + 4 + iv..], msg[..HEADER + 4])
    case None => Err
    case Some(p) => Ok(Inner(msg[HEADER], p))
  }

  function DecryptSk(s: Suite, k: Keys, msg: Bytes): Result<Inner>
    requires s.Aead? ==> s.saltLen <= NONCE
  {
    if s.Cbc? then DecryptCbcSk(s, k, msg) else DecryptAeadSk(s, k, msg)
  }

  // -------------------------------------------------------------- theorems

  /** The predicted length is the length produced. */
  lemma LengthPredicted(s: Suite, k: Keys, next: byte, plain: Bytes, header: Bytes, iv: Bytes)
    requires Lawful(s) && |header| == HEADER && |iv| == IvLen(s) && EncryptSk(s, k, next, plain, header, iv).Ok?
    ensures |EncryptSk(s, k, next, plain, header, iv).value| == MessageLen(s, |plain|)
  {
    PadRoundTrip(plain);
  }

  /** The IKE header is sent as given, then the next payload type, a zero octet and the payload's
      length, which is right exactly below 65536 octets. */
  lemma LengthFieldIff(s: Suite, k: Keys, next: byte, plain: Bytes, header: Bytes, iv: Bytes)
    requires Lawful(s) && |header| == HEADER && |iv| == IvLen(s) && EncryptSk(s, k, next, plain, header, iv).Ok?
    ensures var out := EncryptSk(s, k, next, plain, header, iv).value;
            && |out| >= 32 && out[..28] == header && out[28] == next && out[29] == 0
            && (GetU16(out, 30) == |out| - 28 <==> |out| - 28 < P16)
  {
    var out := EncryptSk(s, k, next, plain, header, iv).value;
    LengthPredicted(s, k, next, plain, header, iv);
    var len := |out| - HEADER;
    PadRoundTrip(plain);
    assert out == header + SkHeader(next, len) + out[HEADER + 4..];
    FieldAt(header, next, U16(len), out[HEADER + 4..]);
    if len < P16 { Read16(out, HEADER + 2, len); }
  }

  lemma FieldAt(header: Bytes, next: byte, len: Bytes, rest: Bytes)
    requires |header| == HEADER && |len| == 2
    ensures var b := header + ([next, 0] + len) + rest;
            b[..HEADER] == header && b[HEADER] == next && b[HEADER + 1] == 0 && b[HEADER + 2..HEADER + 4] == len
  {}

  /** A caller that wrote the predicted length into the IKE header wrote the true one. */
  lemma HeaderLengthTrue(s: Suite, k: Keys, next: byte, plain: Bytes, header: Bytes, iv: Bytes)
    requires Lawful(s) && |header| == HEADER && |iv| == IvLen(s) && EncryptSk(s, k, next, plain, header, iv).Ok?
    requires 0 <= MessageLen(s, |plain|) < P32 && header[24..28] == U32(MessageLen(s, |plain|))
    ensures var out := EncryptSk(s, k, next, plain, header, iv).value;
            |out| >= HEADER && GetU32(out, 24) == |out|
  {
    var out := EncryptSk(s, k, next, plain, header, iv).value;
    LengthPredicted(s, k, next, plain, header, iv);
    assert out[..HEADER] == header;
    assert out[24..28] == header[24..28];
    Read32(out, 24, MessageLen(s, |plain|));
  }

  lemma CbcRoundTrip(s: Suite, k: Keys, next: byte, plain: Bytes, header: Bytes, iv: Bytes)
    requires Lawful(s) && s.Cbc? && |header| == HEADER && |iv| == BLOCK
    ensures DecryptCbcSk(s, PeerView(k), EncryptCbcSk(s, k, next, plain, header, iv)) == Ok(Inner(next, plain))
  {
    var ct := s.encrypt(k.er, iv, Pad(plain));
    var c := iv + ct;
    var h := SkHeader(next, 4 + |c| + s.integLen);
    var body := header + h + c;
    var tag := s.mac(k.ar, body)[..s.integLen];
    var msg := body + tag;
    assert msg == EncryptCbcSk(s, k, next, plain, header, iv);
    var end := |msg| - s.integLen;
    assert msg[..end] == body && msg[end..] == tag;
    assert msg[HEADER] == h[0];
    assert msg[HEADER + 4..end] == c;
    PadRoundTrip(plain);
    assert |c| % BLOCK == 0;
    assert c[..BLOCK] == iv && c[BLOCK..] == ct;
  }

  lemma AeadRoundTrip(s: Suite, k: Keys, next: byte, plain: Bytes, header: Bytes, iv: Bytes)
    requires Lawful(s) && s.Aead? && |header| == HEADER && |iv| == NONCE - s.saltLen && |k.er| > s.saltLen
    ensures DecryptAeadSk(s, PeerView(k), EncryptAeadSk(s, k, next, plain, header, iv)) == Ok(Inner(next, plain))
  {
    var h := SkHeader(next, 4 + |iv| + |plain| + TAG);
    var aad := header + h;
    var sealed := s.seal(CipherKey(s, k.er), Salt(s, k.er) + iv, plain, aad);
    var msg := aad + iv + sealed;
    assert msg == EncryptAeadSk(s, k, next, plain, header, iv);
    assert msg[HEADER] == h[0];
    assert msg[..HEADER + 4] == aad;
    assert msg[HEADER + 4..HEADER + 4 + |iv|] == iv;
    assert msg[HEADER + 4 + |iv|..] == sealed;
  }

  /** decryptSK under the peer's view of the keys returns the inner payload type and the
      plaintext that encryptSK was given, whatever its length. */
  lemma SkRoundTrip(s: Suite, k: Keys, next: byte, plain: Bytes, header: Bytes, iv: Bytes)
    requires Lawful(s) && |header| == HEADER && |iv| == IvLen(s) && EncryptSk(s, k, next, plain, header, iv).Ok?
    ensures DecryptSk(s, PeerView(k), EncryptSk(s, k, next, plain, header, iv).value) == Ok(Inner(next, plain))
  {
    if s.Cbc? {
      CbcRoundTrip(s, k, next, plain, header, iv);
    } else {
      AeadRoundTrip(s, k, next, plain, header, iv);
    }
  }

  /** Nothing is accepted that was not authenticated: with a block cipher the last octets are the
      MAC of all before them under the sender's integrity key, and with an AEAD cipher the
      plaintext is what opens under the sender's key and salt, the IV sent, and header and
      payload header as associated data. The inner payload type is the octet after the header. */
  lemma OnlyAuthentic(s: Suite, k: Keys, msg: Bytes)
    requires Lawful(s) && DecryptSk(s, k, msg).Ok?
    ensures |msg| >= 32 && DecryptSk(s, k, msg).value.next == msg[28]
    ensures s.Cbc? ==>
              var end := |msg| - s.integLen;
              && end >= 32 && s.integLen <= |s.mac(k.ai, msg[..end])| && msg[end..] == s.mac(k.ai, msg[..end])[..s.integLen]
              && |msg[32..end]| >= 16 && |msg[32..end]| % 16 == 0
    ensures s.Aead? ==>
              var n, iv := |k.ei| - s.saltLen, 12 - s.saltLen;
              && n > 0 && |msg| >= 32 + iv + 16
              && s.open(k.ei[..n], k.ei[n..] + msg[32..32 + iv], msg[32 + iv..], msg[..32]) == Some(DecryptSk(s, k, msg).value.plain)
  {}

  // ------------------------------------------------------------ key material

  type Prf = (Key, Bytes) -> Bytes

  /** T1 | T2 | ... up to block n; the block counter is one octet. */
  function Block(prf: Prf, key: Key, seed: Bytes, n: nat): Bytes {
    if n == 0 then [] else prf(key, Block(prf, key, seed, n - 1) + seed + [n % P8])
  }

  function Stream(prf: Prf, key: Key, seed: Bytes, n: nat): Bytes {
    if n == 0 then [] else Stream(prf, key, seed, n - 1) + Block(prf, key, seed, n)
  }

  /** The first two blocks, as section 2.13 of RFC 7296 defines them, and every next one. */
  lemma StreamBlocks(prf: Prf, key: Key, seed: Bytes, n: nat)
    ensures var t1 := prf(key, seed + [1]);
            Stream(prf, key, seed, 2) == t1 + prf(key, t1 + seed + [2])
    ensures n > 0 ==> Stream(prf, key, seed, n + 1)
                      == Stream(prf, key, seed, n) + prf(key, Block(prf, key, seed, n) + seed + [(n + 1) % 256])
  {
    assert [] + seed + [1] == seed + [1];
    assert Block(prf, key, seed, 0) == [] && Block(prf, key, seed, 1) == prf(key, seed + [1]);
    assert Stream(prf, key, seed, 0) == [] && Stream(prf, key, seed, 1) == [] + Block(prf, key, seed, 1);
    assert [] + Block(prf, key, seed, 1) == Block(prf, key, seed, 1);
  }

  /** prfPlus for a PRF with outputs of a fixed positive length. */
  method PrfPlus(prf: Prf, size: nat, key: Key, seed: Bytes, length: nat) returns (out: Bytes, ghost n: nat)
    requires size > 0 && forall k, d :: |prf(k, d)| == size
    ensures |out| == length && out <= Stream(prf, key, seed, n)
  {
    out := [];
    var prev: Bytes := [];
    var i := 1;
    n := 0;
    while |out| < length
      invariant i == n + 1 && prev == Block(prf, key, seed, n) && out == Stream(prf, key, seed, n)
      invariant |out| == n * size
      decreases length - |out|
    {
      prev := prf(key, prev + seed + [i % P8]);
      out := out + prev;
      i := i + 1;
      n := n + 1;
    }
    out := out[..length];
  }

  lemma {:induction false} StreamGrows(prf: Prf, key: Key, seed: Bytes, n: nat, m: nat)
    requires n <= m
    ensures Stream(prf, key, seed, n) <= Stream(prf, key, seed, m)
  {
    if n == m {
    } else {
      StreamGrows(prf, key, seed, n, m - 1);
    }
  }

  /** Shorter key material is a prefix of longer: how many blocks were made does not matter. */
  lemma PrfPlusPrefix(prf: Prf, key: Key, seed: Bytes, n: nat, m: nat, out: Bytes, out': Bytes)
    requires out <= Stream(prf, key, seed, n) && out' <= Stream(prf, key, seed, m) && |out| <= |out'|
    ensures out <= out'
  {
    if n <= m {
      StreamGrows(prf, key, seed, n, m);
    } else {
      StreamGrows(prf, key, seed, m, n);
    }
  }

  datatype Derived = Derived(d: Key, ai: Key, ar: Key, ei: Key, er: Key, pi: Key, pr: Key)

  function Together(k: Derived): Bytes {
    k.d + k.ai + k.ar + k.ei + k.er + k.pi + k.pr
  }

  lemma CutInSeven(b: Bytes, o1: nat, o2: nat, o3: nat, o4: nat, o5: nat, o6: nat)
    requires o1 <= o2 <= o3 <= o4 <= o5 <= o6 <= |b|
    ensures b[..o1] + b[o1..o2] + b[o2..o3] + b[o3..o4] + b[o4..o5] + b[o5..o6] + b[o6..] == b
  {
    assert b[..o1] + b[o1..o2] == b[..o2];
    assert b[..o2] + b[o2..o3] == b[..o3];
    assert b[..o3] + b[o3..o4] == b[..o4];
    assert b[..o4] + b[o4..o5] == b[..o5];
    assert b[..o5] + b[o5..o6] == b[..o6];
  }

  /** deriveKeys: SKEYSEED, then the seven keys cut from the PRF+ stream in their order; with an
      AEAD cipher the integrity keys are empty. */
  method DeriveKeys(prf: Prf, size: nat, integLen: nat, encrLen: nat, nonces: Bytes, shared: Bytes, spis: Bytes)
      returns (k: Derived, ghost n: nat)
    requires size > 0 && forall k, d :: |prf(k, d)| == size
    ensures Together(k) <= Stream(prf, prf(nonces, shared), nonces + spis, n)
    ensures |k.d| == |k.pi| == |k.pr| == size && |k.ai| == |k.ar| == integLen && |k.ei| == |k.er| == encrLen
  {
    var total := size + integLen * 2 + encrLen * 2 + size * 2;
    var keymat;
    keymat, n := PrfPlus(prf, size, prf(nonces, shared), nonces + spis, total);
    var o1 := size;
    var o2 := o1 + integLen;
    var o3 := o2 + integLen;
    var o4 := o3 + encrLen;
    var o5 := o4 + encrLen;
    var o6 := o5 + size;
    k := Derived(keymat[..o1], keymat[o1..o2], keymat[o2..o3], keymat[o3..o4], keymat[o4..o5], keymat[o5..o6], keymat[o6..]);
    CutInSeven(keymat, o1, o2, o3, o4, o5, o6);
  }
}
