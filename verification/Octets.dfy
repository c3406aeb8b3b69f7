/** Octet strings and the big-endian integers that all wire formats here are made of. */
module Octets {

  type byte = x: int | 0 <= x < 256
  type Bytes = seq<byte>

  const P8: int := 256
  const P16: int := 65536
  const P24: int := 16777216
  const P32: int := 4294967296

  datatype Option<+T> = None | Some(value: T)

  datatype Result<+T> = Ok(value: T) | Err

  /** A decoded list, one element longer in front. */
  function Cons<T>(x: T, r: Result<seq<T>>): Result<seq<T>> {
    if r.Ok? then Ok([x] + r.value) else Err
  }

  /** A decoded list behind what was decoded before. */
  function Join<T>(xs: seq<T>, r: Result<seq<T>>): Result<seq<T>> {
    if r.Ok? then Ok(xs + r.value) else Err
  }

  lemma JoinCons<T>(xs: seq<T>, x: T, r: Result<seq<T>>)
    ensures Join(xs, Cons(x, r)) == Join(xs + [x], r)
  {
    if r.Ok? { assert xs + ([x] + r.value) == xs + [x] + r.value; }
  }

  lemma JoinNone<T>(r: Result<seq<T>>)
    ensures Join([], r) == r
  {
    if r.Ok? { assert [] + r.value == r.value; }
  }

  /** uint16(v) in network order; Go's conversion drops the high bits. */
  function U16(v: nat): (b: Bytes)
    ensures |b| == 2
  {
    [v / P8 % P8, v % P8]
  }

  function U24(v: nat): (b: Bytes)
    ensures |b| == 3
  {
    [v / P16 % P8, v / P8 % P8, v % P8]
  }

  function U32(v: nat): (b: Bytes)
    ensures |b| == 4
  {
    [v / P24 % P8, v / P16 % P8, v / P8 % P8, v % P8]
  }

  function GetU16(b: Bytes, i: nat): (v: nat)
    requires i + 2 <= |b|
    ensures v < P16
  {
    b[i] * P8 + b[i + 1]
  }

  function GetU24(b: Bytes, i: nat): (v: nat)
    requires i + 3 <= |b|
    ensures v < P24
  {
    b[i] * P16 + b[i + 1] * P8 + b[i + 2]
  }

  function GetU32(b: Bytes, i: nat): (v: nat)
    requires i + 4 <= |b|
    ensures v < P32
  {
    b[i] * P24 + b[i + 1] * P16 + b[i + 2] * P8 + b[i + 3]
  }

  lemma GetPut16(v: nat)
    requires v < P16
    ensures GetU16(U16(v), 0) == v
  {}

  lemma GetPut24(v: nat)
    requires v < P24
    ensures GetU24(U24(v), 0) == v
  {
    assert v / P8 / P8 == v / P16;
  }

  lemma GetPut32(v: nat)
    requires v < P32
    ensures GetU32(U32(v), 0) == v
  {
    assert v / P8 / P8 == v / P16;
    assert v / P16 / P8 == v / P24;
  }

  /** Reading back what was written somewhere in a buffer. */
  lemma Read16(b: Bytes, i: nat, v: nat)
    requires i + 2 <= |b| && b[i..i + 2] == U16(v) && v < P16
    ensures GetU16(b, i) == v
  {
    var w := b[i..i + 2];
    assert b[i] == w[0] && b[i + 1] == w[1];
    GetPut16(v);
  }

  lemma Read24(b: Bytes, i: nat, v: nat)
    requires i + 3 <= |b| && b[i..i + 3] == U24(v) && v < P24
    ensures GetU24(b, i) == v
  {
    var w := b[i..i + 3];
    assert b[i] == w[0] && b[i + 1] == w[1] && b[i + 2] == w[2];
    GetPut24(v);
  }

  lemma Read32(b: Bytes, i: nat, v: nat)
    requires i + 4 <= |b| && b[i..i + 4] == U32(v) && v < P32
    ensures GetU32(b, i) == v
  {
    var w := b[i..i + 4];
    assert b[i] == w[0] && b[i + 1] == w[1] && b[i + 2] == w[2] && b[i + 3] == w[3];
    GetPut32(v);
  }

  lemma Shift(q: nat, r: byte)
    ensures (q * P8 + r) / P8 == q && (q * P8 + r) % P8 == r
  {}

  lemma PutGet16(b: Bytes, i: nat)
    requires i + 2 <= |b|
    ensures U16(GetU16(b, i)) == b[i..i + 2]
  {
    Shift(b[i], b[i + 1]);
  }

  lemma PutGet24(b: Bytes, i: nat)
    requires i + 3 <= |b|
    ensures U24(GetU24(b, i)) == b[i..i + 3]
  {
    var v, w := GetU24(b, i), GetU16(b, i);
    assert v == w * P8 + b[i + 2];
    Shift(w, b[i + 2]);
    Shift(b[i], b[i + 1]);
    assert v / P16 == v / P8 / P8;
    assert U24(v) == [b[i], b[i + 1], b[i + 2]];
  }

  lemma PutGet32(b: Bytes, i: nat)
    requires i + 4 <= |b|
    ensures U32(GetU32(b, i)) == b[i..i + 4]
  {
    var v, w := GetU32(b, i), GetU24(b, i);
    assert v == w * P8 + b[i + 3];
    Shift(w, b[i + 3]);
    PutGet24(b, i);
    assert v / P16 == v / P8 / P8 && v / P24 == v / P8 / P16;
    assert U24(w) == [b[i], b[i + 1], b[i + 2]];
    assert U32(v) == U24(w) + [b[i + 3]];
  }

  function Zeros(n: nat): (b: Bytes)
    ensures |b| == n
  {
    seq(n, _ => 0)
  }

  /** The buffer with octets copied into it. */
  function Stored(b: Bytes, at: nat, d: Bytes): (r: Bytes)
    requires at + |d| <= |b|
    ensures |r| == |b|
  {
    b[..at] + d + b[at + |d|..]
  }

  method Store(a: array<byte>, at: nat, d: Bytes)
    requires at + |d| <= a.Length
    modifies a
    ensures a[..] == Stored(old(a[..]), at, d)
  {
    forall i | 0 <= i < |d| { a[at + i] := d[i]; }
  }

  /** A copy right behind what is already in place extends it. */
  lemma StoredNext(b: Bytes, done: Bytes, d: Bytes)
    requires |done| + |d| <= |b| && b[..|done|] == done
    ensures var r := Stored(b, |done|, d);
            r[..|done| + |d|] == done + d && r[|done| + |d|..] == b[|done| + |d|..]
  {}

  /** Likewise in a buffer that is still zero behind. */
  lemma StoredZeros(done: Bytes, n: nat, d: Bytes)
    requires |d| <= n
    ensures Stored(done + Zeros(n), |done|, d) == done + d + Zeros(n - |d|)
  {
    var b := done + Zeros(n);
    assert b[..|done|] == done;
    assert b[|done| + |d|..] == Zeros(n - |d|);
  }
}
