/** The IPv4 header checksum as the TC program computes it: ten host-order words, two folds. */
module Checksum {
  import opened Octets

  const M: int := 65535

  /** Word `i` as a little-endian host loads it. */
  function Host(b: Bytes, i: nat): nat
    requires 2 * i + 2 <= |b|
  {
    b[2 * i] + P8 * b[2 * i + 1]
  }

  /** Word `i` in network order. */
  function Net(b: Bytes, i: nat): nat
    requires 2 * i + 2 <= |b|
  {
    P8 * b[2 * i] + b[2 * i + 1]
  }

  function HostSum(b: Bytes, n: nat): nat
    requires 2 * n <= |b|
  {
    if n == 0 then 0 else HostSum(b, n - 1) + Host(b, n - 1)
  }

  function NetSum(b: Bytes, n: nat): nat
    requires 2 * n <= |b|
  {
    if n == 0 then 0 else NetSum(b, n - 1) + Net(b, n - 1)
  }

  /** One fold: the carries above bit 16 added back in. */
  function Fold1(s: nat): nat {
    s / 65536 + s % 65536
  }

  /** ip4_csum on the sum of the words: both folds, then the low 16 bits of the complement. */
  function Csum(s: nat): nat {
    M - (Fold1(s) + Fold1(s) / 65536) % 65536
  }

  /** One's complement addition of 16-bit words: the carry goes round. */
  function Add(x: nat, y: nat): nat {
    if x + y > M then x + y - M else x + y
  }

  function OnesSum(b: Bytes, n: nat): nat
    requires 2 * n <= |b|
  {
    if n == 0 then 0 else Add(OnesSum(b, n - 1), Net(b, n - 1))
  }

  /** The two folds bring any sum of ten words into 16 bits without changing it modulo 65535. */
  lemma TwoFoldsSuffice(s: nat) returns (q: int)
    requires s <= 10 * M
    ensures 0 <= Csum(s) <= M
    ensures s + Csum(s) == M * q && q >= 1
  {
    var h, l := s / 65536, s % 65536;
    assert s == 65536 * h + l && h <= 10;
    var f := h + l;
    if f < 65536 {
      assert f / 65536 == 0 && f % 65536 == f;
      q := h + 1;
    } else {
      assert f / 65536 == 1;
      assert (f + 1) % 65536 == f - M;
      q := h + 2;
    }
  }

  lemma {:induction false} HostSumBound(b: Bytes, n: nat)
    requires 2 * n <= |b|
    ensures HostSum(b, n) <= n * M
  {
    if n == 0 {
    } else {
      HostSumBound(b, n - 1);
    }
  }

  function OddSum(b: Bytes, n: nat): nat
    requires 2 * n <= |b|
  {
    if n == 0 then 0 else OddSum(b, n - 1) + b[2 * n - 1]
  }

  /** Swapping the bytes of every word multiplies the sum by 256 modulo 65535. */
  lemma {:induction false} ByteOrder(b: Bytes, n: nat)
    requires 2 * n <= |b|
    ensures 256 * HostSum(b, n) == NetSum(b, n) + M * OddSum(b, n)
    ensures NetSum(b, n) == 0 ==> HostSum(b, n) == 0
  {
    if n == 0 {
    } else {
      ByteOrder(b, n - 1);
      assert 256 * Host(b, n - 1) == Net(b, n - 1) + M * b[2 * n - 1];
    }
  }

  lemma {:induction false} OnesSumExact(b: Bytes, n: nat) returns (q: nat)
    requires 2 * n <= |b|
    ensures NetSum(b, n) == OnesSum(b, n) + M * q
    ensures OnesSum(b, n) <= M && (OnesSum(b, n) == 0 ==> NetSum(b, n) == 0)
  {
    q := 0;
    if n == 0 {
    } else {
      q := OnesSumExact(b, n - 1);
      if OnesSum(b, n - 1) + Net(b, n - 1) > M { q := q + 1; }
    }
  }

  lemma MultipleOf(x: nat, q: int, r: int)
    requires x <= M && x == M * q - M * r
    ensures x == 0 || x == M
  {
    var k := q - r;
    assert x == M * k;
  }

  lemma {:induction false} HostSumSplit(b: Bytes, b': Bytes, n: nat, at: nat)
    requires 2 * n <= |b| == |b'| && at < n
    requires forall i :: 0 <= i < |b| && i != 2 * at && i != 2 * at + 1 ==> b[i] == b'[i]
    ensures HostSum(b', n) == HostSum(b, n) - Host(b, at) + Host(b', at)
  {
    if n - 1 == at {
      SameSum(b, b', n - 1);
    } else {
      HostSumSplit(b, b', n - 1, at);
    }
  }

  lemma {:induction false} SameSum(b: Bytes, b': Bytes, n: nat)
    requires 2 * n <= |b| && 2 * n <= |b'| && forall i :: 0 <= i < 2 * n ==> b[i] == b'[i]
    ensures HostSum(b, n) == HostSum(b', n)
  {
    if n == 0 {
    } else {
      SameSum(b, b', n - 1);
    }
  }

  /** With the checksum stored in host order over a zeroed field, the ten words of the header
      add up to 0xffff in one's complement, read in network order. */
  lemma HeaderSumsToAllOnes(b: Bytes, b': Bytes)
    requires |b| == |b'| == 20 && b[10] == 0 && b[11] == 0
    requires forall i :: 0 <= i < 20 && i != 10 && i != 11 ==> b[i] == b'[i]
    requires Host(b', 5) == Csum(HostSum(b, 10))
    ensures OnesSum(b', 10) == 0xffff
  {
    HostSumBound(b, 10);
    HostSumSplit(b, b', 10, 5);
    var s, s' := HostSum(b, 10), HostSum(b', 10);
    var q := TwoFoldsSuffice(s);
    assert s' == M * q;
    ByteOrder(b', 10);
    var r := OnesSumExact(b', 10);
    var odd := OddSum(b', 10);
    assert OnesSum(b', 10) == M * (256 * q - odd) - M * r;
    MultipleOf(OnesSum(b', 10), 256 * q - odd, r);
  }
}
