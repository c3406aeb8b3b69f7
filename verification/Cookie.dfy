/** IKE_SA_INIT cookies (section 2.6 of RFC 7296): an HMAC under a secret that rotates, verified
    against the current and the previous secret. */
module Cookie {
  import opened Octets

  /** Seconds a secret is used for. */
  const LIFETIME: nat := 300

  type Secret = Bytes

  datatype State = State(secret: Secret, prev: Secret, rotatedAt: nat)

  /** The random read into the secret: a fresh one, or an error that leaves some octets there. */
  datatype Draw = Drawn(secret: Secret) | Failed(left: Secret)

  /** One call of secrets(): the clock when it compares, the clock when it rotates, and the
      random read. */
  datatype Call = Call(start: nat, end: nat, draw: Draw)

  predicate Due(s: State, c: Call) {
    c.start - s.rotatedAt > LIFETIME
  }

  /** The state after secrets(); a failed read leaves the clock alone. */
  function After(s: State, c: Call): State {
    if !Due(s, c) then s
    else match c.draw
      case Drawn(secret) => State(secret, s.secret, c.end)
      case Failed(left) => State(left, s.secret, s.rotatedAt)
  }

  type Mac = (Secret, nat, Bytes) -> Bytes

  class CookieState {
    var secret: Secret
    var prevSecret: Secret
    var rotatedAt: nat

    ghost function View(): State
      reads this
    {
      State(secret, prevSecret, rotatedAt)
    }

    constructor (now: nat, first: Secret)
      ensures View() == State(first, first, now)
    {
      secret, prevSecret, rotatedAt := first, first, now;
    }

    method Secrets(c: Call) returns (cur: Secret, prev: Secret)
      modifies this
      ensures View() == After(old(View()), c) && cur == secret && prev == prevSecret
    {
      if c.start - rotatedAt > LIFETIME {
        prevSecret := secret;
        match c.draw
        case Drawn(random) =>
          secret := random;
          rotatedAt := c.end;
        case Failed(left) =>
          secret := left;
      }
      return secret, prevSecret;
    }

    method Issue(c: Call, mac: Mac, spi: nat, remote: Bytes) returns (cookie: Bytes)
      modifies this
      ensures View() == After(old(View()), c) && cookie == mac(View().secret, spi, remote)
    {
      var cur, _ := Secrets(c);
      cookie := mac(cur, spi, remote);
    }

    /** An empty cookie is refused before the secrets are looked at. */
    method Verify(c: Call, mac: Mac, received: Bytes, spi: nat, remote: Bytes) returns (ok: bool)
      modifies this
      ensures received == [] ==> !ok && View() == old(View())
      ensures received != [] ==> View() == After(old(View()), c) && ok == Accepts(View(), mac, received, spi, remote)
    {
      if |received| == 0 { return false; }
      var cur, prev := Secrets(c);
      ok := received == mac(cur, spi, remote) || received == mac(prev, spi, remote);
    }
  }

  predicate Accepts(s: State, mac: Mac, received: Bytes, spi: nat, remote: Bytes) {
    received == mac(s.secret, spi, remote) || received == mac(s.prev, spi, remote)
  }

  // -------------------------------------------------------------------- runs

  /** The state after the first `n` calls. */
  function Run(s: State, calls: seq<Call>, n: nat): State
    requires n <= |calls|
  {
    if n == 0 then s else After(Run(s, calls, n - 1), calls[n - 1])
  }

  /** The calls happen one after the other on a monotone clock. */
  ghost predicate InOrder(calls: seq<Call>) {
    && (forall i :: 0 <= i < |calls| ==> calls[i].start <= calls[i].end)
    && (forall i, j :: 0 <= i < j < |calls| ==> calls[i].end <= calls[j].start)
  }

  /** Call k is due, and its random read fails and leaves other octets than were there. */
  predicate Spoils(s: State, calls: seq<Call>, k: nat)
    requires k < |calls|
  {
    var t := Run(s, calls, k);
    Due(t, calls[k]) && calls[k].draw.Failed? && calls[k].draw.left != t.secret
  }

  predicate DueAt(s: State, calls: seq<Call>, k: nat)
    requires k < |calls|
  {
    Due(Run(s, calls, k), calls[k])
  }

  /** Where the secret that was current after call i is after the first `n` calls: 0 for
      current, 1 for previous, 2 for gone. A failed read that leaves the secret as it was keeps
      it current. */
  function Age(s: State, calls: seq<Call>, i: nat, n: nat): (a: nat)
    requires i < n <= |calls|
    ensures a <= 2
  {
    if n == i + 1 then 0 else
    var a := Age(s, calls, i, n - 1);
    if !DueAt(s, calls, n - 1) then a
    else if a == 0 then (if calls[n - 1].draw.Drawn? || Spoils(s, calls, n - 1) then 1 else 0)
    else 2
  }

  /** A spoiled secret, and another due call behind it. */
  ghost predicate SpoiledTwice(s: State, calls: seq<Call>, i: nat, n: nat)
    requires i < n <= |calls|
  {
    exists k: nat, m: nat :: i < k < m < n && Spoils(s, calls, k) && DueAt(s, calls, m)
  }

  ghost predicate Spoiled(s: State, calls: seq<Call>, i: nat, n: nat)
    requires i < n <= |calls|
  {
    exists k: nat :: i < k < n && Spoils(s, calls, k)
  }

  lemma {:induction false} AgeGrows(s: State, calls: seq<Call>, i: nat, m: nat, n: nat)
    requires i < m <= n <= |calls|
    ensures Age(s, calls, i, m) <= Age(s, calls, i, n)
    decreases n
  {
    if n == m {
    } else {
      AgeGrows(s, calls, i, m, n - 1);
    }
  }

  /** Up to one lifetime after the call the secret is gone only if a failed read spoiled it. */
  lemma {:induction false} LostBySpoiling(s: State, calls: seq<Call>, i: nat, n: nat)
    requires InOrder(calls) && i < n <= |calls|
    requires calls[n - 1].start <= calls[i].end + LIFETIME
    ensures Age(s, calls, i, n) == 1 ==> Run(s, calls, n).rotatedAt >= calls[i].end || Spoiled(s, calls, i, n)
    ensures Age(s, calls, i, n) == 2 ==> SpoiledTwice(s, calls, i, n)
    decreases n
  {
    if n == i + 1 {
    } else {
      assert calls[n - 2].start <= calls[n - 2].end <= calls[n - 1].start;
      LostBySpoiling(s, calls, i, n - 1);
      assert calls[i].end <= calls[n - 1].start <= calls[n - 1].end;
      if Spoiled(s, calls, i, n - 1) {
        var k: nat :| i < k < n - 1 && Spoils(s, calls, k);
        assert DueAt(s, calls, n - 1) ==> SpoiledTwice(s, calls, i, n);
      }
    }
  }

  lemma SpoilingLoses(s: State, calls: seq<Call>, i: nat, n: nat)
    requires i < n <= |calls| && SpoiledTwice(s, calls, i, n)
    ensures Age(s, calls, i, n) == 2
  {
    var k: nat, m: nat :| i < k < m < n && Spoils(s, calls, k) && DueAt(s, calls, m);
    assert Age(s, calls, i, k + 1) >= 1;
    AgeGrows(s, calls, i, k + 1, m);
    AgeGrows(s, calls, i, m + 1, n);
  }

  lemma {:induction false} AgeTells(s: State, calls: seq<Call>, i: nat, n: nat)
    requires i < n <= |calls|
    ensures var t, issuing := Run(s, calls, n), Run(s, calls, i + 1).secret;
            match Age(s, calls, i, n)
            case 0 => t.secret == issuing
            case 1 => t.prev == issuing
            case _ => true
    decreases n
  {
    if n == i + 1 {
    } else {
      AgeTells(s, calls, i, n - 1);
    }
  }

  /** A cookie issued by call i verifies for the same SPI and address at every call that starts
      within one lifetime of its issue, unless a failed random read spoils the secret and
      another call is due after it: two rotations cannot fall in that window. */
  lemma CookieLives(s: State, calls: seq<Call>, i: nat, j: nat, mac: Mac, spi: nat, remote: Bytes)
    requires InOrder(calls) && i < j < |calls|
    requires calls[j].start <= calls[i].end + 300 && !SpoiledTwice(s, calls, i, j + 1)
    ensures Accepts(Run(s, calls, j + 1), mac, mac(Run(s, calls, i + 1).secret, spi, remote), spi, remote)
  {
    LostBySpoiling(s, calls, i, j + 1);
    AgeTells(s, calls, i, j + 1);
  }

  // -------------------------------------------------------- when it is refused

  /** Later reads never bring the issuing secret back. */
  ghost predicate NewSecrets(s: State, calls: seq<Call>, i: nat, n: nat)
    requires i < n <= |calls|
  {
    forall k :: i < k < n ==>
      match calls[k].draw
      case Drawn(secret) => secret != Run(s, calls, i + 1).secret
      case Failed(left) => left == Run(s, calls, k).secret || left != Run(s, calls, i + 1).secret
  }

  lemma {:induction false} GoneForGood(s: State, calls: seq<Call>, i: nat, n: nat)
    requires i < n <= |calls| && NewSecrets(s, calls, i, n)
    ensures var t, issuing := Run(s, calls, n), Run(s, calls, i + 1).secret;
            && (Age(s, calls, i, n) >= 1 ==> t.secret != issuing)
            && (Age(s, calls, i, n) >= 2 ==> t.prev != issuing)
    decreases n
  {
    if n == i + 1 {
    } else {
      GoneForGood(s, calls, i, n - 1);
      AgeTells(s, calls, i, n - 1);
    }
  }

  ghost predicate Separates(mac: Mac, spi: nat, remote: Bytes) {
    forall a, b :: mac(a, spi, remote) == mac(b, spi, remote) ==> a == b
  }

  /** With an HMAC that separates secrets, a cookie is accepted exactly while its secret is the
      current or the previous one. */
  lemma AcceptedIff(s: State, calls: seq<Call>, i: nat, j: nat, mac: Mac, spi: nat, remote: Bytes)
    requires i < j < |calls| && NewSecrets(s, calls, i, j + 1) && Separates(mac, spi, remote)
    ensures Accepts(Run(s, calls, j + 1), mac, mac(Run(s, calls, i + 1).secret, spi, remote), spi, remote)
            <==> Age(s, calls, i, j + 1) <= 1
  {
    AgeTells(s, calls, i, j + 1);
    GoneForGood(s, calls, i, j + 1);
  }

  /** Within one lifetime of its issue it is refused exactly when a failed read spoiled the
      secret and another call was due after that. */
  lemma RefusedIff(s: State, calls: seq<Call>, i: nat, j: nat, mac: Mac, spi: nat, remote: Bytes)
    requires InOrder(calls) && i < j < |calls| && calls[j].start <= calls[i].end + 300
    requires NewSecrets(s, calls, i, j + 1) && Separates(mac, spi, remote)
    ensures !Accepts(Run(s, calls, j + 1), mac, mac(Run(s, calls, i + 1).secret, spi, remote), spi, remote)
            <==> SpoiledTwice(s, calls, i, j + 1)
  {
    AcceptedIff(s, calls, i, j, mac, spi, remote);
    if SpoiledTwice(s, calls, i, j + 1) {
      SpoilingLoses(s, calls, i, j + 1);
    } else {
      LostBySpoiling(s, calls, i, j + 1);
    }
  }

  /** It happens: a cookie issued at the end of a secret's lifetime, a failed read one second
      later and a rotation after another. */
  lemma CookieLost(a: Secret, b: Secret, c: Secret) returns (calls: seq<Call>)
    requires b != a && c != a
    ensures |calls| == 3 && InOrder(calls) && calls[2].start <= calls[0].end + 300
    ensures NewSecrets(State(a, a, 0), calls, 0, 3) && SpoiledTwice(State(a, a, 0), calls, 0, 3)
  {
    calls := [Call(300, 300, Drawn(c)), Call(301, 301, Failed(b)), Call(302, 302, Drawn(c))];
    var s := State(a, a, 0);
    assert Run(s, calls, 0) == s;
    assert Run(s, calls, 1) == After(s, calls[0]) == s;
    assert Run(s, calls, 2) == After(s, calls[1]) == State(b, a, 0);
    assert Spoils(s, calls, 1) && DueAt(s, calls, 2);
  }
}
