/** The IKE SA table under concurrent IKE_SA_INIT: a worker checks the table's size and stores
    its SA later, so several workers can pass the check together. */
module HalfOpen {

  type Worker = nat
  type Spi = nat

  /** `busy` holds the workers with a pool token, `passed` those past the size check that have
      not stored their SA yet. */
  datatype State = State(sas: set<Spi>, busy: set<Worker>, passed: set<Worker>)

  datatype Config = Config(max: nat, workers: nat)

  datatype Action =
    | Dispatch(w: Worker)
    | Check(w: Worker)
    | Store(w: Worker, spi: Spi)
    | Fail(w: Worker)
    | Release(w: Worker)
    | Delete(spi: Spi)
    | Rekey(spi: Spi)

  const Empty := State({}, {}, {})

  /** One step: the pool drops packets when saturated, the check rejects when the table is full,
      reaping and teardown delete at any time, an IKE SA rekey stores without any check. */
  function Step(c: Config, s: State, a: Action): State {
    match a
    case Dispatch(w) => if |s.busy| < c.workers then s.(busy := s.busy + {w}) else s
    case Check(w) => if w in s.busy && |s.sas| < c.max then s.(passed := s.passed + {w}) else s
    case Store(w, spi) => if w in s.passed then s.(sas := s.sas + {spi}, passed := s.passed - {w}) else s
    case Fail(w) => s.(passed := s.passed - {w})
    case Release(w) => if w in s.passed then s else s.(busy := s.busy - {w})
    case Delete(spi) => s.(sas := s.sas - {spi})
    case Rekey(spi) => s.(sas := s.sas + {spi})
  }

  function Run(c: Config, acts: seq<Action>): State {
    if acts == [] then Empty else Step(c, Run(c, acts[..|acts| - 1]), acts[|acts| - 1])
  }

  function Rekeys(acts: seq<Action>): nat {
    if acts == [] then 0 else Rekeys(acts[..|acts| - 1]) + if acts[|acts| - 1].Rekey? then 1 else 0
  }

  /** Stored entries and entries under way together stay below the check's limit plus the pool. */
  predicate Inv(c: Config, s: State, extra: nat) {
    && s.passed <= s.busy && |s.busy| <= c.workers
    && |s.sas| + |s.passed| <= c.max - 1 + c.workers + extra
  }

  lemma Subset(a: set<nat>, b: set<nat>)
    requires a <= b
    ensures |a| <= |b|
  {
    if a != {} {
      var x :| x in a;
      Subset(a - {x}, b - {x});
    }
  }

  lemma CheckKeeps(c: Config, s: State, w: Worker, extra: nat)
    requires c.max >= 1 && Inv(c, s, extra)
    ensures Inv(c, Step(c, s, Check(w)), extra)
  {
    Subset(Step(c, s, Check(w)).passed, s.busy);
  }

  lemma StoreKeeps(c: Config, s: State, w: Worker, spi: Spi, extra: nat)
    requires c.max >= 1 && Inv(c, s, extra)
    ensures Inv(c, Step(c, s, Store(w, spi)), extra)
  {
    if w in s.passed {
      assert |s.passed - {w}| == |s.passed| - 1 && |s.sas + {spi}| <= |s.sas| + 1;
    }
  }

  lemma ReleaseKeeps(c: Config, s: State, a: Action, extra: nat)
    requires c.max >= 1 && Inv(c, s, extra) && (a.Fail? || a.Release? || a.Delete?)
    ensures Inv(c, Step(c, s, a), extra)
  {
    match a
    case Fail(w) => Subset(s.passed - {w}, s.passed);
    case Release(w) => Subset(s.busy - {w}, s.busy);
    case Delete(spi) => Subset(s.sas - {spi}, s.sas);
  }

  lemma StepKeeps(c: Config, s: State, a: Action, extra: nat)
    requires c.max >= 1 && Inv(c, s, extra)
    ensures Inv(c, Step(c, s, a), extra + if a.Rekey? then 1 else 0)
  {
    match a
    case Dispatch(_) =>
    case Check(w) => CheckKeeps(c, s, w, extra);
    case Store(w, spi) => StoreKeeps(c, s, w, spi, extra);
    case Rekey(spi) => assert |s.sas + {spi}| <= |s.sas| + 1;
    case _ => ReleaseKeeps(c, s, a, extra);
  }

  /** In every interleaving the table has at most max + workers - 1 entries, and one more for
      each IKE SA rekey. */
  lemma {:induction false} TableBound(c: Config, acts: seq<Action>)
    requires c.max >= 1
    ensures Inv(c, Run(c, acts), Rekeys(acts))
    ensures |Run(c, acts).sas| <= c.max + c.workers - 1 + Rekeys(acts)
  {
    if acts == [] {
    } else {
      TableBound(c, acts[..|acts| - 1]);
      StepKeeps(c, Run(c, acts[..|acts| - 1]), acts[|acts| - 1], Rekeys(acts[..|acts| - 1]));
    }
  }

  // ------------------------------------------------- what the table holds, exactly

  /** Action `i` puts the SA into the table. */
  ghost predicate Stores(c: Config, acts: seq<Action>, i: nat, spi: Spi) {
    i < |acts| && (acts[i] == Rekey(spi) ||
                   (acts[i].Store? && acts[i].spi == spi && acts[i].w in Run(c, acts[..i]).passed))
  }

  ghost predicate Stored(c: Config, acts: seq<Action>, i: nat, spi: Spi) {
    Stores(c, acts, i, spi) && forall j :: i < j < |acts| ==> acts[j] != Delete(spi)
  }

  /** With action `i` the worker passes the check, and has neither failed nor stored since. */
  ghost predicate Passed(c: Config, acts: seq<Action>, i: nat, w: Worker) {
    && i < |acts| && acts[i] == Check(w) && w in Run(c, acts[..i]).busy && |Run(c, acts[..i]).sas| < c.max
    && forall j :: i < j < |acts| ==> acts[j] != Fail(w) && !(acts[j].Store? && acts[j].w == w)
  }

  /** With action `i` the worker gets a token, and has not returned it since. */
  ghost predicate Holding(c: Config, acts: seq<Action>, i: nat, w: Worker) {
    && i < |acts| && acts[i] == Dispatch(w) && |Run(c, acts[..i]).busy| < c.workers
    && forall j :: i < j < |acts| && acts[j] == Release(w) ==> w in Run(c, acts[..j]).passed
  }

  lemma StoredSince(c: Config, acts: seq<Action>, i: nat, spi: Spi)
    requires acts != [] && i < |acts| - 1
    ensures var front := acts[..|acts| - 1];
            Stored(c, acts, i, spi) <==> Stored(c, front, i, spi) && acts[|acts| - 1] != Delete(spi)
  {
    var front := acts[..|acts| - 1];
    assert front[..i] == acts[..i];
    assert forall j :: 0 <= j < |front| ==> front[j] == acts[j];
  }

  lemma TableStep(c: Config, s: State, a: Action, spi: Spi)
    ensures spi in Step(c, s, a).sas
            <==> (spi in s.sas && a != Delete(spi)) || a == Rekey(spi) || (a.Store? && a.spi == spi && a.w in s.passed)
  {}

  /** The table holds the SAs stored by workers past the check or by rekeys and not deleted
      since. */
  lemma {:induction false} TableExact(c: Config, acts: seq<Action>, spi: Spi)
    ensures spi in Run(c, acts).sas <==> exists i: nat :: Stored(c, acts, i, spi)
  {
    if acts == [] {
    } else {
      var n, front := |acts| - 1, acts[..|acts| - 1];
      TableExact(c, front, spi);
      TableStep(c, Run(c, front), acts[n], spi);
      if i: nat :| Stored(c, front, i, spi) {
        StoredSince(c, acts, i, spi);
      }
      if i: nat :| Stored(c, acts, i, spi) {
        if i < n { StoredSince(c, acts, i, spi); }
      }
      assert Stores(c, acts, n, spi) ==> Stored(c, acts, n, spi);
    }
  }

  lemma PassedSince(c: Config, acts: seq<Action>, i: nat, w: Worker)
    requires acts != [] && i < |acts| - 1
    ensures var front, a := acts[..|acts| - 1], acts[|acts| - 1];
            Passed(c, acts, i, w) <==> Passed(c, front, i, w) && a != Fail(w) && !(a.Store? && a.w == w)
  {
    var front := acts[..|acts| - 1];
    assert front[..i] == acts[..i];
    assert forall j :: 0 <= j < |front| ==> front[j] == acts[j];
  }

  lemma PassedStep(c: Config, s: State, a: Action, w: Worker)
    ensures w in Step(c, s, a).passed
            <==> (w in s.passed && a != Fail(w) && !(a.Store? && a.w == w))
                 || (a == Check(w) && w in s.busy && |s.sas| < c.max)
  {}

  /** And likewise for the workers past the check and for those with a token. */
  lemma {:induction false} PassedExact(c: Config, acts: seq<Action>, w: Worker)
    ensures w in Run(c, acts).passed <==> exists i: nat :: Passed(c, acts, i, w)
  {
    if acts == [] {
    } else {
      var n, front := |acts| - 1, acts[..|acts| - 1];
      PassedExact(c, front, w);
      PassedStep(c, Run(c, front), acts[n], w);
      if i: nat :| Passed(c, front, i, w) {
        PassedSince(c, acts, i, w);
      }
      if i: nat :| Passed(c, acts, i, w) {
        if i < n { PassedSince(c, acts, i, w); }
      }
      assert acts[n] == Check(w) && w in Run(c, front).busy && |Run(c, front).sas| < c.max ==> Passed(c, acts, n, w);
    }
  }

  lemma HoldingSince(c: Config, acts: seq<Action>, i: nat, w: Worker)
    requires acts != [] && i < |acts| - 1
    ensures var front, a := acts[..|acts| - 1], acts[|acts| - 1];
            Holding(c, acts, i, w) <==> Holding(c, front, i, w) && (a == Release(w) ==> w in Run(c, front).passed)
  {
    var n, front := |acts| - 1, acts[..|acts| - 1];
    assert forall j :: 0 <= j < n ==> front[j] == acts[j] && front[..j] == acts[..j];
    assert acts[..n] == front;
  }

  lemma BusyStep(c: Config, s: State, a: Action, w: Worker)
    ensures w in Step(c, s, a).busy
            <==> (w in s.busy && (a == Release(w) ==> w in s.passed)) || (a == Dispatch(w) && |s.busy| < c.workers)
  {}

  lemma {:induction false} BusyExact(c: Config, acts: seq<Action>, w: Worker)
    ensures w in Run(c, acts).busy <==> exists i: nat :: Holding(c, acts, i, w)
  {
    if acts == [] {
    } else {
      var n, front := |acts| - 1, acts[..|acts| - 1];
      BusyExact(c, front, w);
      BusyStep(c, Run(c, front), acts[n], w);
      if i: nat :| Holding(c, front, i, w) {
        HoldingSince(c, acts, i, w);
      }
      if i: nat :| Holding(c, acts, i, w) {
        if i < n { HoldingSince(c, acts, i, w); }
      }
      assert acts[n] == Dispatch(w) && |Run(c, front).busy| < c.workers ==> Holding(c, acts, n, w);
    }
  }

  // ------------------------------------------------------- the bound is tight

  lemma Extend(c: Config, acts: seq<Action>, a: Action) returns (acts': seq<Action>)
    ensures Run(c, acts') == Step(c, Run(c, acts), a)
    ensures Rekeys(acts') == Rekeys(acts) + if a.Rekey? then 1 else 0
  {
    acts' := acts + [a];
    assert acts'[..|acts|] == acts;
  }

  /** The numbers below `n`. */
  ghost predicate Sized(s: set<nat>, n: nat) {
    |s| == n && forall x: nat :: x in s <==> x < n
  }

  lemma Grow(s: set<nat>, n: nat)
    requires Sized(s, n)
    ensures Sized(s + {n}, n + 1)
  {
    assert n !in s;
  }

  /** The next SA goes through the pool alone. */
  lemma StoreAlone(c: Config, acts: seq<Action>, n: nat) returns (acts': seq<Action>)
    requires c.workers >= 1 && n < c.max && Rekeys(acts) == 0
    requires Run(c, acts) == State(Run(c, acts).sas, {}, {}) && Sized(Run(c, acts).sas, n)
    ensures Run(c, acts') == State(Run(c, acts').sas, {}, {}) && Sized(Run(c, acts').sas, n + 1) && Rekeys(acts') == 0
  {
    var sas := Run(c, acts).sas;
    Grow(sas, n);
    acts' := Extend(c, acts, Dispatch(0));
    assert Run(c, acts') == State(sas, {0}, {});
    acts' := Extend(c, acts', Check(0));
    assert Run(c, acts') == State(sas, {0}, {0});
    acts' := Extend(c, acts', Store(0, n));
    assert Run(c, acts') == State(sas + {n}, {0}, {});
    acts' := Extend(c, acts', Release(0));
    assert Run(c, acts') == State(sas + {n}, {}, {});
  }

  lemma {:induction false} Fill(c: Config, n: nat) returns (acts: seq<Action>)
    requires c.workers >= 1 && n <= c.max
    ensures Run(c, acts) == State(Run(c, acts).sas, {}, {}) && Sized(Run(c, acts).sas, n) && Rekeys(acts) == 0
  {
    if n == 0 {
      acts := [];
    } else {
      var front := Fill(c, n - 1);
      acts := StoreAlone(c, front, n - 1);
    }
  }

  /** The table one short of full and `k` workers past the check. */
  ghost predicate Poised(c: Config, s: State, k: nat) {
    c.max >= 1 && Sized(s.sas, c.max - 1) && s.busy == s.passed && Sized(s.passed, k)
  }

  lemma PassOne(c: Config, s: State, k: nat)
    requires Poised(c, s, k) && k < c.workers
    ensures Poised(c, Step(c, Step(c, s, Dispatch(k)), Check(k)), k + 1)
  {
    Grow(s.passed, k);
    var s1 := Step(c, s, Dispatch(k));
    assert s1 == State(s.sas, s.busy + {k}, s.passed);
    assert Step(c, s1, Check(k)) == State(s.sas, s.busy + {k}, s.passed + {k});
  }

  lemma {:induction false} AllPass(c: Config, k: nat) returns (acts: seq<Action>)
    requires c.max >= 1 && 1 <= c.workers && k <= c.workers
    ensures Poised(c, Run(c, acts), k) && Rekeys(acts) == 0
  {
    if k == 0 {
      acts := Fill(c, c.max - 1);
    } else {
      var front := AllPass(c, k - 1);
      PassOne(c, Run(c, front), k - 1);
      var mid := Extend(c, front, Dispatch(k - 1));
      acts := Extend(c, mid, Check(k - 1));
    }
  }

  /** Then `j` of the workers have stored. */
  ghost predicate Storing(c: Config, s: State, j: nat) {
    && c.max >= 1 && Sized(s.sas, c.max - 1 + j)
    && forall w :: w in s.passed <==> j <= w < c.workers
  }

  lemma StoreOne(c: Config, s: State, j: nat)
    requires Storing(c, s, j) && j < c.workers
    ensures Storing(c, Step(c, s, Store(j, c.max - 1 + j)), j + 1)
  {
    Grow(s.sas, c.max - 1 + j);
    assert Step(c, s, Store(j, c.max - 1 + j)) == State(s.sas + {c.max - 1 + j}, s.busy, s.passed - {j});
  }

  lemma {:induction false} AllStore(c: Config, j: nat) returns (acts: seq<Action>)
    requires c.max >= 1 && c.workers >= 1 && j <= c.workers
    ensures Storing(c, Run(c, acts), j) && Rekeys(acts) == 0
  {
    if j == 0 {
      acts := AllPass(c, c.workers);
    } else {
      var front := AllStore(c, j - 1);
      StoreOne(c, Run(c, front), j - 1);
      acts := Extend(c, front, Store(j - 1, c.max - 1 + (j - 1)));
    }
  }

  /** The bound is reached: some interleaving fills the table to max + workers - 1, and one
      rekey then goes beyond it. */
  lemma BoundReached(c: Config) returns (acts: seq<Action>, more: seq<Action>)
    requires c.max >= 1 && c.workers >= 1
    ensures Rekeys(acts) == 0 && |Run(c, acts).sas| == c.max + c.workers - 1
    ensures Rekeys(more) == 1 && |Run(c, more).sas| == c.max + c.workers
  {
    acts := AllStore(c, c.workers);
    var n := c.max + c.workers - 1;
    Grow(Run(c, acts).sas, n);
    more := Extend(c, acts, Rekey(n));
  }
}
