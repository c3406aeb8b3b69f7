/** The kernel maps behind uplink classification, the program that reads them for each packet,
    and the control plane that rewrites them one kernel call at a time. */
module TcTable {
  import opened Octets
  import opened Tft
  import opened TcRules

  datatype UeEntry = UeEntry(teid: nat, pgw: Ip4, local: Ip4, ifindex: nat, ruleCount: nat)

  datatype TeidEntry = TeidEntry(paa: Ip4, pgw: Ip4)

  datatype RuleKey = RuleKey(addr: Ip4, index: nat)

  /** ue_session_map and tft_rule_map. */
  datatype Maps = Maps(ue: map<Ip4, UeEntry>, rules: map<RuleKey, Rule>)

  // ------------------------------------------------------------- classifying

  function Look(rules: map<RuleKey, Rule>, c: Choice, addr: Ip4, i: nat, p: Packet): Choice {
    if RuleKey(addr, i) in rules then Consider(c, rules[RuleKey(addr, i)], p) else c
  }

  /** The scan after the first `n` indexes; an index without a rule is passed over. */
  function Scan(rules: map<RuleKey, Rule>, addr: Ip4, defaultTeid: nat, n: nat, p: Packet): Choice {
    if n == 0 then Choice(defaultTeid, 255) else
    Look(rules, Scan(rules, addr, defaultTeid, n - 1, p), addr, n - 1, p)
  }

  function Bounded(count: nat): nat {
    if count > MAX_RULES then MAX_RULES else count
  }

  /** The TEID the packet is sent on; None when its source is no known UE. */
  function Classify(m: Maps, p: Packet): Option<nat> {
    if p.src !in m.ue then None else
    var e := m.ue[p.src];
    Some(Scan(m.rules, p.src, e.teid, Bounded(e.ruleCount), p).teid)
  }

  /** The selection loop of the TC program. */
  method SelectTeid(m: Maps, p: Packet) returns (r: Option<nat>)
    ensures r == Classify(m, p)
  {
    if p.src !in m.ue { return None; }
    var sess := m.ue[p.src];
    var selectedTeid, bestPrecedence: byte := sess.teid, 255;
    var ruleCount := sess.ruleCount;
    if ruleCount > MAX_RULES { ruleCount := MAX_RULES; }
    var i := 0;
    while i < MAX_RULES
      invariant 0 <= i <= ruleCount <= MAX_RULES
      invariant Choice(selectedTeid, bestPrecedence) == Scan(m.rules, p.src, sess.teid, i, p)
    {
      if i >= ruleCount { break; }
      var key := RuleKey(p.src, i);
      i := i + 1;
      if key !in m.rules { continue; }
      var rule := m.rules[key];
      if rule.precedence >= bestPrecedence { continue; }
      if !RuleMatches(rule, p) { continue; }
      selectedTeid, bestPrecedence := rule.teid, rule.precedence;
    }
    r := Some(selectedTeid);
  }

  lemma {:induction false} ScanFrame(r1: map<RuleKey, Rule>, r2: map<RuleKey, Rule>, addr: Ip4, defaultTeid: nat, n: nat, p: Packet)
    requires SameAt(r1, r2, addr)
    ensures Scan(r1, addr, defaultTeid, n, p) == Scan(r2, addr, defaultTeid, n, p)
  {
    if n == 0 {
    } else {
      ScanFrame(r1, r2, addr, defaultTeid, n - 1, p);
      assert SameKey(r1, r2, RuleKey(addr, n - 1));
    }
  }

  ghost predicate SameKey(r1: map<RuleKey, Rule>, r2: map<RuleKey, Rule>, k: RuleKey) {
    (k in r1 <==> k in r2) && (k in r1 ==> r1[k] == r2[k])
  }

  ghost predicate SameAt(r1: map<RuleKey, Rule>, r2: map<RuleKey, Rule>, addr: Ip4) {
    forall k: RuleKey :: k.addr == addr ==> SameKey(r1, r2, k)
  }

  ghost predicate SameElsewhere(r1: map<RuleKey, Rule>, r2: map<RuleKey, Rule>, addr: Ip4) {
    forall k: RuleKey :: k.addr != addr ==> SameKey(r1, r2, k)
  }

  /** The first `n` rules of the list are in the table. */
  ghost predicate Holds(rules: map<RuleKey, Rule>, addr: Ip4, list: seq<Rule>, n: nat) {
    n <= |list| && forall i :: 0 <= i < n ==> RuleKey(addr, i) in rules && rules[RuleKey(addr, i)] == list[i]
  }

  /** Scanning a table that holds the list picks what the list prescribes. */
  lemma {:induction false} ScanIsPick(rules: map<RuleKey, Rule>, addr: Ip4, defaultTeid: nat, list: seq<Rule>, n: nat, p: Packet)
    requires Holds(rules, addr, list, n)
    ensures Scan(rules, addr, defaultTeid, n, p) == Pick(list[..n], defaultTeid, p)
  {
    if n == 0 {
    } else {
      ScanIsPick(rules, addr, defaultTeid, list, n - 1, p);
      assert list[..n][..n - 1] == list[..n - 1];
    }
  }

  // ----------------------------------------------------------- step safety

  /** Every packet of other UEs is classified as before. */
  ghost predicate OthersKeep(before: Maps, m: Maps, addr: Ip4) {
    forall p: Packet :: p.src != addr ==> Classify(m, p) == Classify(before, p)
  }

  ghost predicate OldTable(before: Maps, m: Maps, addr: Ip4) {
    forall p: Packet :: p.src == addr ==> Classify(m, p) == Classify(before, p)
  }

  ghost predicate DefaultOnly(teid: nat, m: Maps, addr: Ip4) {
    forall p: Packet :: p.src == addr ==> Classify(m, p) == Some(teid)
  }

  ghost predicate NewTable(teid: nat, m: Maps, addr: Ip4, list: seq<Rule>) {
    forall p: Packet :: p.src == addr ==> Classify(m, p) == Some(Pick(list, teid, p).teid)
  }

  /** A rule that a reader can find at the UE is one of the old table or of the new list, at
      the same index. */
  ghost predicate FromEither(before: Maps, m: Maps, addr: Ip4, list: seq<Rule>) {
    forall i: nat :: RuleKey(addr, i) in m.rules ==>
      || (RuleKey(addr, i) in before.rules && m.rules[RuleKey(addr, i)] == before.rules[RuleKey(addr, i)])
      || (i < |list| && m.rules[RuleKey(addr, i)] == list[i])
  }

  /** One table for all packets: wholly the old one, wholly the default bearer, or wholly the
      new one; and other UEs see no difference. */
  ghost predicate Safe(before: Maps, m: Maps, addr: Ip4, list: seq<Rule>) {
    && OthersKeep(before, m, addr)
    && FromEither(before, m, addr, list)
    && (OldTable(before, m, addr)
        || (addr in before.ue && DefaultOnly(before.ue[addr].teid, m, addr))
        || (addr in before.ue && NewTable(before.ue[addr].teid, m, addr, list)))
  }

  /** The UE's entry with this rule count, everything of other UEs as before. */
  ghost predicate Rewriting(before: Maps, m: Maps, addr: Ip4, count: nat) {
    && addr in before.ue
    && m.ue == before.ue[addr := before.ue[addr].(ruleCount := count)]
    && SameElsewhere(before.rules, m.rules, addr)
  }

  lemma RewritingKeepsOthers(before: Maps, m: Maps, addr: Ip4, count: nat)
    requires Rewriting(before, m, addr, count)
    ensures OthersKeep(before, m, addr)
  {
    forall p: Packet | p.src != addr
      ensures Classify(m, p) == Classify(before, p)
    {
      if p.src in before.ue {
        ScanFrame(m.rules, before.rules, p.src, before.ue[p.src].teid, Bounded(before.ue[p.src].ruleCount), p);
      }
    }
  }

  lemma ZeroCountIsSafe(before: Maps, m: Maps, addr: Ip4, list: seq<Rule>)
    requires Rewriting(before, m, addr, 0) && FromEither(before, m, addr, list)
    ensures Safe(before, m, addr, list) && DefaultOnly(before.ue[addr].teid, m, addr)
  {
    RewritingKeepsOthers(before, m, addr, 0);
  }

  lemma FullCountIsSafe(before: Maps, m: Maps, addr: Ip4, list: seq<Rule>)
    requires |list| <= MAX_RULES
    requires Rewriting(before, m, addr, |list|) && FromEither(before, m, addr, list)
    requires Holds(m.rules, addr, list, |list|)
    ensures Safe(before, m, addr, list) && NewTable(before.ue[addr].teid, m, addr, list)
  {
    RewritingKeepsOthers(before, m, addr, |list|);
    forall p: Packet | p.src == addr
      ensures Classify(m, p) == Some(Pick(list, before.ue[addr].teid, p).teid)
    {
      ScanIsPick(m.rules, addr, before.ue[addr].teid, list, |list|, p);
      assert list[..|list|] == list;
    }
  }

  // --------------------------------------------------- the stages of a rewrite

  /** The table without the UE's first `n` slots. */
  function DeletedTo(rules: map<RuleKey, Rule>, addr: Ip4, n: nat): map<RuleKey, Rule> {
    map k | k in rules && !(k.addr == addr && k.index < n) :: rules[k]
  }

  predicate Slot(k: RuleKey, addr: Ip4) {
    k.addr == addr && k.index < MAX_RULES
  }

  /** The table without the UE's rules. */
  function Cleared(rules: map<RuleKey, Rule>, addr: Ip4): map<RuleKey, Rule> {
    DeletedTo(rules, addr, MAX_RULES)
  }

  /** The table with the first `n` rules of the list written to the UE's slots. */
  function Written(rules: map<RuleKey, Rule>, addr: Ip4, list: seq<Rule>, n: nat): map<RuleKey, Rule>
    requires n <= |list|
  {
    if n == 0 then rules else Written(rules, addr, list, n - 1)[RuleKey(addr, n - 1) := list[n - 1]]
  }

  /** SetTFTRules makes this many kernel calls. */
  function Last(list: seq<Rule>): nat {
    MAX_RULES + |list| + 2
  }

  /** The rules after the first `t` calls. */
  function StageRules(rules: map<RuleKey, Rule>, addr: Ip4, list: seq<Rule>, t: nat): map<RuleKey, Rule>
    requires t <= Last(list)
  {
    if t == 0 then rules
    else if t <= MAX_RULES + 1 then DeletedTo(rules, addr, t - 1)
    else if t < Last(list) then Written(Cleared(rules, addr), addr, list, t - (MAX_RULES + 1))
    else Written(Cleared(rules, addr), addr, list, |list|)
  }

  /** The maps after the first `t` calls of SetTFTRules. */
  function Stage(before: Maps, addr: Ip4, list: seq<Rule>, t: nat): Maps
    requires addr in before.ue && t <= Last(list)
  {
    if t == 0 then before
    else Maps(before.ue[addr := before.ue[addr].(ruleCount := if t < Last(list) then 0 else |list|)],
              StageRules(before.rules, addr, list, t))
  }

  lemma DeleteNext(rules: map<RuleKey, Rule>, addr: Ip4, n: nat)
    ensures DeletedTo(rules, addr, n) - {RuleKey(addr, n)} == DeletedTo(rules, addr, n + 1)
  {}

  lemma {:induction false} WrittenAt(rules: map<RuleKey, Rule>, addr: Ip4, list: seq<Rule>, n: nat, k: RuleKey)
    requires n <= |list|
    ensures var w := Written(rules, addr, list, n);
            if k.addr == addr && k.index < n then k in w && w[k] == list[k.index] else SameKey(rules, w, k)
  {
    if n == 0 {
    } else {
      WrittenAt(rules, addr, list, n - 1, k);
    }
  }

  lemma StageRulesAt(rules: map<RuleKey, Rule>, addr: Ip4, list: seq<Rule>, t: nat, k: RuleKey)
    requires t <= Last(list)
    ensures var r := StageRules(rules, addr, list, t);
            && (k.addr != addr ==> SameKey(rules, r, k))
            && (k.addr == addr && k in r ==> (k in rules && r[k] == rules[k]) || (k.index < |list| && r[k] == list[k.index]))
  {
    if t > MAX_RULES + 1 {
      WrittenAt(Cleared(rules, addr), addr, list, if t < Last(list) then t - (MAX_RULES + 1) else |list|, k);
    }
  }

  /** No stage touches anything but the UE's slots and its rule count. */
  lemma StageFrame(before: Maps, addr: Ip4, list: seq<Rule>, t: nat)
    requires addr in before.ue && t <= Last(list) && |list| <= MAX_RULES
    ensures var m := Stage(before, addr, list, t);
            && addr in m.ue && m.ue == before.ue[addr := before.ue[addr].(ruleCount := m.ue[addr].ruleCount)]
            && Cleared(m.rules, addr) == Cleared(before.rules, addr)
  {
    var m := Stage(before, addr, list, t);
    if t > MAX_RULES + 1 {
      var n := if t < Last(list) then t - (MAX_RULES + 1) else |list|;
      forall k: RuleKey | !Slot(k, addr)
        ensures (k in m.rules <==> k in before.rules) && (k in m.rules ==> m.rules[k] == before.rules[k])
      {
        WrittenAt(Cleared(before.rules, addr), addr, list, n, k);
      }
      assert Cleared(m.rules, addr).Keys == Cleared(before.rules, addr).Keys;
    }
  }

  /** Every stage is safe: wholly old at the start, wholly default in between, wholly new at the
      end. */
  lemma StageSafe(before: Maps, addr: Ip4, list: seq<Rule>, t: nat)
    requires addr in before.ue && t <= Last(list) && |list| <= MAX_RULES
    ensures var m := Stage(before, addr, list, t);
            && Safe(before, m, addr, list)
            && (0 < t < Last(list) ==> DefaultOnly(before.ue[addr].teid, m, addr))
            && (t == Last(list) ==> NewTable(before.ue[addr].teid, m, addr, list))
  {
    var m := Stage(before, addr, list, t);
    forall k: RuleKey
      ensures k.addr != addr ==> SameKey(before.rules, m.rules, k)
      ensures k.addr == addr && k in m.rules ==>
                (k in before.rules && m.rules[k] == before.rules[k]) || (k.index < |list| && m.rules[k] == list[k.index])
    {
      StageRulesAt(before.rules, addr, list, t, k);
    }
    if t == 0 {
    } else if t < Last(list) {
      ZeroCountIsSafe(before, m, addr, list);
    } else {
      forall i | 0 <= i < |list| ensures RuleKey(addr, i) in m.rules && m.rules[RuleKey(addr, i)] == list[i] {
        WrittenAt(Cleared(before.rules, addr), addr, list, |list|, RuleKey(addr, i));
      }
      FullCountIsSafe(before, m, addr, list);
    }
  }

  // -------------------------------------- a packet that overlaps the rewrite

  /** A scan in progress while the table changes: index i is looked up at stage ts[i]. */
  function ScanStages(rules: map<RuleKey, Rule>, addr: Ip4, list: seq<Rule>, defaultTeid: nat, ts: seq<nat>, n: nat, p: Packet): Choice
    requires n <= |ts| && forall i :: 0 <= i < |ts| ==> ts[i] <= Last(list)
  {
    if n == 0 then Choice(defaultTeid, 255) else
    Look(StageRules(rules, addr, list, ts[n - 1]), ScanStages(rules, addr, list, defaultTeid, ts, n - 1, p), addr, n - 1, p)
  }

  /** The UE's entry was read at stage `e` and the rules it counts at the stages `ts`, in the
      order in which SetTFTRules goes through them. */
  ghost predicate Overlapping(before: Maps, addr: Ip4, list: seq<Rule>, e: nat, ts: seq<nat>) {
    && addr in before.ue && e <= Last(list)
    && |ts| == Bounded(Stage(before, addr, list, e).ue[addr].ruleCount)
    && (forall i :: 0 <= i < |ts| ==> e <= ts[i] <= Last(list))
    && (forall i, j :: 0 <= i < j < |ts| ==> ts[i] <= ts[j])
  }

  function Outcome(before: Maps, addr: Ip4, list: seq<Rule>, ts: seq<nat>, p: Packet): nat
    requires addr in before.ue && forall i :: 0 <= i < |ts| ==> ts[i] <= Last(list)
  {
    ScanStages(before.rules, addr, list, before.ue[addr].teid, ts, |ts|, p).teid
  }

  /** The default TEID, the old table's choice or the new table's. */
  predicate Expected(before: Maps, addr: Ip4, list: seq<Rule>, p: Packet, teid: nat)
    requires addr in before.ue
  {
    var d := before.ue[addr].teid;
    || teid == d
    || teid == Scan(before.rules, addr, d, Bounded(before.ue[addr].ruleCount), p).teid
    || teid == Pick(list, d, p).teid
  }

  /** Every contending rule that a scan with the old count can come upon names an expected TEID. */
  ghost predicate Unmixed(before: Maps, addr: Ip4, list: seq<Rule>, p: Packet)
    requires addr in before.ue
  {
    var n := Bounded(before.ue[addr].ruleCount);
    && (forall k: nat :: k < n && RuleKey(addr, k) in before.rules && Contends(before.rules[RuleKey(addr, k)], p)
          ==> Expected(before, addr, list, p, before.rules[RuleKey(addr, k)].teid))
    && (forall k: nat :: k < n && k < |list| && Contends(list[k], p) ==> Expected(before, addr, list, p, list[k].teid))
  }

  /** What a scan in progress can end with. */
  lemma {:induction false} OverlappingScan(rules: map<RuleKey, Rule>, addr: Ip4, list: seq<Rule>, d: nat, ts: seq<nat>, n: nat, p: Packet)
    requires n <= |ts| && forall i :: 0 <= i < |ts| ==> ts[i] <= Last(list)
    ensures var c := ScanStages(rules, addr, list, d, ts, n, p);
            || c == Choice(d, 255)
            || (exists k: nat :: k < n && RuleKey(addr, k) in rules && Contends(rules[RuleKey(addr, k)], p)
                  && c == Choice(rules[RuleKey(addr, k)].teid, rules[RuleKey(addr, k)].precedence))
            || (exists k: nat :: k < n && k < |list| && Contends(list[k], p) && c == Choice(list[k].teid, list[k].precedence))
  {
    if n == 0 {
    } else {
      OverlappingScan(rules, addr, list, d, ts, n - 1, p);
      StageRulesAt(rules, addr, list, ts[n - 1], RuleKey(addr, n - 1));
    }
  }

  /** A scan that comes upon a single rule ends with it. */
  lemma {:induction false} OnlyOneSeen(rules: map<RuleKey, Rule>, addr: Ip4, list: seq<Rule>, d: nat, ts: seq<nat>, n: nat, k: nat, r: Rule, p: Packet)
    requires n <= |ts| && forall i :: 0 <= i < |ts| ==> ts[i] <= Last(list)
    requires k < |ts| && Contends(r, p)
    requires RuleKey(addr, k) in StageRules(rules, addr, list, ts[k]) && StageRules(rules, addr, list, ts[k])[RuleKey(addr, k)] == r
    requires forall i :: 0 <= i < |ts| && i != k ==> RuleKey(addr, i) !in StageRules(rules, addr, list, ts[i])
    ensures ScanStages(rules, addr, list, d, ts, n, p) == if k < n then Choice(r.teid, r.precedence) else Choice(d, 255)
  {
    if n == 0 {
    } else {
      OnlyOneSeen(rules, addr, list, d, ts, n - 1, k, r, p);
    }
  }

  /** Indexes up to k are looked up when slot k is the next to be deleted, later ones when all
      slots are empty. */
  lemma OldRuleSeen(before: Maps, addr: Ip4, list: seq<Rule>, k: nat, p: Packet) returns (ts: seq<nat>)
    requires addr in before.ue && k < Bounded(before.ue[addr].ruleCount)
    requires RuleKey(addr, k) in before.rules && Contends(before.rules[RuleKey(addr, k)], p)
    ensures Overlapping(before, addr, list, 0, ts) && Outcome(before, addr, list, ts, p) == before.rules[RuleKey(addr, k)].teid
  {
    var n := Bounded(before.ue[addr].ruleCount);
    ts := seq(n, i => if i <= k then k + 1 else MAX_RULES + 1);
    OnlyOneSeen(before.rules, addr, list, before.ue[addr].teid, ts, n, k, before.rules[RuleKey(addr, k)], p);
  }

  /** Lower indexes are looked up before the first write, k and above right after k's write. */
  lemma NewRuleSeen(before: Maps, addr: Ip4, list: seq<Rule>, k: nat, p: Packet) returns (ts: seq<nat>)
    requires addr in before.ue && k < Bounded(before.ue[addr].ruleCount) && k < |list| && Contends(list[k], p)
    ensures Overlapping(before, addr, list, 0, ts) && Outcome(before, addr, list, ts, p) == list[k].teid
  {
    var n := Bounded(before.ue[addr].ruleCount);
    ts := seq(n, i => if i < k then MAX_RULES + 1 else MAX_RULES + 2 + k);
    forall i | 0 <= i < n
      ensures i != k ==> RuleKey(addr, i) !in StageRules(before.rules, addr, list, ts[i])
      ensures i == k ==> RuleKey(addr, i) in StageRules(before.rules, addr, list, ts[i])
                         && StageRules(before.rules, addr, list, ts[i])[RuleKey(addr, i)] == list[k]
    {
      if i >= k { WrittenAt(Cleared(before.rules, addr), addr, list, k + 1, RuleKey(addr, i)); }
    }
    OnlyOneSeen(before.rules, addr, list, before.ue[addr].teid, ts, n, k, list[k], p);
  }

  lemma FullStageIsPick(before: Maps, addr: Ip4, list: seq<Rule>, ts: seq<nat>, p: Packet)
    requires |list| <= MAX_RULES && Overlapping(before, addr, list, Last(list), ts)
    ensures Outcome(before, addr, list, ts, p) == Pick(list, before.ue[addr].teid, p).teid
  {
    var r := StageRules(before.rules, addr, list, Last(list));
    forall i | 0 <= i < |list| ensures RuleKey(addr, i) in r && r[RuleKey(addr, i)] == list[i] {
      WrittenAt(Cleared(before.rules, addr), addr, list, |list|, RuleKey(addr, i));
    }
    SameStage(before.rules, addr, list, before.ue[addr].teid, ts, |list|, p);
    ScanIsPick(r, addr, before.ue[addr].teid, list, |list|, p);
    assert list[..|list|] == list;
  }

  lemma {:induction false} SameStage(rules: map<RuleKey, Rule>, addr: Ip4, list: seq<Rule>, d: nat, ts: seq<nat>, n: nat, p: Packet)
    requires n <= |ts| && forall i :: 0 <= i < |ts| ==> ts[i] == Last(list)
    ensures ScanStages(rules, addr, list, d, ts, n, p) == Scan(StageRules(rules, addr, list, Last(list)), addr, d, n, p)
  {
    if n == 0 {
    } else {
      SameStage(rules, addr, list, d, ts, n - 1, p);
    }
  }

  /** One direction: nothing unexpected to come upon, nothing unexpected to end with. */
  lemma UnmixedIsExpected(before: Maps, addr: Ip4, list: seq<Rule>, p: Packet, e: nat, ts: seq<nat>)
    requires addr in before.ue && |list| <= MAX_RULES && Unmixed(before, addr, list, p) && Overlapping(before, addr, list, e, ts)
    ensures Expected(before, addr, list, p, Outcome(before, addr, list, ts, p))
  {
    if e == Last(list) {
      FullStageIsPick(before, addr, list, ts, p);
    } else {
      OverlappingScan(before.rules, addr, list, before.ue[addr].teid, ts, |ts|, p);
    }
  }

  /** A packet that is classified while its table is rewritten gets the old choice, the default
      or the new choice, however its look-ups fall between the kernel calls, if and only if
      every contending old or new rule within the old count names one of these TEIDs. */
  lemma OverlapExactIff(before: Maps, addr: Ip4, list: seq<Rule>, p: Packet)
    requires addr in before.ue && |list| <= MAX_RULES
    ensures (forall e, ts :: Overlapping(before, addr, list, e, ts) ==> Expected(before, addr, list, p, Outcome(before, addr, list, ts, p)))
            <==> Unmixed(before, addr, list, p)
  {
    if Unmixed(before, addr, list, p) {
      forall e, ts | Overlapping(before, addr, list, e, ts)
        ensures Expected(before, addr, list, p, Outcome(before, addr, list, ts, p))
      {
        UnmixedIsExpected(before, addr, list, p, e, ts);
      }
    } else {
      var n := Bounded(before.ue[addr].ruleCount);
      if k: nat :| k < n && RuleKey(addr, k) in before.rules && Contends(before.rules[RuleKey(addr, k)], p)
                   && !Expected(before, addr, list, p, before.rules[RuleKey(addr, k)].teid) {
        var ts := OldRuleSeen(before, addr, list, k, p);
      } else {
        var k: nat :| k < n && k < |list| && Contends(list[k], p) && !Expected(before, addr, list, p, list[k].teid);
        var ts := NewRuleSeen(before, addr, list, k, p);
      }
    }
  }

  /** A mix that happens: two matching old rules, the worse one looked up before it is deleted
      and the better one after. */
  lemma OverlapCanMix(addr: Ip4, p: Packet) returns (before: Maps, ts: seq<nat>)
    requires p.src == addr
    ensures Overlapping(before, addr, [], 0, ts) && Outcome(before, addr, [], ts, p) == 1
    ensures Classify(before, p) == Some(2) && before.ue[addr].teid == 9 && Pick([], 9, p).teid == 9
  {
    var zero := Ip4(0, 0, 0, 0);
    var worse := Rule(1, 5, 0, 0, zero, zero, Ports(0, 0), Ports(0, 0));
    var better := worse.(teid := 2, precedence := 3);
    before := Maps(map[addr := UeEntry(9, zero, zero, 0, 2)],
                   map[RuleKey(addr, 0) := worse, RuleKey(addr, 1) := better]);
    assert RuleMatches(worse, p) && RuleMatches(better, p);
    assert Scan(before.rules, addr, 9, 1, p) == Choice(1, 5);
    ts := OldRuleSeen(before, addr, [], 0, p);
  }

  /** From `mark` on, the log has the stages in order, one per entry. */
  ghost predicate Logged(before: Maps, addr: Ip4, list: seq<Rule>, log: seq<Maps>, mark: nat)
    requires addr in before.ue && |log| - mark <= Last(list)
  {
    forall j :: mark <= j < |log| ==> log[j] == Stage(before, addr, list, j - mark + 1)
  }

  lemma ClearLogged(before: Maps, addr: Ip4, list: seq<Rule>, log1: seq<Maps>, log: seq<Maps>, mark: nat)
    requires addr in before.ue && |log1| == mark + 1 && log1[mark] == Stage(before, addr, list, 1)
    requires |log1| <= |log| <= |log1| + MAX_RULES && log[..|log1|] == log1
    requires forall j :: |log1| <= j < |log| ==>
               log[j] == Maps(log1[mark].ue, DeletedTo(before.rules, addr, j - |log1| + 1))
    ensures Logged(before, addr, list, log, mark)
  {
    assert log[mark] == log[..|log1|][mark];
  }

  lemma WriteLogged(before: Maps, addr: Ip4, list: seq<Rule>, log2: seq<Maps>, log: seq<Maps>, mark: nat)
    requires addr in before.ue && |log2| == mark + 1 + MAX_RULES && Logged(before, addr, list, log2, mark)
    requires |log2| <= |log| <= |log2| + |list| && log[..|log2|] == log2
    requires forall j :: |log2| <= j < |log| ==>
               log[j] == Maps(log2[mark].ue, Written(Cleared(before.rules, addr), addr, list, j - |log2| + 1))
    ensures Logged(before, addr, list, log, mark)
  {
    forall j | mark <= j < |log| ensures log[j] == Stage(before, addr, list, j - mark + 1) {
      if j < |log2| { assert log[j] == log[..|log2|][j]; }
    }
  }

  /** The kernel maps and routes. A kernel call fails iff its number is in `faults`; a failed call
      changes nothing. */
  class Dataplane {
    var ue: map<Ip4, UeEntry>
    var rules: map<RuleKey, Rule>
    /** teid_map: where the downlink of each local TEID goes and which peer may send it. */
    var teids: map<nat, TeidEntry>
    /** UE addresses with a host route. */
    var routes: set<Ip4>
    var calls: nat
    const faults: set<nat>
    /** The maps after each successful call on them so far. */
    ghost var log: seq<Maps>

    ghost predicate AllSucceed(first: nat, end: nat) {
      forall n: nat :: first <= n < end ==> n !in faults
    }

    ghost function View(): Maps
      reads this
    {
      Maps(ue, rules)
    }

    constructor (faults: set<nat>)
      ensures View() == Maps(map[], map[]) && teids == map[] && routes == {}
      ensures log == [] && calls == 0 && this.faults == faults
    {
      ue, rules, teids, routes, calls, log := map[], map[], map[], {}, 0, [];
      this.faults := faults;
    }

    method PutUe(addr: Ip4, e: UeEntry) returns (ok: bool)
      modifies this`ue, this`rules, this`calls, this`log
      ensures ok == (old(calls) !in faults) && calls == old(calls) + 1
      ensures rules == old(rules) && ue == if ok then old(ue)[addr := e] else old(ue)
      ensures log == if ok then old(log) + [View()] else old(log)
    {
      ok := calls !in faults;
      calls := calls + 1;
      if ok {
        ue := ue[addr := e];
        log := log + [View()];
      }
    }

    method DeleteUe(addr: Ip4) returns (ok: bool)
      modifies this`ue, this`rules, this`calls, this`log
      ensures ok == (old(calls) !in faults) && calls == old(calls) + 1
      ensures rules == old(rules) && ue == if ok then old(ue) - {addr} else old(ue)
      ensures log == if ok then old(log) + [View()] else old(log)
    {
      ok := calls !in faults;
      calls := calls + 1;
      if ok {
        ue := ue - {addr};
        log := log + [View()];
      }
    }

    method PutRule(k: RuleKey, r: Rule) returns (ok: bool)
      modifies this`ue, this`rules, this`calls, this`log
      ensures ok == (old(calls) !in faults) && calls == old(calls) + 1
      ensures ue == old(ue) && rules == if ok then old(rules)[k := r] else old(rules)
      ensures log == if ok then old(log) + [View()] else old(log)
    {
      ok := calls !in faults;
      calls := calls + 1;
      if ok {
        rules := rules[k := r];
        log := log + [View()];
      }
    }

    /** Deleting an absent key is no error. */
    method DeleteRule(k: RuleKey) returns (ok: bool)
      modifies this`ue, this`rules, this`calls, this`log
      ensures ok == (old(calls) !in faults) && calls == old(calls) + 1
      ensures ue == old(ue) && rules == if ok then old(rules) - {k} else old(rules)
      ensures log == if ok then old(log) + [View()] else old(log)
    {
      ok := calls !in faults;
      calls := calls + 1;
      if ok {
        rules := rules - {k};
        log := log + [View()];
      }
    }

    method PutTeid(teid: nat, e: TeidEntry) returns (ok: bool)
      modifies this`teids, this`calls
      ensures ok == (old(calls) !in faults) && calls == old(calls) + 1
      ensures teids == if ok then old(teids)[teid := e] else old(teids)
    {
      ok := calls !in faults;
      calls := calls + 1;
      if ok { teids := teids[teid := e]; }
    }

    /** RemoveTEID; an absent TEID is no error. */
    method RemoveTeid(teid: nat) returns (ok: bool)
      modifies this`teids, this`calls
      ensures ok == (old(calls) !in faults) && calls == old(calls) + 1
      ensures teids == if ok then old(teids) - {teid} else old(teids)
    {
      ok := calls !in faults;
      calls := calls + 1;
      if ok { teids := teids - {teid}; }
    }

    /** RouteAdd refuses a route that exists. */
    method AddRoute(paa: Ip4) returns (ok: bool)
      modifies this`routes, this`calls
      ensures ok == (old(calls) !in faults && paa !in old(routes)) && calls == old(calls) + 1
      ensures routes == if ok then old(routes) + {paa} else old(routes)
    {
      ok := calls !in faults && paa !in routes;
      calls := calls + 1;
      if ok { routes := routes + {paa}; }
    }

    method RemoveRoute(paa: Ip4)
      modifies this`routes, this`calls
      ensures calls == old(calls) + 1
      ensures routes == if old(calls) !in faults then old(routes) - {paa} else old(routes)
    {
      if calls !in faults { routes := routes - {paa}; }
      calls := calls + 1;
    }

    /** AddUESession: a new session starts on its default bearer. */
    method AddUeSession(paa: Option<Ip4>, teid: nat, pgw: Option<Ip4>, local: Option<Ip4>, ifindex: nat) returns (ok: bool)
      modifies this`ue, this`rules, this`calls, this`log
      ensures ok <==> paa.Some? && pgw.Some? && local.Some? && old(calls) !in faults
      ensures calls == if paa.Some? && pgw.Some? && local.Some? then old(calls) + 1 else old(calls)
      ensures !ok ==> View() == old(View())
      ensures ok ==>
        && View() == Maps(old(ue)[paa.value := UeEntry(teid, pgw.value, local.value, ifindex, 0)], old(rules))
        && DefaultOnly(teid, View(), paa.value) && OthersKeep(old(View()), View(), paa.value)
    {
      if paa.None? || pgw.None? || local.None? { return false; }
      ok := PutUe(paa.value, UeEntry(teid, pgw.value, local.value, ifindex, 0));
    }

    /** clearTFTRules: stops at the first failing delete. */
    method ClearRules(addr: Ip4) returns (ok: bool)
      modifies this`ue, this`rules, this`calls, this`log
      ensures ue == old(ue)
      ensures ok ==> rules == Cleared(old(rules), addr) && calls == old(calls) + MAX_RULES
      ensures |log| >= |old(log)| && log[..|old(log)|] == old(log)
      ensures var n := |log| - |old(log)|;
              && n <= MAX_RULES && (ok <==> n == MAX_RULES) && rules == DeletedTo(old(rules), addr, n)
              && forall j :: |old(log)| <= j < |log| ==> log[j] == Maps(ue, DeletedTo(old(rules), addr, j - |old(log)| + 1))
      ensures old(calls) <= calls && (ok <==> AllSucceed(old(calls), calls))
      ensures ok <==> AllSucceed(old(calls), old(calls) + MAX_RULES)
    {
      assert DeletedTo(rules, addr, 0) == rules;
      for i := 0 to MAX_RULES
        invariant ue == old(ue) && calls == old(calls) + i && rules == DeletedTo(old(rules), addr, i)
        invariant AllSucceed(old(calls), old(calls) + i)
        invariant |log| == |old(log)| + i && log[..|old(log)|] == old(log)
        invariant forall j :: |old(log)| <= j < |log| ==> log[j] == Maps(ue, DeletedTo(old(rules), addr, j - |old(log)| + 1))
      {
        DeleteNext(old(rules), addr, i);
        ok := DeleteRule(RuleKey(addr, i));
        if !ok { return; }
      }
      ok := true;
    }

    /** SetTFTRules: rule count to zero, clear, write the rules, rule count to the new value. It
        goes through the stages in order and stops at the first failing call; every stage is
        safe, and so is the one an aborted call leaves. */
    method SetTftRules(paa: Option<Ip4>, list: seq<Rule>) returns (ok: bool)
      modifies this`ue, this`rules, this`calls, this`log
      ensures |log| >= |old(log)| && log[..|old(log)|] == old(log)
      ensures paa.None? || paa.value !in old(ue) || |list| > MAX_RULES ==> !ok && View() == old(View()) && log == old(log)
      ensures paa.Some? && paa.value in old(ue) && |list| <= MAX_RULES ==>
        var n := |log| - |old(log)|;
        && n <= Last(list) && (ok <==> n == Last(list)) && View() == Stage(old(View()), paa.value, list, n)
        && Logged(old(View()), paa.value, list, log, |old(log)|)
        && (ok <==> AllSucceed(old(calls), old(calls) + Last(list))) && (ok <==> AllSucceed(old(calls), calls))
      ensures paa.Some? ==> forall j :: |old(log)| <= j < |log| ==> Safe(old(View()), log[j], paa.value, list)
      ensures paa.Some? ==> Safe(old(View()), View(), paa.value, list)
      ensures ok ==> paa.Some? && paa.value in old(ue) && |list| <= MAX_RULES
                     && NewTable(old(ue)[paa.value].teid, View(), paa.value, list)
      ensures old(calls) <= calls
    {
      ghost var before := View();
      if paa.None? || |list| > MAX_RULES || paa.value !in ue { return false; }
      var addr := paa.value;
      ok := RunStages(addr, list);
      ghost var n := |log| - |old(log)|;
      StageSafe(before, addr, list, n);
      forall j | |old(log)| <= j < |log| ensures Safe(before, log[j], addr, list) {
        StageSafe(before, addr, list, j - |old(log)| + 1);
      }
    }

    method RunStages(addr: Ip4, list: seq<Rule>) returns (ok: bool)
      requires addr in ue && |list| <= MAX_RULES
      modifies this`ue, this`rules, this`calls, this`log
      ensures |log| >= |old(log)| && log[..|old(log)|] == old(log)
      ensures var n := |log| - |old(log)|;
              && n <= Last(list) && (ok <==> n == Last(list)) && View() == Stage(old(View()), addr, list, n)
              && Logged(old(View()), addr, list, log, |old(log)|)
      ensures old(calls) <= calls && (ok <==> AllSucceed(old(calls), calls))
      ensures ok <==> AllSucceed(old(calls), old(calls) + Last(list))
    {
      ghost var before, mark := View(), |log|;
      var entry := ue[addr];
      ok := PutUe(addr, entry.(ruleCount := 0));
      if !ok { return; }
      assert DeletedTo(rules, addr, 0) == rules;
      ghost var log1 := log;
      ok := ClearRules(addr);
      ClearLogged(before, addr, list, log1, log, mark);
      if !ok { return; }
      ghost var log2 := log;
      ok := WriteRules(addr, list);
      WriteLogged(before, addr, list, log2, log, mark);
      if !ok { return; }
      ok := PutUe(addr, entry.(ruleCount := |list|));
    }

    method WriteRules(addr: Ip4, list: seq<Rule>) returns (ok: bool)
      modifies this`ue, this`rules, this`calls, this`log
      ensures ue == old(ue)
      ensures ok ==> calls == old(calls) + |list|
      ensures |log| >= |old(log)| && log[..|old(log)|] == old(log)
      ensures var n := |log| - |old(log)|;
              && n <= |list| && (ok <==> n == |list|) && rules == Written(old(rules), addr, list, n)
              && forall j :: |old(log)| <= j < |log| ==> log[j] == Maps(ue, Written(old(rules), addr, list, j - |old(log)| + 1))
      ensures old(calls) <= calls && (ok <==> AllSucceed(old(calls), calls))
      ensures ok <==> AllSucceed(old(calls), old(calls) + |list|)
    {
      for i := 0 to |list|
        invariant ue == old(ue) && calls == old(calls) + i && rules == Written(old(rules), addr, list, i)
        invariant AllSucceed(old(calls), old(calls) + i)
        invariant |log| == |old(log)| + i && log[..|old(log)|] == old(log)
        invariant forall j :: |old(log)| <= j < |log| ==> log[j] == Maps(ue, Written(old(rules), addr, list, j - |old(log)| + 1))
      {
        ok := PutRule(RuleKey(addr, i), list[i]);
        if !ok { return; }
      }
      ok := true;
    }

    /** RemoveUESession: afterwards the UE's packets are no longer encapsulated. */
    method RemoveUeSession(paa: Option<Ip4>) returns (ok: bool)
      modifies this`ue, this`rules, this`calls, this`log
      ensures paa.None? ==> ok && View() == old(View())
      ensures paa.Some? ==> OthersKeep(old(View()), View(), paa.value)
      ensures paa.Some? && ok ==>
        ue == old(ue) - {paa.value} && rules == Cleared(old(rules), paa.value)
      ensures paa.Some? && !ok ==> ue == old(ue) && !AllSucceed(old(calls), calls)
      ensures old(calls) <= calls
      ensures forall k: RuleKey :: k in rules ==> k in old(rules) && rules[k] == old(rules)[k]
    {
      if paa.None? { return true; }
      ghost var before := View();
      ok := ClearRules(paa.value);
      forall p: Packet | p.src != paa.value
        ensures p.src in ue ==> Scan(rules, p.src, ue[p.src].teid, Bounded(ue[p.src].ruleCount), p)
                                == Scan(before.rules, p.src, ue[p.src].teid, Bounded(ue[p.src].ruleCount), p)
      {
        if p.src in ue {
          ScanFrame(rules, before.rules, p.src, ue[p.src].teid, Bounded(ue[p.src].ruleCount), p);
        }
      }
      if !ok { return; }
      ok := DeleteUe(paa.value);
    }

    /** syncTCBPFTFTRulesLocked: the whole path from the session's filters to the classifier. */
    method SyncTftRules(s: Uplinks, paa: Option<Ip4>) returns (ok: bool, ghost order: seq<byte>)
      modifies this`ue, this`rules, this`calls, this`log
      ensures IsOrder(s, order)
      ensures paa.Some? ==> Safe(old(View()), View(), paa.value, Truncate(Compile(s, order)))
      ensures paa.Some? ==> |log| >= |old(log)| && log[..|old(log)|] == old(log) && forall j :: |old(log)| <= j < |log| ==>
        Safe(old(View()), log[j], paa.value, Truncate(Compile(s, order)))
      ensures ok ==> paa.Some? && paa.value in old(ue)
                     && NewTable(old(ue)[paa.value].teid, View(), paa.value, Truncate(Compile(s, order)))
      ensures old(calls) <= calls
      ensures paa.Some? && paa.value in old(ue) ==>
        var list := Truncate(Compile(s, order));
        && |log| - |old(log)| <= Last(list) && (ok <==> |log| - |old(log)| == Last(list))
        && View() == Stage(old(View()), paa.value, list, |log| - |old(log)|)
        && (ok <==> AllSucceed(old(calls), calls))
      ensures paa.None? || paa.value !in old(ue) ==> !ok && View() == old(View())
      ensures ok && |Compile(s, order)| <= MAX_RULES && old(ue)[paa.value].teid == s.defaultTeid ==>
        forall p: Packet :: p.src == paa.value ==>
          Classify(View(), p).Some? && IsChoice(s, p, Classify(View(), p).value)
    {
      var list;
      list, order := BuildTcBpfTftRules(s);
      if |list| > MAX_RULES { list := list[..MAX_RULES]; }
      ok := SetTftRules(paa, list);
      if ok && |Compile(s, order)| <= MAX_RULES && old(ue)[paa.value].teid == s.defaultTeid {
        forall p: Packet | p.src == paa.value
          ensures Classify(View(), p).Some? && IsChoice(s, p, Classify(View(), p).value)
        {
          MeaningPreserved(s, order, p);
        }
      }
    }
  }
}
