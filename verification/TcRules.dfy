/** The TFT compiler and its interpreter: packet filters of dedicated bearers become a flat
    rule list, and the TC program scans that list for the matching rule of best precedence. */
module TcRules {
  import opened Octets
  import opened Tft

  const MAX_RULES: nat := 32

  const REMOTE_IP: bv8 := 0x01
  const PROTOCOL: bv8 := 0x02
  const LOCAL_PORT: bv8 := 0x04
  const REMOTE_PORT: bv8 := 0x08

  datatype Rule = Rule(
    teid: nat,
    precedence: byte,
    flags: bv8,
    protocol: byte,
    remoteIp: Ip4,
    remoteMask: Ip4,
    localPort: Ports,
    remotePort: Ports)

  // ---------------------------------------------------------------- compiler

  function Flag(on: bool, bit: bv8): bv8 {
    if on then bit else 0
  }

  /** One filter as a rule. A component that the filter lacks leaves its fields zero and its
      flag clear. */
  function RuleOf(teid: nat, f: PacketFilter): Rule {
    Rule(teid, f.precedence,
         Flag(f.remote.Some?, REMOTE_IP) | Flag(f.protocol.Some?, PROTOCOL)
         | Flag(f.localPort.Some?, LOCAL_PORT) | Flag(f.remotePort.Some?, REMOTE_PORT),
         if f.protocol.Some? then f.protocol.value else 0,
         if f.remote.Some? then f.remote.value.ip else Ip4(0, 0, 0, 0),
         if f.remote.Some? then f.remote.value.mask else Ip4(0, 0, 0, 0),
         if f.localPort.Some? then f.localPort.value else Ports(0, 0),
         if f.remotePort.Some? then f.remotePort.value else Ports(0, 0))
  }

  datatype Bearer = Bearer(ebi: byte, teid: nat, tft: Option<seq<PacketFilter>>)

  datatype Uplinks = Uplinks(defaultEbi: byte, defaultTeid: nat, bearers: map<byte, Bearer>)

  function CompileFilters(teid: nat, fs: seq<PacketFilter>): seq<Rule> {
    if fs == [] then [] else
    CompileFilters(teid, fs[..|fs| - 1])
    + if Uplink(fs[|fs| - 1]) then [RuleOf(teid, fs[|fs| - 1])] else []
  }

  function CompileBearer(s: Uplinks, b: Bearer): seq<Rule> {
    if b.ebi == s.defaultEbi || b.tft.None? then [] else CompileFilters(b.teid, b.tft.value)
  }

  /** The rules that visiting the bearers in this order emits. */
  function Compile(s: Uplinks, order: seq<byte>): seq<Rule>
    requires forall e :: e in order ==> e in s.bearers
  {
    if order == [] then [] else
    Compile(s, order[..|order| - 1]) + CompileBearer(s, s.bearers[order[|order| - 1]])
  }

  /** Every bearer once: an order in which a Go map iteration may visit the bearers. */
  ghost predicate IsOrder(s: Uplinks, order: seq<byte>) {
    && (forall e :: e in order <==> e in s.bearers)
    && (forall i, j :: 0 <= i < j < |order| ==> order[i] != order[j])
  }

  method CompileTft(teid: nat, fs: seq<PacketFilter>) returns (rules: seq<Rule>)
    ensures rules == CompileFilters(teid, fs)
  {
    rules := [];
    for i := 0 to |fs|
      invariant rules == CompileFilters(teid, fs[..i])
    {
      assert fs[..i + 1][..i] == fs[..i];
      var f := fs[i];
      if f.direction != 0x01 && f.direction != 0x03 { continue; }
      var flags: bv8 := 0;
      var ip, mask := Ip4(0, 0, 0, 0), Ip4(0, 0, 0, 0);
      if f.remote.Some? {
        flags := flags | REMOTE_IP;
        ip, mask := f.remote.value.ip, f.remote.value.mask;
      }
      if f.protocol.Some? { flags := flags | PROTOCOL; }
      if f.localPort.Some? { flags := flags | LOCAL_PORT; }
      if f.remotePort.Some? { flags := flags | REMOTE_PORT; }
      var rule := Rule(teid, f.precedence, flags,
                       if f.protocol.Some? then f.protocol.value else 0, ip, mask,
                       if f.localPort.Some? then f.localPort.value else Ports(0, 0),
                       if f.remotePort.Some? then f.remotePort.value else Ports(0, 0));
      FlagsAgree(f.remote.Some?, f.protocol.Some?, f.localPort.Some?, f.remotePort.Some?);
      assert rule == RuleOf(teid, f);
      rules := rules + [rule];
    }
    assert fs[..|fs|] == fs;
  }

  lemma FlagsAgree(a: bool, b: bool, c: bool, d: bool)
    ensures var f0: bv8 := if a then 0 | REMOTE_IP else 0;
            var f1 := if b then f0 | PROTOCOL else f0;
            var f2 := if c then f1 | LOCAL_PORT else f1;
            var f3 := if d then f2 | REMOTE_PORT else f2;
            f3 == Flag(a, REMOTE_IP) | Flag(b, PROTOCOL) | Flag(c, LOCAL_PORT) | Flag(d, REMOTE_PORT)
  {}

  /** buildTCBPFTFTRules: the map iteration visits the bearers in an order of its own. */
  method BuildTcBpfTftRules(s: Uplinks) returns (rules: seq<Rule>, ghost order: seq<byte>)
    ensures IsOrder(s, order)
    ensures rules == Compile(s, order)
  {
    rules := [];
    order := [];
    var todo := s.bearers.Keys;
    while todo != {}
      invariant forall e :: e in order || e in todo <==> e in s.bearers
      invariant forall e :: e in order ==> e !in todo
      invariant forall i, j :: 0 <= i < j < |order| ==> order[i] != order[j]
      invariant rules == Compile(s, order)
      decreases |todo|
    {
      var ebi :| ebi in todo;
      todo := todo - {ebi};
      ghost var was := order;
      order := order + [ebi];
      assert order[..|was|] == was;
      var b := s.bearers[ebi];
      if b.ebi == s.defaultEbi || b.tft.None? {
        assert rules + [] == rules;
        continue;
      }
      var more := CompileTft(b.teid, b.tft.value);
      rules := rules + more;
    }
  }

  // ------------------------------------------------------------- interpreter

  predicate MaskMatch(x: bv8, y: bv8, mask: bv8) {
    (x ^ y) & mask == 0
  }

  predicate Ipv4MaskMatch(pkt: Ip4, rule: Ip4, mask: Ip4) {
    && MaskMatch(pkt.a, rule.a, mask.a)
    && MaskMatch(pkt.b, rule.b, mask.b)
    && MaskMatch(pkt.c, rule.c, mask.c)
    && MaskMatch(pkt.d, rule.d, mask.d)
  }

  /** tft_rule_matches: each set flag must hold of the packet. */
  predicate RuleMatches(r: Rule, p: Packet) {
    && (r.flags & REMOTE_IP != 0 ==> Ipv4MaskMatch(p.dst, r.remoteIp, r.remoteMask))
    && (r.flags & PROTOCOL != 0 ==> p.protocol == r.protocol)
    && (r.flags & LOCAL_PORT != 0 ==> p.ports.Some? && r.localPort.lo <= p.ports.value.0 <= r.localPort.hi)
    && (r.flags & REMOTE_PORT != 0 ==> p.ports.Some? && r.remotePort.lo <= p.ports.value.1 <= r.remotePort.hi)
  }

  /** selected_teid and best_precedence. */
  datatype Choice = Choice(teid: nat, best: byte)

  function Consider(c: Choice, r: Rule, p: Packet): Choice {
    if r.precedence < c.best && RuleMatches(r, p) then Choice(r.teid, r.precedence) else c
  }

  /** What scanning the whole list selects. */
  function Pick(rules: seq<Rule>, defaultTeid: nat, p: Packet): Choice {
    if rules == [] then Choice(defaultTeid, 255) else
    Consider(Pick(rules[..|rules| - 1], defaultTeid, p), rules[|rules| - 1], p)
  }

  // ----------------------------------------------------- meaning is preserved

  lemma MaskAgrees(x: bv8, y: bv8, m: bv8)
    ensures MaskMatch(x, y, m) <==> And(x, m) == And(y, m)
  {}

  lemma AddressAgrees(x: Ip4, y: Ip4, mask: Ip4)
    ensures Ipv4MaskMatch(x, y, mask) <==> AgreeUnder(x, y, mask)
  {
    MaskAgrees(x.a, y.a, mask.a);
    MaskAgrees(x.b, y.b, mask.b);
    MaskAgrees(x.c, y.c, mask.c);
    MaskAgrees(x.d, y.d, mask.d);
  }

  lemma FlagBits(a: bool, b: bool, c: bool, d: bool)
    ensures var f := Flag(a, REMOTE_IP) | Flag(b, PROTOCOL) | Flag(c, LOCAL_PORT) | Flag(d, REMOTE_PORT);
            && (f & REMOTE_IP != 0 <==> a) && (f & PROTOCOL != 0 <==> b)
            && (f & LOCAL_PORT != 0 <==> c) && (f & REMOTE_PORT != 0 <==> d)
  {}

  /** A filter's rule matches exactly the packets that the filter matches. */
  lemma RuleMeansFilter(teid: nat, f: PacketFilter, p: Packet)
    ensures RuleMatches(RuleOf(teid, f), p) <==> Matches(f, p)
  {
    FlagBits(f.remote.Some?, f.protocol.Some?, f.localPort.Some?, f.remotePort.Some?);
    if f.remote.Some? {
      AddressAgrees(p.dst, f.remote.value.ip, f.remote.value.mask);
    }
  }

  /** The filter belongs to a dedicated bearer and applies to uplink traffic. */
  ghost predicate Eligible(s: Uplinks, b: Bearer, f: PacketFilter) {
    b in s.bearers.Values && b.ebi != s.defaultEbi && b.tft.Some? && f in b.tft.value && (f.direction == 1 || f.direction == 3)
  }

  ghost predicate Candidate(s: Uplinks, p: Packet, b: Bearer, f: PacketFilter) {
    Eligible(s, b, f) && Matches(f, p) && f.precedence < 255
  }

  /** No matching filter comes before f. */
  ghost predicate Best(s: Uplinks, p: Packet, b: Bearer, f: PacketFilter) {
    && Candidate(s, p, b, f)
    && (forall b', f' :: Candidate(s, p, b', f') ==> f.precedence <= f'.precedence)
  }

  /** The TEID is that of a best matching filter, or the default bearer's if none matches. */
  ghost predicate IsChoice(s: Uplinks, p: Packet, teid: nat) {
    || (exists b, f :: Best(s, p, b, f) && teid == b.teid)
    || (teid == s.defaultTeid && forall b, f :: !Candidate(s, p, b, f))
  }

  /** `i` is the first rule that matches with the precedence the scan settled on. */
  ghost predicate Wins(rules: seq<Rule>, p: Packet, c: Choice, i: nat) {
    && i < |rules| && RuleMatches(rules[i], p)
    && c == Choice(rules[i].teid, rules[i].precedence)
    && forall j :: 0 <= j < i && RuleMatches(rules[j], p) ==> rules[j].precedence > c.best
  }

  lemma {:induction false} PickIsBest(rules: seq<Rule>, defaultTeid: nat, p: Packet) returns (i: nat)
    ensures var c := Pick(rules, defaultTeid, p);
            && (forall j :: 0 <= j < |rules| && RuleMatches(rules[j], p) ==> c.best <= rules[j].precedence)
            && if c.best == 255 then c.teid == defaultTeid else Wins(rules, p, c, i)
  {
    i := 0;
    if rules == [] {
    } else {
      var n := |rules| - 1;
      var front := rules[..n];
      var k := PickIsBest(front, defaultTeid, p);
      var c, c' := Pick(front, defaultTeid, p), Pick(rules, defaultTeid, p);
      assert forall j :: 0 <= j < n ==> front[j] == rules[j];
      i := if c' == c then k else n;
    }
  }

  lemma {:induction false} FilterCompiled(teid: nat, fs: seq<PacketFilter>, r: Rule)
    ensures r in CompileFilters(teid, fs) <==> exists f :: f in fs && Uplink(f) && r == RuleOf(teid, f)
  {
    if fs == [] {
    } else {
      var front, last := fs[..|fs| - 1], fs[|fs| - 1];
      FilterCompiled(teid, front, r);
      assert forall f :: f in fs <==> f in front || f == last;
    }
  }

  ghost predicate Emitted(s: Uplinks, es: seq<byte>, b: Bearer, f: PacketFilter, r: Rule) {
    && (exists e :: e in es && e in s.bearers && s.bearers[e] == b)
    && Eligible(s, b, f) && r == RuleOf(b.teid, f)
  }

  /** A rule is emitted exactly for the eligible filters of the bearers visited. */
  lemma {:induction false} CompileExact(s: Uplinks, order: seq<byte>, r: Rule)
    requires forall e :: e in order ==> e in s.bearers
    ensures r in Compile(s, order) <==> exists b, f :: Emitted(s, order, b, f, r)
  {
    if order == [] {
    } else {
      var front, e := order[..|order| - 1], order[|order| - 1];
      CompileExact(s, front, r);
      var b := s.bearers[e];
      assert b in s.bearers.Values;
      assert forall x :: x in order <==> x in front || x == e;
      if b.tft.Some? { FilterCompiled(b.teid, b.tft.value, r); }
      if r in CompileBearer(s, b) {
        var f :| f in b.tft.value && Uplink(f) && r == RuleOf(b.teid, f);
        assert Emitted(s, order, b, f, r);
      }
      if b', f' :| Emitted(s, front, b', f', r) {
        assert Emitted(s, order, b', f', r);
      }
      if b', f' :| Emitted(s, order, b', f', r) && !Emitted(s, front, b', f', r) {
        assert b' == b;
        assert r in CompileBearer(s, b);
      }
    }
  }

  lemma RuleOfCandidate(s: Uplinks, order: seq<byte>, p: Packet, b: Bearer, f: PacketFilter)
    requires IsOrder(s, order) && Candidate(s, p, b, f)
    ensures RuleOf(b.teid, f) in Compile(s, order) && RuleMatches(RuleOf(b.teid, f), p)
  {
    var e :| e in s.bearers && s.bearers[e] == b;
    assert e in order;
    assert Emitted(s, order, b, f, RuleOf(b.teid, f));
    CompileExact(s, order, RuleOf(b.teid, f));
    RuleMeansFilter(b.teid, f, p);
  }

  lemma CandidateOfRule(s: Uplinks, order: seq<byte>, p: Packet, r: Rule) returns (b: Bearer, f: PacketFilter)
    requires IsOrder(s, order) && r in Compile(s, order) && RuleMatches(r, p) && r.precedence < 255
    ensures Candidate(s, p, b, f) && r == RuleOf(b.teid, f)
  {
    CompileExact(s, order, r);
    b, f :| Emitted(s, order, b, f, r);
    RuleMeansFilter(b.teid, f, p);
  }

  /** Compilation preserves meaning: whatever order the bearers are visited in, scanning the
      compiled rules chooses what the filters themselves prescribe. */
  lemma MeaningPreserved(s: Uplinks, order: seq<byte>, p: Packet)
    requires IsOrder(s, order)
    ensures IsChoice(s, p, Pick(Compile(s, order), s.defaultTeid, p).teid)
  {
    var rules := Compile(s, order);
    var c := Pick(rules, s.defaultTeid, p);
    var i := PickIsBest(rules, s.defaultTeid, p);
    forall b, f | Candidate(s, p, b, f)
      ensures c.best <= f.precedence
    {
      RuleOfCandidate(s, order, p, b, f);
    }
    if c.best < 255 {
      var b, f := CandidateOfRule(s, order, p, rules[i]);
      assert Best(s, p, b, f);
    }
  }

  /** No two bearers hold eligible filters of the same precedence. */
  ghost predicate DistinctPrecedences(s: Uplinks) {
    forall b, f, b', f' :: Eligible(s, b, f) && Eligible(s, b', f') && f.precedence == f'.precedence ==> b == b'
  }

  /** With distinct precedences there is one choice, so the order of the iteration is irrelevant. */
  lemma OrderIrrelevant(s: Uplinks, order: seq<byte>, p: Packet, teid: nat)
    requires IsOrder(s, order) && DistinctPrecedences(s)
    ensures IsChoice(s, p, teid) <==> teid == Pick(Compile(s, order), s.defaultTeid, p).teid
  {
    MeaningPreserved(s, order, p);
    var t := Pick(Compile(s, order), s.defaultTeid, p).teid;
    if IsChoice(s, p, teid) {
      if b, f :| Best(s, p, b, f) && teid == b.teid {
        assert exists b', f' :: Best(s, p, b', f') && t == b'.teid;
        var b', f' :| Best(s, p, b', f') && t == b'.teid;
        assert f.precedence == f'.precedence;
      }
    }
  }

  // ------------------------------------------- ties between several bearers

  ghost predicate Known(s: Uplinks, order: seq<byte>) {
    forall e :: e in order ==> e in s.bearers
  }

  lemma {:induction false} CompileSplit(s: Uplinks, e: byte, ys: seq<byte>)
    requires e in s.bearers && Known(s, ys) && Known(s, [e] + ys)
    ensures Compile(s, [e] + ys) == CompileBearer(s, s.bearers[e]) + Compile(s, ys)
  {
    var all := [e] + ys;
    var n := |ys|;
    if n == 0 {
      assert all[..0] == [] && all[0] == e;
      assert Compile(s, all) == [] + CompileBearer(s, s.bearers[e]);
    } else {
      var front, last := ys[..n - 1], ys[n - 1];
      assert all[..n] == [e] + front && all[n] == last;
      CompileSplit(s, e, front);
      var x, y, z := CompileBearer(s, s.bearers[e]), Compile(s, front), CompileBearer(s, s.bearers[last]);
      assert Compile(s, all) == (x + y) + z;
      assert (x + y) + z == x + (y + z);
    }
  }

  lemma {:induction false} ListKeys(ks: set<byte>) returns (order: seq<byte>)
    ensures forall e :: e in order <==> e in ks
    ensures forall i, j :: 0 <= i < j < |order| ==> order[i] != order[j]
    decreases |ks|
  {
    order := [];
    if ks != {} {
      var e :| e in ks;
      var rest := ListKeys(ks - {e});
      order := rest + [e];
    }
  }

  /** Each prescribed choice is the outcome of some order: on a tie of precedence between
      bearers the iteration order decides. */
  lemma EveryChoiceReached(s: Uplinks, p: Packet, teid: nat) returns (order: seq<byte>)
    requires IsChoice(s, p, teid)
    ensures IsOrder(s, order)
    ensures Pick(Compile(s, order), s.defaultTeid, p).teid == teid
  {
    if b, f :| Best(s, p, b, f) && teid == b.teid {
      var e :| e in s.bearers && s.bearers[e] == b;
      var rest := ListKeys(s.bearers.Keys - {e});
      order := [e] + rest;
      FirstBearerWins(s, order, p, e, f);
    } else {
      order := ListKeys(s.bearers.Keys);
      MeaningPreserved(s, order, p);
    }
  }

  lemma OwnRule(s: Uplinks, b: Bearer, f: PacketFilter) returns (k: nat)
    requires Eligible(s, b, f)
    ensures k < |CompileBearer(s, b)| && CompileBearer(s, b)[k] == RuleOf(b.teid, f)
    ensures forall r :: r in CompileBearer(s, b) ==> r.teid == b.teid
  {
    FilterCompiled(b.teid, b.tft.value, RuleOf(b.teid, f));
    k :| 0 <= k < |CompileBearer(s, b)| && CompileBearer(s, b)[k] == RuleOf(b.teid, f);
    forall r | r in CompileBearer(s, b)
      ensures r.teid == b.teid
    {
      FilterCompiled(b.teid, b.tft.value, r);
    }
  }

  lemma FirstBearerWins(s: Uplinks, order: seq<byte>, p: Packet, e: byte, f: PacketFilter)
    requires IsOrder(s, order) && order != [] && order[0] == e
    requires e in s.bearers && Best(s, p, s.bearers[e], f)
    ensures Pick(Compile(s, order), s.defaultTeid, p).teid == s.bearers[e].teid
  {
    var b := s.bearers[e];
    var rules := Compile(s, order);
    RuleOfCandidate(s, order, p, b, f);
    var i := PickIsBest(rules, s.defaultTeid, p);
    var b', f' := CandidateOfRule(s, order, p, rules[i]);
    assert rules[i].precedence == f.precedence;
    assert order == [e] + order[1..];
    CompileSplit(s, e, order[1..]);
    var own := CompileBearer(s, b);
    var k := OwnRule(s, b, f);
    assert rules[k] == own[k];
    assert i <= k;
    assert rules[i] == own[i];
  }

  // --------------------------------------------------- what falls off the end

  function Truncate(rules: seq<Rule>): seq<Rule> {
    if |rules| > MAX_RULES then rules[..MAX_RULES] else rules
  }

  /** The rule matches and its precedence can win. */
  predicate Contends(r: Rule, p: Packet) {
    RuleMatches(r, p) && r.precedence < 255
  }

  /** `i` is the first contending rule of least precedence. */
  ghost predicate FirstBest(rules: seq<Rule>, p: Packet, i: nat) {
    && i < |rules| && Contends(rules[i], p)
    && forall j :: 0 <= j < |rules| && Contends(rules[j], p) ==>
         rules[i].precedence <= rules[j].precedence && (j < i ==> rules[i].precedence < rules[j].precedence)
  }

  /** The list prescribes this TEID. */
  ghost predicate Prescribes(rules: seq<Rule>, defaultTeid: nat, p: Packet, teid: nat) {
    || (exists i: nat :: FirstBest(rules, p, i) && rules[i].teid == teid)
    || (teid == defaultTeid && forall i :: 0 <= i < |rules| ==> !Contends(rules[i], p))
  }

  /** The scan picks the one TEID that the list prescribes. */
  lemma PickPrescribed(rules: seq<Rule>, defaultTeid: nat, p: Packet, teid: nat)
    ensures Prescribes(rules, defaultTeid, p, teid) <==> teid == Pick(rules, defaultTeid, p).teid
  {
    var i := PickIsBest(rules, defaultTeid, p);
    var c := Pick(rules, defaultTeid, p);
    if c.best < 255 {
      assert FirstBest(rules, p, i);
      forall k: nat | FirstBest(rules, p, k) ensures k == i {
        assert Contends(rules[i], p) && Contends(rules[k], p);
      }
    }
  }

  lemma NoneContend(rules: seq<Rule>, p: Packet)
    requires forall i: nat :: !FirstBest(rules, p, i)
    ensures forall j :: 0 <= j < |rules| ==> !Contends(rules[j], p)
  {
    var i := PickIsBest(rules, 0, p);
    assert Pick(rules, 0, p).best < 255 ==> FirstBest(rules, p, i);
  }

  /** A table of 32 rules sends a packet on the same bearer as the whole list if and only if
      the list's first best rule, should it be one of the dropped rules, names the TEID that
      the kept rules prescribe. */
  lemma TruncationExactIff(rules: seq<Rule>, defaultTeid: nat, p: Packet)
    ensures Pick(Truncate(rules), defaultTeid, p).teid == Pick(rules, defaultTeid, p).teid
            <==> forall i: nat :: 32 <= i < |rules| && FirstBest(rules, p, i)
                   ==> Prescribes(Truncate(rules), defaultTeid, p, rules[i].teid)
  {
    var kept := Truncate(rules);
    PickPrescribed(rules, defaultTeid, p, Pick(rules, defaultTeid, p).teid);
    PickPrescribed(kept, defaultTeid, p, Pick(rules, defaultTeid, p).teid);
    forall i: nat | FirstBest(rules, p, i) ensures Pick(rules, defaultTeid, p).teid == rules[i].teid {
      PickPrescribed(rules, defaultTeid, p, rules[i].teid);
    }
    assert forall j :: 0 <= j < |kept| ==> kept[j] == rules[j];
    if i: nat :| FirstBest(rules, p, i) {
      if i < |kept| {
        assert FirstBest(kept, p, i);
      }
    } else {
      NoneContend(rules, p);
    }
  }

  /** A bearer lost to truncation: 32 rules of precedence 5 and a 33rd of precedence 4. */
  lemma TruncationLoses(p: Packet) returns (rules: seq<Rule>)
    ensures |rules| == 33 && Pick(rules, 0, p).teid == 8 && Pick(Truncate(rules), 0, p).teid == 7
  {
    var zero := Ip4(0, 0, 0, 0);
    var r := Rule(7, 5, 0, 0, zero, zero, Ports(0, 0), Ports(0, 0));
    var better := r.(teid := 8, precedence := 4);
    rules := seq(MAX_RULES, _ => r) + [better];
    assert RuleMatches(r, p) && RuleMatches(better, p);
    assert forall i :: 0 <= i < MAX_RULES ==> rules[i] == r;
    assert FirstBest(rules, p, MAX_RULES);
    PickPrescribed(rules, 0, p, 8);
    var kept := Truncate(rules);
    assert FirstBest(kept, p, 0);
    PickPrescribed(kept, 0, p, 7);
  }

  /** Two bearers that tie: either TEID is prescribed. */
  lemma TieIsPrescribed(p: Packet) returns (s: Uplinks)
    ensures IsChoice(s, p, 1) && IsChoice(s, p, 2)
  {
    var f := PacketFilter(0, 5, 3, None, None, None, None, None);
    var b1, b2 := Bearer(6, 1, Some([f])), Bearer(7, 2, Some([f]));
    s := Uplinks(5, 0, map[6 := b1, 7 := b2]);
    assert s.bearers[6] == b1 && s.bearers[7] == b2;
    assert b1 in s.bearers.Values && b2 in s.bearers.Values;
    assert Matches(f, p) && f in [f];
    forall b, g | Candidate(s, p, b, g) ensures g == f {
      assert b == b1 || b == b2;
    }
    assert Best(s, p, b1, f) && Best(s, p, b2, f);
  }

  /** A filter of precedence 255 decides nothing: with it or without it, every packet gets the
      same bearer. */
  lemma LastPrecedenceIsDead(xs: seq<Rule>, r: Rule, ys: seq<Rule>, defaultTeid: nat, p: Packet)
    requires r.precedence == 255
    ensures Pick(xs + [r] + ys, defaultTeid, p) == Pick(xs + ys, defaultTeid, p)
    decreases |ys|
  {
    var all := xs + [r] + ys;
    if ys == [] {
      assert all[..|all| - 1] == xs && xs + ys == xs;
      var i := PickIsBest(xs, defaultTeid, p);
    } else {
      var front := ys[..|ys| - 1];
      assert all[..|all| - 1] == xs + [r] + front && (xs + ys)[..|xs + ys| - 1] == xs + front;
      LastPrecedenceIsDead(xs, r, front, defaultTeid, p);
    }
  }
}
