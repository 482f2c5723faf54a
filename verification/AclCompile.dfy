/**
 Compiling a configuration into rule vectors, and the meaning of the result: the first enabled chain
 with a match decides, by its highest-priority matching rule, ties going to the rule listed first.
 */
module AclCompile {
  import opened Prelude
  import opened Net
  import opened Decimal
  import opened Bits
  import opened AclModel

  /** A rule as configured. An address range is the outcome of parsing its text. */
  datatype Rule = Rule(
    priority: u32,
    enabled: bool,
    protocol: Protocol,
    ports: seq<Text>,
    sourceIps: seq<Option<Cidr>>,
    destinationIps: seq<Option<Cidr>>,
    sourcePorts: seq<Text>,
    action: Action,
    rateLimit: u32,
    burstLimit: u32,
    stateful: bool,
    sourceGroups: seq<string>,
    destinationGroups: seq<string>)

  datatype Chain = Chain(chainType: ChainType, enabled: bool, rules: seq<Rule>, defaultAction: Action)

  /** The chains of the configuration, if it has a version-one section. */
  datatype Acl = Acl(v1: Option<seq<Chain>>) {
    function Chains(): seq<Chain> {
      v1.GetOr([])
    }
  }

  // ----- Port text -----

  predicate IsWhitespace(c: nat) {
    9 <= c <= 13 || c == 32 || c == 0x85 || c == 0xA0 || c == 0x1680 || 0x2000 <= c <= 0x200A ||
    c == 0x2028 || c == 0x2029 || c == 0x202F || c == 0x205F || c == 0x3000
  }

  function Trim(s: Text): Text
    decreases |s|
  {
    if s != [] && IsWhitespace(s[0]) then Trim(s[1..])
    else if s != [] && IsWhitespace(s[|s| - 1]) then Trim(s[..|s| - 1])
    else s
  }

  /** The first position of `c`, or the length. */
  function IndexOf(s: Text, c: nat): (i: nat)
    ensures i <= |s| && (i < |s| ==> s[i] == c)
    ensures forall j :: 0 <= j < i ==> s[j] != c
  {
    if s == [] || s[0] == c then 0 else IndexOf(s[1..], c) + 1
  }

  function ParsePort(s: Text): Option<u16> {
    var n := ParseUnsigned(s, 0x1_0000);
    if n.None? then None else Some(n.value)
  }

  function ParsePortRange(s: Text): Option<PortRange> {
    var dash := IndexOf(s, MINUS);
    if dash < |s| then
      var first, last := ParsePort(Trim(s[..dash])), ParsePort(Trim(s[dash + 1..]));
      if first.None? || last.None? then None else Some(PortRange(first.value, last.value))
    else
      var port := ParsePort(Trim(s));
      if port.None? then None else Some(PortRange(port.value, port.value))
  }

  function ParsePortRanges(texts: seq<Text>): seq<PortRange> {
    if texts == [] then []
    else
      var r := ParsePortRange(texts[0]);
      (if r.Some? then [r.value] else []) + ParsePortRanges(texts[1..])
  }

  function Present(ranges: seq<Option<Cidr>>): seq<Cidr> {
    if ranges == [] then []
    else (if ranges[0].Some? then [ranges[0].value] else []) + Present(ranges[1..])
  }

  function Elements(s: seq<string>): set<string> {
    set x | x in s
  }

  function Convert(r: Rule): FastLookupRule {
    FastLookupRule(r.priority, r.protocol, Present(r.sourceIps), Present(r.destinationIps),
                   ParsePortRanges(r.sourcePorts), ParsePortRanges(r.ports),
                   Elements(r.sourceGroups), Elements(r.destinationGroups),
                   r.action, r.stateful, r.rateLimit, r.burstLimit)
  }

  // ----- Building the vectors -----

  function EnabledRules(rules: seq<Rule>): seq<FastLookupRule> {
    if rules == [] then []
    else (if rules[0].enabled then [Convert(rules[0])] else []) + EnabledRules(rules[1..])
  }

  /** Puts a rule before the first one that does not outrank it. */
  function InsertByPriority(r: FastLookupRule, sorted: seq<FastLookupRule>): seq<FastLookupRule> {
    if sorted == [] || sorted[0].priority <= r.priority then [r] + sorted
    else [sorted[0]] + InsertByPriority(r, sorted[1..])
  }

  /** The stable sort by descending priority. */
  function SortByPriority(rules: seq<FastLookupRule>): seq<FastLookupRule> {
    if rules == [] then [] else InsertByPriority(rules[0], SortByPriority(rules[1..]))
  }

  function ChainRules(chain: Chain, kind: ChainType): seq<FastLookupRule> {
    if chain.enabled && chain.chainType == kind then SortByPriority(EnabledRules(chain.rules)) else []
  }

  function Vector(chains: seq<Chain>, kind: ChainType): seq<FastLookupRule> {
    if chains == [] then [] else Vector(chains[..|chains| - 1], kind) + ChainRules(chains[|chains| - 1], kind)
  }

  /** Enabled or not, the first chain of a type supplies the default action. */
  function DefaultOf(chains: seq<Chain>, kind: ChainType): Action {
    if chains == [] then Allow
    else if chains[0].chainType == kind then chains[0].defaultAction
    else DefaultOf(chains[1..], kind)
  }

  function Compile(acl: Acl): Ruleset {
    var chains := acl.Chains();
    Ruleset(Vector(chains, Inbound), Vector(chains, Outbound), Vector(chains, Forward),
            DefaultOf(chains, Inbound), DefaultOf(chains, Outbound), DefaultOf(chains, Forward))
  }

  lemma VectorOfSnoc(chains: seq<Chain>, last: Chain)
    ensures forall kind :: Vector(chains + [last], kind) == Vector(chains, kind) + ChainRules(last, kind)
  {
    assert (chains + [last])[..|chains|] == chains;
  }

  method BuildRules(acl: Acl) returns (inbound: seq<FastLookupRule>, outbound: seq<FastLookupRule>, forward: seq<FastLookupRule>)
    ensures inbound == Compile(acl).inbound
    ensures outbound == Compile(acl).outbound
    ensures forward == Compile(acl).forward
  {
    inbound, outbound, forward := [], [], [];
    var chains := acl.Chains();
    var c := 0;
    while c < |chains|
      invariant 0 <= c <= |chains|
      invariant inbound == Vector(chains[..c], Inbound)
      invariant outbound == Vector(chains[..c], Outbound)
      invariant forward == Vector(chains[..c], Forward)
    {
      var chain := chains[c];
      VectorOfSnoc(chains[..c], chain);
      assert chains[..c + 1] == chains[..c] + [chain];
      c := c + 1;
      if !chain.enabled {
        continue;
      }
      var rules := SortByPriority(EnabledRules(chain.rules));
      match chain.chainType {
        case Inbound => inbound := inbound + rules;
        case Outbound => outbound := outbound + rules;
        case Forward => forward := forward + rules;
        case UnspecifiedChain =>
      }
    }
    assert chains[..c] == chains;
  }

  // ----- What a configured rule means -----

  /** The address is of the network's family and shares the leading bits its length names. */
  predicate Inside(net: Cidr, ip: IpAddr) {
    && net.network.V4? == ip.V4?
    && var n := if net.length <= 8 * |ip.octets| then net.length else 8 * |ip.octets|;
       BitsOf(net.network.octets)[..n] == BitsOf(ip.octets)[..n]
  }

  /** No network of the list could be read, or the address is inside one that could. */
  predicate NetworkHolds(ranges: seq<Option<Cidr>>, ip: IpAddr) {
    || (forall i | 0 <= i < |ranges| :: ranges[i].None?)
    || exists i | 0 <= i < |ranges| :: ranges[i].Some? && Inside(ranges[i].value, ip)
  }

  /** The packet has no port, no text of the list could be read, or one that could covers the port. */
  predicate PortHolds(texts: seq<Text>, port: Option<u16>) {
    || port.None?
    || (forall i | 0 <= i < |texts| :: ParsePortRange(texts[i]).None?)
    || exists i | 0 <= i < |texts| ::
         var range := ParsePortRange(texts[i]); range.Some? && range.value.first <= port.value <= range.value.last
  }

  /** The list is empty or the packet carries one of its groups. */
  predicate GroupHolds(wanted: seq<string>, groups: seq<string>) {
    wanted == [] || exists i | 0 <= i < |groups| :: groups[i] in wanted
  }

  /** An enabled rule applies to the packets that meet all its conditions. */
  predicate Applies(r: Rule, p: PacketInfo) {
    && r.enabled
    && (r.protocol == Any || r.protocol == p.protocol)
    && NetworkHolds(r.sourceIps, p.srcIp)
    && NetworkHolds(r.destinationIps, p.dstIp)
    && PortHolds(r.sourcePorts, p.srcPort)
    && PortHolds(r.ports, p.dstPort)
    && GroupHolds(r.sourceGroups, p.srcGroups)
    && GroupHolds(r.destinationGroups, p.dstGroups)
  }

  /** The shifted comparison of addresses is a comparison of leading bits. */
  lemma ContainsIsInside(net: Cidr, ip: IpAddr)
    ensures net.Contains(ip) <==> Inside(net, ip)
  {
    if net.network.V4? == ip.V4? {
      var width := 8 * |ip.octets|;
      var length := if net.length <= width then net.length else width;
      LeadingBits(net.network.octets, ip.octets, width - length, length);
    }
  }

  lemma {:induction false} PresentAt(ranges: seq<Option<Cidr>>)
    ensures forall net :: net in Present(ranges) <==> Some(net) in ranges
  {
    if ranges != [] {
      PresentAt(ranges[1..]);
      assert ranges == [ranges[0]] + ranges[1..];
    }
  }

  lemma NetworkIsMatched(ranges: seq<Option<Cidr>>, ip: IpAddr)
    ensures IpMatches(Present(ranges), ip) <==> NetworkHolds(ranges, ip)
  {
    PresentAt(ranges);
    var nets := Present(ranges);
    if i :| 0 <= i < |ranges| && ranges[i].Some? && Inside(ranges[i].value, ip) {
      ContainsIsInside(ranges[i].value, ip);
      assert ranges[i].value in nets;
    }
    if i :| 0 <= i < |nets| && nets[i].Contains(ip) {
      ContainsIsInside(nets[i], ip);
      assert Some(nets[i]) in ranges;
    }
    assert nets != [] ==> nets[0] in nets;
    assert forall i | 0 <= i < |ranges| :: ranges[i].Some? ==> ranges[i].value in nets;
  }

  lemma {:induction false} ParsedRanges(texts: seq<Text>)
    ensures forall r :: r in ParsePortRanges(texts) <==> exists i :: 0 <= i < |texts| && ParsePortRange(texts[i]) == Some(r)
  {
    if texts != [] {
      var rest := texts[1..];
      ParsedRanges(rest);
      assert forall i :: 0 <= i < |rest| ==> rest[i] == texts[i + 1];
      assert forall i :: 0 < i < |texts| ==> texts[i] == rest[i - 1];
    }
  }

  lemma PortIsMatched(texts: seq<Text>, port: Option<u16>)
    ensures PortMatches(ParsePortRanges(texts), port) <==> PortHolds(texts, port)
  {
    ParsedRanges(texts);
    var ranges := ParsePortRanges(texts);
    assert ranges != [] ==> ranges[0] in ranges;
    assert forall i | 0 <= i < |texts| :: ParsePortRange(texts[i]).Some? ==> ParsePortRange(texts[i]).value in ranges;
    assert forall i | 0 <= i < |ranges| :: ranges[i] in ranges;
  }

  lemma GroupIsMatched(wanted: seq<string>, groups: seq<string>)
    ensures GroupMatches(Elements(wanted), groups) <==> GroupHolds(wanted, groups)
  {
    assert wanted != [] ==> wanted[0] in Elements(wanted);
  }

  /** Matching the compiled form of a rule is meeting the conditions as configured. */
  lemma MatchIsMeaning(r: Rule, p: PacketInfo)
    requires r.enabled
    ensures RuleMatches(Convert(r), p) <==> Applies(r, p)
  {
    NetworkIsMatched(r.sourceIps, p.srcIp);
    NetworkIsMatched(r.destinationIps, p.dstIp);
    PortIsMatched(r.sourcePorts, p.srcPort);
    PortIsMatched(r.ports, p.dstPort);
    GroupIsMatched(r.sourceGroups, p.srcGroups);
    GroupIsMatched(r.destinationGroups, p.dstGroups);
  }

  // ----- What the vectors mean -----

  /** Rule `i` applies and no applicable rule outranks it; among equals it is listed first. */
  ghost predicate Best(rules: seq<Rule>, p: PacketInfo, i: int) {
    && 0 <= i < |rules| && Applies(rules[i], p)
    && forall j :: 0 <= j < |rules| && Applies(rules[j], p) ==>
         rules[j].priority < rules[i].priority || (rules[j].priority == rules[i].priority && i <= j)
  }

  ghost predicate ChainApplies(chain: Chain, kind: ChainType, p: PacketInfo) {
    chain.enabled && chain.chainType == kind && exists i :: 0 <= i < |chain.rules| && Applies(chain.rules[i], p)
  }

  /** Rule `i` of chain `c` decides the packet. */
  ghost predicate Wins(chains: seq<Chain>, kind: ChainType, p: PacketInfo, c: int, i: int) {
    && 0 <= c < |chains| && chains[c].enabled && chains[c].chainType == kind
    && Best(chains[c].rules, p, i)
    && forall b :: 0 <= b < c ==> !ChainApplies(chains[b], kind, p)
  }

  ghost predicate Unmatched(chains: seq<Chain>, kind: ChainType, p: PacketInfo) {
    forall c :: 0 <= c < |chains| ==> !ChainApplies(chains[c], kind, p)
  }

  function First(rules: seq<FastLookupRule>, p: PacketInfo): Option<FastLookupRule> {
    var i := ScanFrom(rules, p, 0);
    if i < |rules| then Some(rules[i]) else None
  }

  lemma FirstOfConcat(a: seq<FastLookupRule>, b: seq<FastLookupRule>, p: PacketInfo)
    ensures First(a + b, p) == if First(a, p).Some? then First(a, p) else First(b, p)
  {
    var i, j, k := ScanFrom(a + b, p, 0), ScanFrom(a, p, 0), ScanFrom(b, p, 0);
    assert forall m :: 0 <= m < |a| ==> (a + b)[m] == a[m];
    assert forall m :: 0 <= m < |b| ==> (a + b)[|a| + m] == b[m];
    if j < |a| {
      assert i == j by { assert RuleMatches((a + b)[j], p); }
    } else {
      assert i >= |a|;
      assert forall m :: |a| <= m < |a| + k ==> !RuleMatches((a + b)[m], p) by {
        assert forall m :: |a| <= m < |a| + k ==> (a + b)[m] == b[m - |a|];
      }
      assert i == |a| + k;
    }
  }

  lemma FirstOfCons(r: FastLookupRule, rest: seq<FastLookupRule>, p: PacketInfo)
    ensures First([r] + rest, p) == if RuleMatches(r, p) then Some(r) else First(rest, p)
  {
    FirstOfConcat([r], rest, p);
  }

  predicate Descending(rules: seq<FastLookupRule>) {
    forall i, j :: 0 <= i <= j < |rules| ==> rules[j].priority <= rules[i].priority
  }

  lemma {:induction false} InsertIsPermutation(r: FastLookupRule, sorted: seq<FastLookupRule>)
    ensures multiset(InsertByPriority(r, sorted)) == multiset([r]) + multiset(sorted)
  {
    if sorted != [] && sorted[0].priority > r.priority {
      InsertIsPermutation(r, sorted[1..]);
      assert sorted == [sorted[0]] + sorted[1..];
    }
  }

  lemma DescendingOfCons(first: FastLookupRule, tail: seq<FastLookupRule>)
    requires Descending(tail) && forall i :: 0 <= i < |tail| ==> tail[i].priority <= first.priority
    ensures Descending([first] + tail)
  {
  }

  lemma {:induction false} InsertKeepsDescending(r: FastLookupRule, sorted: seq<FastLookupRule>)
    requires Descending(sorted)
    ensures Descending(InsertByPriority(r, sorted))
  {
    if sorted == [] || sorted[0].priority <= r.priority {
      DescendingOfCons(r, sorted);
    } else {
      var tail := InsertByPriority(r, sorted[1..]);
      InsertKeepsDescending(r, sorted[1..]);
      InsertIsPermutation(r, sorted[1..]);
      forall i | 0 <= i < |tail|
        ensures tail[i].priority <= sorted[0].priority
      {
        assert tail[i] in multiset(tail);
      }
      DescendingOfCons(sorted[0], tail);
    }
  }

  /** The compiled chain is a permutation of its enabled rules in descending priority. */
  lemma {:induction false} SortIsDescending(rules: seq<FastLookupRule>)
    ensures Descending(SortByPriority(rules))
    ensures multiset(SortByPriority(rules)) == multiset(rules)
  {
    if rules != [] {
      SortIsDescending(rules[1..]);
      InsertKeepsDescending(rules[0], SortByPriority(rules[1..]));
      InsertIsPermutation(rules[0], SortByPriority(rules[1..]));
      assert rules == [rules[0]] + rules[1..];
    }
  }

  /** The inserted rule becomes the first match unless an existing match outranks it. */
  lemma {:induction false} FirstOfInsert(r: FastLookupRule, sorted: seq<FastLookupRule>, p: PacketInfo)
    requires Descending(sorted)
    ensures First(InsertByPriority(r, sorted), p) ==
            if RuleMatches(r, p) && (First(sorted, p).None? || First(sorted, p).value.priority <= r.priority) then Some(r)
            else First(sorted, p)
  {
    if sorted == [] || sorted[0].priority <= r.priority {
      FirstOfCons(r, sorted, p);
    } else {
      FirstOfInsert(r, sorted[1..], p);
      assert sorted == [sorted[0]] + sorted[1..];
      FirstOfCons(sorted[0], sorted[1..], p);
      FirstOfCons(sorted[0], InsertByPriority(r, sorted[1..]), p);
    }
  }

  lemma BestOfTail(rules: seq<Rule>, p: PacketInfo, i: int)
    requires rules != [] && Best(rules, p, i) && i > 0
    ensures Best(rules[1..], p, i - 1)
  {
    forall j | 0 <= j < |rules[1..]| && Applies(rules[1..][j], p)
      ensures rules[1..][j].priority < rules[1..][i - 1].priority ||
              (rules[1..][j].priority == rules[1..][i - 1].priority && i - 1 <= j)
    {
      assert Applies(rules[j + 1], p);
    }
  }

  lemma BestExists(rules: seq<Rule>, p: PacketInfo) returns (best: Option<nat>)
    ensures best.None? ==> forall i :: 0 <= i < |rules| ==> !Applies(rules[i], p)
    ensures best.Some? ==> Best(rules, p, best.value)
  {
    best := None;
    var k := |rules|;
    while k > 0
      invariant 0 <= k <= |rules|
      invariant best.None? ==> forall i :: k <= i < |rules| ==> !Applies(rules[i], p)
      invariant best.Some? ==>
                  && k <= best.value < |rules| && Applies(rules[best.value], p)
                  && forall j :: k <= j < |rules| && Applies(rules[j], p) ==>
                       rules[j].priority < rules[best.value].priority ||
                       (rules[j].priority == rules[best.value].priority && best.value <= j)
    {
      k := k - 1;
      if Applies(rules[k], p) && (best.None? || rules[best.value].priority <= rules[k].priority) {
        best := Some(k);
      }
    }
  }

  lemma EnabledOfCons(rules: seq<Rule>, p: PacketInfo)
    requires rules != []
    ensures First(SortByPriority(EnabledRules(rules)), p) ==
            var tail := First(SortByPriority(EnabledRules(rules[1..])), p);
            if Applies(rules[0], p) && (tail.None? || tail.value.priority <= rules[0].priority) then Some(Convert(rules[0]))
            else tail
  {
    var r, rest := rules[0], EnabledRules(rules[1..]);
    if r.enabled {
      assert EnabledRules(rules) == [Convert(r)] + rest;
      assert SortByPriority(EnabledRules(rules)) == InsertByPriority(Convert(r), SortByPriority(rest));
      SortIsDescending(rest);
      FirstOfInsert(Convert(r), SortByPriority(rest), p);
      MatchIsMeaning(r, p);
    } else {
      assert EnabledRules(rules) == rest;
    }
  }

  lemma {:induction false} ChainFindsNothing(rules: seq<Rule>, p: PacketInfo)
    requires forall i :: 0 <= i < |rules| ==> !Applies(rules[i], p)
    ensures First(SortByPriority(EnabledRules(rules)), p).None?
  {
    if rules != [] {
      ChainFindsNothing(rules[1..], p);
      EnabledOfCons(rules, p);
    }
  }

  /** Within a chain the sorted scan finds the best rule. */
  lemma {:induction false} ChainFindsBest(rules: seq<Rule>, p: PacketInfo, i: int)
    requires Best(rules, p, i)
    ensures First(SortByPriority(EnabledRules(rules)), p) == Some(Convert(rules[i]))
  {
    EnabledOfCons(rules, p);
    if i > 0 {
      BestOfTail(rules, p, i);
      ChainFindsBest(rules[1..], p, i - 1);
    } else {
      var rest := rules[1..];
      var best := BestExists(rest, p);
      if best.Some? {
        assert Applies(rules[best.value + 1], p);
        ChainFindsBest(rest, p, best.value);
      } else {
        ChainFindsNothing(rest, p);
      }
    }
  }

  lemma {:induction false} VectorFindsNothing(chains: seq<Chain>, kind: ChainType, p: PacketInfo)
    requires Unmatched(chains, kind, p)
    ensures First(Vector(chains, kind), p).None?
  {
    if chains != [] {
      var n := |chains| - 1;
      VectorFindsNothing(chains[..n], kind, p);
      FirstOfConcat(Vector(chains[..n], kind), ChainRules(chains[n], kind), p);
      assert !ChainApplies(chains[n], kind, p);
      if chains[n].enabled && chains[n].chainType == kind {
        ChainFindsNothing(chains[n].rules, p);
      }
    }
  }

  lemma {:induction false} VectorFindsWinner(chains: seq<Chain>, kind: ChainType, p: PacketInfo, c: int, i: int)
    requires Wins(chains, kind, p, c, i)
    ensures First(Vector(chains, kind), p) == Some(Convert(chains[c].rules[i]))
  {
    var n := |chains| - 1;
    FirstOfConcat(Vector(chains[..n], kind), ChainRules(chains[n], kind), p);
    WinnerInPrefix(chains, kind, p, c, i, n);
    if c < n {
      VectorFindsWinner(chains[..n], kind, p, c, i);
    } else {
      VectorFindsNothing(chains[..n], kind, p);
      ChainFindsBest(chains[n].rules, p, i);
    }
  }

  lemma WinnerInPrefix(chains: seq<Chain>, kind: ChainType, p: PacketInfo, c: int, i: int, n: nat)
    requires Wins(chains, kind, p, c, i) && c <= n <= |chains|
    ensures c < n ==> Wins(chains[..n], kind, p, c, i) && chains[..n][c] == chains[c]
    ensures c == n ==> Unmatched(chains[..n], kind, p)
  {
    assert forall b :: 0 <= b < n ==> chains[..n][b] == chains[b];
  }

  /** At most one rule wins. */
  lemma WinnerIsUnique(chains: seq<Chain>, kind: ChainType, p: PacketInfo, c: int, i: int, d: int, j: int)
    requires Wins(chains, kind, p, c, i) && Wins(chains, kind, p, d, j)
    ensures c == d && i == j
  {
    assert ChainApplies(chains[c], kind, p) && ChainApplies(chains[d], kind, p);
  }

  /** Some rule wins unless no chain applies. */
  lemma WinnerExists(chains: seq<Chain>, kind: ChainType, p: PacketInfo) returns (c: nat, i: nat)
    requires !Unmatched(chains, kind, p)
    ensures Wins(chains, kind, p, c, i)
  {
    c := 0;
    while !ChainApplies(chains[c], kind, p)
      invariant 0 <= c < |chains|
      invariant forall b :: 0 <= b < c ==> !ChainApplies(chains[b], kind, p)
      invariant exists d :: c <= d < |chains| && ChainApplies(chains[d], kind, p)
      decreases |chains| - c
    {
      c := c + 1;
    }
    var best := BestExists(chains[c].rules, p);
    i := best.value;
  }

  /** The first match of the compiled chain is the winning rule. */
  lemma ScanFindsWinner(acl: Acl, p: PacketInfo, kind: ChainType, c: int, i: int)
    requires kind != UnspecifiedChain && Wins(acl.Chains(), kind, p, c, i)
    ensures var rules := Compile(acl).Rules(kind);
            var j := ScanFrom(rules, p, 0);
            j < |rules| && rules[j] == Convert(acl.Chains()[c].rules[i])
  {
    VectorFindsWinner(acl.Chains(), kind, p, c, i);
  }

  /** A winning rule without a rate limit decides with its own action and is named in the result. */
  lemma WinnerVerdict(acl: Acl, t: Tables, p: PacketInfo, kind: ChainType, now: nat, wall: u64, c: int, i: int)
    requires kind != UnspecifiedChain && Wins(acl.Chains(), kind, p, c, i) && acl.Chains()[c].rules[i].rateLimit == 0
    ensures var r := Decide(Compile(acl), t, p, kind, now, wall).result;
            var rule := acl.Chains()[c].rules[i];
            && r.action == rule.action
            && r == if rule.stateful && rule.action == Allow
                    then AclResult(Allow, Stateful(rule.priority), StatefulMatch(p.srcIp, p.dstIp))
                    else AclResult(rule.action, Priority(rule.priority), RuleMatch(p.srcIp, p.dstIp, rule.action))
  {
    ScanFindsWinner(acl, p, kind, c, i);
  }

  /** What the bucket of a limited rule can still grant; a bucket not yet made holds the whole burst. */
  function TokensFor(limiters: Limiters, kind: ChainType, rule: Rule): nat {
    var key := RateLimitKey(kind, rule.priority);
    if key !in limiters then rule.burstLimit
    else if limiters[key].bucket.capacity == 0 then 0
    else limiters[key].bucket.available
  }

  /** A winning rule with a rate limit decides likewise while it has tokens, and drops without them. */
  lemma LimitedWinnerVerdict(acl: Acl, t: Tables, p: PacketInfo, kind: ChainType, now: nat, wall: u64, c: int, i: int)
    requires kind != UnspecifiedChain && Wins(acl.Chains(), kind, p, c, i) && acl.Chains()[c].rules[i].rateLimit > 0
    ensures var r := Decide(Compile(acl), t, p, kind, now, wall).result;
            var rule := acl.Chains()[c].rules[i];
            && r.action == (if TokensFor(t.limiters, kind, rule) > 0 then rule.action else Drop)
            && (r.logContext == RateLimitDrop <==> TokensFor(t.limiters, kind, rule) == 0)
            && RulePriority(r.matchedRule) == Some(rule.priority)
  {
    ScanFindsWinner(acl, p, kind, c, i);
  }

  /** Chain `c`, enabled or not, is the first of its type. */
  predicate FirstOfType(chains: seq<Chain>, kind: ChainType, c: int) {
    0 <= c < |chains| && chains[c].chainType == kind && forall b :: 0 <= b < c ==> chains[b].chainType != kind
  }

  /** The default action of the first chain of the type, and `Allow` if the type has no chain. */
  predicate IsDefault(chains: seq<Chain>, kind: ChainType, action: Action) {
    || (exists c | 0 <= c < |chains| :: FirstOfType(chains, kind, c) && action == chains[c].defaultAction)
    || (action == Allow && forall c | 0 <= c < |chains| :: chains[c].chainType != kind)
  }

  lemma {:induction false} DefaultIsFirst(chains: seq<Chain>, kind: ChainType)
    ensures IsDefault(chains, kind, DefaultOf(chains, kind))
  {
    if chains != [] {
      var rest := chains[1..];
      DefaultIsFirst(rest, kind);
      if chains[0].chainType == kind {
        assert FirstOfType(chains, kind, 0);
      } else if c :| 0 <= c < |rest| && FirstOfType(rest, kind, c) && DefaultOf(rest, kind) == rest[c].defaultAction {
        assert forall b :: 0 < b < c + 1 ==> chains[b] == rest[b - 1];
        assert FirstOfType(chains, kind, c + 1);
      } else {
        assert forall b :: 0 < b < |chains| ==> chains[b] == rest[b - 1];
      }
    }
  }

  /** The default action is determined. */
  lemma DefaultIsUnique(chains: seq<Chain>, kind: ChainType, action: Action)
    requires IsDefault(chains, kind, action)
    ensures forall c :: FirstOfType(chains, kind, c) ==> action == chains[c].defaultAction
    ensures (forall c :: 0 <= c < |chains| ==> chains[c].chainType != kind) ==> action == Allow
  {
    if d :| 0 <= d < |chains| && FirstOfType(chains, kind, d) && action == chains[d].defaultAction {
      forall c | FirstOfType(chains, kind, c)
        ensures c == d
      {
      }
    }
  }

  /** Unmatched packets get the first chain's default action, enabled or not, and `Allow` without a chain. */
  lemma DefaultVerdict(acl: Acl, t: Tables, p: PacketInfo, kind: ChainType, now: nat, wall: u64)
    requires kind != UnspecifiedChain && Unmatched(acl.Chains(), kind, p)
    ensures var r := Decide(Compile(acl), t, p, kind, now, wall).result;
            var chains := acl.Chains();
            && r.matchedRule == Default
            && r.logContext == (if r.action == Drop then DefaultDrop else DefaultAllow)
            && (forall c :: FirstOfType(chains, kind, c) ==> r.action == chains[c].defaultAction)
            && ((forall c :: 0 <= c < |chains| ==> chains[c].chainType != kind) ==> r.action == Allow)
  {
    VectorFindsNothing(acl.Chains(), kind, p);
    DefaultIsFirst(acl.Chains(), kind);
    DefaultIsUnique(acl.Chains(), kind, DefaultOf(acl.Chains(), kind));
  }

  /** The winning rule took its action, or dropped the packet because it has a rate limit and no token. */
  predicate DecidedBy(r: AclResult, rule: Rule, tokens: nat) {
    && RulePriority(r.matchedRule) == Some(rule.priority)
    && r.action == if rule.rateLimit > 0 && tokens == 0 then Drop else rule.action
  }

  /**
   The verdict on any packet of any supported chain type is that of the winning rule, subject to the rule's rate
   limit. When nothing applies it is the default action of the first chain of the type, enabled or not,
   and `Allow` if the configuration has no chain of the type.
   */
  lemma VerdictIsDeclarative(acl: Acl, t: Tables, p: PacketInfo, kind: ChainType, now: nat, wall: u64)
    requires kind != UnspecifiedChain
    ensures var r := Decide(Compile(acl), t, p, kind, now, wall).result;
            if exists c, i :: Wins(acl.Chains(), kind, p, c, i) then
              exists c, i :: Wins(acl.Chains(), kind, p, c, i) &&
                             var rule := acl.Chains()[c].rules[i]; DecidedBy(r, rule, TokensFor(t.limiters, kind, rule))
            else
              && r.matchedRule == Default
              && (forall c :: FirstOfType(acl.Chains(), kind, c) ==> r.action == acl.Chains()[c].defaultAction)
              && ((forall c :: 0 <= c < |acl.Chains()| ==> acl.Chains()[c].chainType != kind) ==> r.action == Allow)
  {
    if c, i :| Wins(acl.Chains(), kind, p, c, i) {
      WinnerDecides(acl, t, p, kind, now, wall, c, i);
    } else {
      if !Unmatched(acl.Chains(), kind, p) {
        var c, i := WinnerExists(acl.Chains(), kind, p);
      }
      DefaultVerdict(acl, t, p, kind, now, wall);
    }
  }

  lemma WinnerDecides(acl: Acl, t: Tables, p: PacketInfo, kind: ChainType, now: nat, wall: u64, c: int, i: int)
    requires kind != UnspecifiedChain && Wins(acl.Chains(), kind, p, c, i)
    ensures var rule := acl.Chains()[c].rules[i];
            DecidedBy(Decide(Compile(acl), t, p, kind, now, wall).result, rule, TokensFor(t.limiters, kind, rule))
  {
    if acl.Chains()[c].rules[i].rateLimit == 0 {
      WinnerVerdict(acl, t, p, kind, now, wall, c, i);
    } else {
      LimitedWinnerVerdict(acl, t, p, kind, now, wall, c, i);
    }
  }
}
