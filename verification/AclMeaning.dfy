/**
 What one configured rule decides, field by field, on the verdict itself: a configuration with a single
 chain of a single rule takes the rule's action on exactly the packets that meet its conditions.
 */
module AclMeaning {
  import opened Prelude
  import opened Net
  import opened Decimal
  import opened Bits
  import opened AclModel
  import opened AclCompile
  import opened AclAgreement

  /** One enabled chain of type `kind` with one rule and a default action. */
  function OneRule(kind: ChainType, r: Rule, fallback: Action): Acl {
    Acl(Some([Chain(kind, true, [r], fallback)]))
  }

  function Verdict(kind: ChainType, r: Rule, fallback: Action, t: Tables, p: PacketInfo, now: nat, wall: u64): AclResult {
    Decide(Compile(OneRule(kind, r, fallback)), t, p, kind, now, wall).result
  }

  /** A rule on chain `kind`, with the tables and clocks of the moment a packet arrives. */
  datatype Setting = Setting(kind: ChainType, fallback: Action, t: Tables, now: nat, wall: u64) {
    function ActionOf(r: Rule, p: PacketInfo): Action {
      Verdict(kind, r, fallback, t, p, now, wall).action
    }

    predicate Supported() {
      kind != UnspecifiedChain
    }
  }

  lemma EnabledOfOne(r: Rule)
    ensures EnabledRules([r]) == if r.enabled then [Convert(r)] else []
  {
    assert [r][1..] == [];
  }

  lemma SortOfOne(r: FastLookupRule)
    ensures SortByPriority([r]) == [r]
  {
    assert [r][1..] == [];
    assert SortByPriority([]) == [];
  }

  lemma OneRuleVector(kind: ChainType, r: Rule, fallback: Action)
    requires kind != UnspecifiedChain
    ensures Compile(OneRule(kind, r, fallback)).Rules(kind) == if r.enabled then [Convert(r)] else []
  {
    var chain := Chain(kind, true, [r], fallback);
    VectorOfSnoc([], chain);
    assert [] + [chain] == [chain];
    assert Vector([chain], kind) == ChainRules(chain, kind);
    EnabledOfOne(r);
    SortOfOne(Convert(r));
  }

  lemma OneRuleWins(m: Setting, r: Rule, p: PacketInfo)
    requires m.Supported() && r.rateLimit == 0 && Applies(r, p)
    ensures m.ActionOf(r, p) == r.action
  {
    var acl := OneRule(m.kind, r, m.fallback);
    assert acl.Chains()[0].rules[0] == r;
    assert Wins(acl.Chains(), m.kind, p, 0, 0);
    WinnerVerdict(acl, m.t, p, m.kind, m.now, m.wall, 0, 0);
  }

  lemma OneRuleFails(m: Setting, r: Rule, p: PacketInfo)
    requires m.Supported() && !Applies(r, p)
    ensures m.ActionOf(r, p) == m.fallback
  {
    var acl := OneRule(m.kind, r, m.fallback);
    assert !ChainApplies(acl.Chains()[0], m.kind, p);
    assert FirstOfType(acl.Chains(), m.kind, 0);
    DefaultVerdict(acl, m.t, p, m.kind, m.now, m.wall);
  }

  /** A rule without a rate limit takes its action on the packets it applies to, and no others. */
  lemma OneRuleDecides(m: Setting, r: Rule, p: PacketInfo)
    requires m.Supported() && r.rateLimit == 0
    ensures m.ActionOf(r, p) == if Applies(r, p) then r.action else m.fallback
  {
    if Applies(r, p) {
      OneRuleWins(m, r, p);
    } else {
      OneRuleFails(m, r, p);
    }
  }

  // ----- Rules with one condition -----

  /** The rule without any condition: it is enabled and unlimited. */
  function Blank(r: Rule): Rule {
    r.(enabled := true, protocol := Any, ports := [], sourceIps := [], destinationIps := [], sourcePorts := [],
       rateLimit := 0, sourceGroups := [], destinationGroups := [])
  }

  function OnlyProtocol(r: Rule): Rule {
    Blank(r).(protocol := r.protocol)
  }

  function OnlySource(r: Rule): Rule {
    Blank(r).(sourceIps := r.sourceIps)
  }

  function OnlyDestination(r: Rule): Rule {
    Blank(r).(destinationIps := r.destinationIps)
  }

  function OnlySourcePorts(r: Rule): Rule {
    Blank(r).(sourcePorts := r.sourcePorts)
  }

  function OnlyPorts(r: Rule): Rule {
    Blank(r).(ports := r.ports)
  }

  function OnlySourceGroups(r: Rule): Rule {
    Blank(r).(sourceGroups := r.sourceGroups)
  }

  function OnlyDestinationGroups(r: Rule): Rule {
    Blank(r).(destinationGroups := r.destinationGroups)
  }

  lemma BlankDecides(m: Setting, r: Rule, p: PacketInfo)
    requires m.Supported()
    ensures m.ActionOf(Blank(r), p) == r.action
  {
    OneRuleDecides(m, Blank(r), p);
  }

  lemma ProtocolDecides(m: Setting, r: Rule, p: PacketInfo)
    requires m.Supported()
    ensures m.ActionOf(OnlyProtocol(r), p) == if r.protocol == Any || r.protocol == p.protocol then r.action else m.fallback
  {
    OneRuleDecides(m, OnlyProtocol(r), p);
  }

  /** A source network decides the packets whose source has its family and its first `length` bits. */
  lemma SourceNetworkDecides(m: Setting, r: Rule, p: PacketInfo, net: Cidr)
    requires m.Supported() && r.sourceIps == [Some(net)] && net.length <= 8 * |net.network.octets|
    ensures m.ActionOf(OnlySource(r), p) ==
            if net.network.V4? == p.srcIp.V4? &&
               BitsOf(p.srcIp.octets)[..net.length] == BitsOf(net.network.octets)[..net.length]
            then r.action else m.fallback
  {
    OneRuleDecides(m, OnlySource(r), p);
    assert r.sourceIps[0] == Some(net);
    assert NetworkHolds(r.sourceIps, p.srcIp) <==> Inside(net, p.srcIp);
  }

  lemma DestinationNetworkDecides(m: Setting, r: Rule, p: PacketInfo, net: Cidr)
    requires m.Supported() && r.destinationIps == [Some(net)] && net.length <= 8 * |net.network.octets|
    ensures m.ActionOf(OnlyDestination(r), p) ==
            if net.network.V4? == p.dstIp.V4? &&
               BitsOf(p.dstIp.octets)[..net.length] == BitsOf(net.network.octets)[..net.length]
            then r.action else m.fallback
  {
    OneRuleDecides(m, OnlyDestination(r), p);
    assert r.destinationIps[0] == Some(net);
    assert NetworkHolds(r.destinationIps, p.dstIp) <==> Inside(net, p.dstIp);
  }

  /** A list of source networks decides what one of its readable networks decides, or all if none is readable. */
  lemma SourceListDecides(m: Setting, r: Rule, p: PacketInfo)
    requires m.Supported()
    ensures m.ActionOf(OnlySource(r), p) ==
            if (forall i | 0 <= i < |r.sourceIps| :: r.sourceIps[i].None?) ||
               exists i | 0 <= i < |r.sourceIps| :: r.sourceIps[i].Some? && Inside(r.sourceIps[i].value, p.srcIp)
            then r.action else m.fallback
  {
    OneRuleDecides(m, OnlySource(r), p);
  }

  lemma DestinationListDecides(m: Setting, r: Rule, p: PacketInfo)
    requires m.Supported()
    ensures m.ActionOf(OnlyDestination(r), p) ==
            if (forall i | 0 <= i < |r.destinationIps| :: r.destinationIps[i].None?) ||
               exists i | 0 <= i < |r.destinationIps| :: r.destinationIps[i].Some? && Inside(r.destinationIps[i].value, p.dstIp)
            then r.action else m.fallback
  {
    OneRuleDecides(m, OnlyDestination(r), p);
  }

  /** Port lists pass packets without the port, and a list with no readable entry passes all. */
  lemma SourcePortsDecide(m: Setting, r: Rule, p: PacketInfo)
    requires m.Supported()
    ensures m.ActionOf(OnlySourcePorts(r), p) ==
            if p.srcPort.None? || (forall i | 0 <= i < |r.sourcePorts| :: ParsePortRange(r.sourcePorts[i]).None?) ||
               exists i | 0 <= i < |r.sourcePorts| :: var range := ParsePortRange(r.sourcePorts[i]);
                 range.Some? && range.value.first <= p.srcPort.value <= range.value.last
            then r.action else m.fallback
  {
    OneRuleDecides(m, OnlySourcePorts(r), p);
  }

  lemma PortsDecide(m: Setting, r: Rule, p: PacketInfo)
    requires m.Supported()
    ensures m.ActionOf(OnlyPorts(r), p) ==
            if p.dstPort.None? || (forall i | 0 <= i < |r.ports| :: ParsePortRange(r.ports[i]).None?) ||
               exists i | 0 <= i < |r.ports| :: var range := ParsePortRange(r.ports[i]);
                 range.Some? && range.value.first <= p.dstPort.value <= range.value.last
            then r.action else m.fallback
  {
    OneRuleDecides(m, OnlyPorts(r), p);
  }

  lemma SourceGroupsDecide(m: Setting, r: Rule, p: PacketInfo)
    requires m.Supported()
    ensures m.ActionOf(OnlySourceGroups(r), p) ==
            if r.sourceGroups == [] || exists i | 0 <= i < |p.srcGroups| :: p.srcGroups[i] in r.sourceGroups
            then r.action else m.fallback
  {
    OneRuleDecides(m, OnlySourceGroups(r), p);
  }

  lemma DestinationGroupsDecide(m: Setting, r: Rule, p: PacketInfo)
    requires m.Supported()
    ensures m.ActionOf(OnlyDestinationGroups(r), p) ==
            if r.destinationGroups == [] || exists i | 0 <= i < |p.dstGroups| :: p.dstGroups[i] in r.destinationGroups
            then r.action else m.fallback
  {
    OneRuleDecides(m, OnlyDestinationGroups(r), p);
  }

  // ----- Rules with several conditions -----

  /** A rule decides a packet exactly if it is enabled and each of its single conditions would. */
  lemma ConditionsAreConjoined(m: Setting, r: Rule, p: PacketInfo)
    requires m.Supported() && r.rateLimit == 0 && r.action != m.fallback
    ensures m.ActionOf(r, p) == r.action <==>
            && r.enabled
            && m.ActionOf(OnlyProtocol(r), p) == r.action
            && m.ActionOf(OnlySource(r), p) == r.action
            && m.ActionOf(OnlyDestination(r), p) == r.action
            && m.ActionOf(OnlySourcePorts(r), p) == r.action
            && m.ActionOf(OnlyPorts(r), p) == r.action
            && m.ActionOf(OnlySourceGroups(r), p) == r.action
            && m.ActionOf(OnlyDestinationGroups(r), p) == r.action
  {
    OneRuleDecides(m, r, p);
    OneRuleDecides(m, OnlyProtocol(r), p);
    OneRuleDecides(m, OnlySource(r), p);
    OneRuleDecides(m, OnlyDestination(r), p);
    OneRuleDecides(m, OnlySourcePorts(r), p);
    OneRuleDecides(m, OnlyPorts(r), p);
    OneRuleDecides(m, OnlySourceGroups(r), p);
    OneRuleDecides(m, OnlyDestinationGroups(r), p);
  }

  /** A rule without a condition on a field decides alike two packets that differ only there. */
  lemma UnconditionedFieldsAreIgnored(m: Setting, r: Rule, p: PacketInfo, q: PacketInfo)
    requires m.Supported() && r.rateLimit == 0
    requires r.protocol == Any || p.protocol == q.protocol
    requires r.sourceIps == [] || p.srcIp == q.srcIp
    requires r.destinationIps == [] || p.dstIp == q.dstIp
    requires r.sourcePorts == [] || p.srcPort == q.srcPort
    requires r.ports == [] || p.dstPort == q.dstPort
    requires r.sourceGroups == [] || p.srcGroups == q.srcGroups
    requires r.destinationGroups == [] || p.dstGroups == q.dstGroups
    ensures m.ActionOf(r, p) == m.ActionOf(r, q)
  {
    OneRuleDecides(m, r, p);
    OneRuleDecides(m, r, q);
  }

  // ----- Rules with a rate limit -----

  /** Every step is a packet on chain `kind` that the rule applies to. */
  ghost predicate AllApply(steps: seq<Step>, kind: ChainType, r: Rule) {
    forall k :: 0 <= k < |steps| ==> steps[k].Packet? && steps[k].chain == kind && Applies(r, steps[k].p)
  }

  /** The bucket of the rule holds `tokens`; a bucket not yet made holds the whole burst. */
  predicate Holds(limiters: Limiters, key: RateLimitKey, burst: nat, tokens: nat) {
    if key in limiters then limiters[key].bucket == TokenBucket(burst, tokens) else tokens == burst
  }

  lemma LimitedStep(rs: Ruleset, r: Rule, t: Tables, step: Step, kind: ChainType, tokens: nat)
    requires kind != UnspecifiedChain && rs.Rules(kind) == [Convert(r)] && r.enabled && r.rateLimit > 0
    requires AllApply([step], kind, r) && tokens <= r.burstLimit
    requires Holds(t.limiters, RateLimitKey(kind, r.priority), r.burstLimit, tokens)
    ensures var (t', result) := ReferenceStep(rs, t, step);
            && Holds(t'.limiters, RateLimitKey(kind, r.priority), r.burstLimit, if tokens > 0 then tokens - 1 else 0)
            && result.Some? && result.value.action == (if tokens > 0 then r.action else Drop)
            && (result.value.logContext == RateLimitDrop <==> tokens == 0)
  {
    assert [step][0] == step;
    MatchIsMeaning(r, step.p);
    assert rs.Rules(kind)[0] == Convert(r);
  }

  lemma FirstOfRun(rs: Ruleset, t: Tables, steps: seq<Step>, t': Tables, result: Option<AclResult>)
    requires steps != [] && ReferenceStep(rs, t, steps[0]) == (t', result)
    ensures RunReference(rs, t, steps).1 == [result] + RunReference(rs, t', steps[1..]).1
  {
  }

  lemma {:induction false} LimitedRun(rs: Ruleset, r: Rule, t: Tables, steps: seq<Step>, kind: ChainType, tokens: nat, k: nat)
    requires kind != UnspecifiedChain && rs.Rules(kind) == [Convert(r)] && r.enabled && r.rateLimit > 0
    requires AllApply(steps, kind, r) && tokens <= r.burstLimit && k < |steps|
    requires Holds(t.limiters, RateLimitKey(kind, r.priority), r.burstLimit, tokens)
    ensures var results := RunReference(rs, t, steps).1;
            && |results| == |steps| && results[k].Some?
            && results[k].value.action == (if k < tokens then r.action else Drop)
            && (results[k].value.logContext == RateLimitDrop <==> k >= tokens)
    decreases |steps|
  {
    var (t', result) := ReferenceStep(rs, t, steps[0]);
    LimitedStep(rs, r, t, steps[0], kind, tokens);
    FirstOfRun(rs, t, steps, t', result);
    var left := if tokens > 0 then tokens - 1 else 0;
    if k > 0 {
      LimitedRun(rs, r, t', steps[1..], kind, left, k - 1);
    } else if |steps| > 1 {
      LimitedRun(rs, r, t', steps[1..], kind, left, 0);
    }
  }

  /** A limited rule that has no bucket yet passes exactly the first `burst` packets without a refill. */
  lemma FreshRulePassesItsBurst(m: Setting, r: Rule, steps: seq<Step>, k: nat)
    requires m.Supported() && r.enabled && r.rateLimit > 0
    requires AllApply(steps, m.kind, r) && k < |steps|
    requires RateLimitKey(m.kind, r.priority) !in m.t.limiters
    ensures var results := RunReference(Compile(OneRule(m.kind, r, m.fallback)), m.t, steps).1;
            && |results| == |steps| && results[k].Some?
            && results[k].value.action == (if k < r.burstLimit then r.action else Drop)
            && (results[k].value.logContext == RateLimitDrop <==> k >= r.burstLimit)
  {
    OneRuleVector(m.kind, r, m.fallback);
    LimitedRun(Compile(OneRule(m.kind, r, m.fallback)), r, m.t, steps, m.kind, r.burstLimit, k);
  }
}
