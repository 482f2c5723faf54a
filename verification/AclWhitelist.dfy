/** The inbound chain generated from the TCP and UDP port whitelists, and what it admits. */
module AclWhitelist {
  import opened Prelude
  import opened Decimal
  import opened AclModel
  import opened AclCompile

  /** One validated entry as it is handed to the rule, or None for a configuration error. */
  function ValidatePort(spec: Text): Option<Text> {
    var dash := IndexOf(spec, MINUS);
    if dash < |spec| then
      var first, last := ParsePort(spec[..dash]), ParsePort(spec[dash + 1..]);
      if MINUS in spec[dash + 1..] || first.None? || last.None? || first.value > last.value then None else Some(spec)
    else
      var port := ParsePort(spec);
      if port.None? then None else Some(Print(port.value))
  }

  function ValidatePorts(list: seq<Text>): Option<seq<Text>> {
    if list == [] then Some([])
    else
      var init, last := ValidatePorts(list[..|list| - 1]), ValidatePort(list[|list| - 1]);
      if init.None? || last.None? then None else Some(init.value + [last.value])
  }

  method ParsePortList(list: seq<Text>) returns (ports: Option<seq<Text>>)
    ensures ports == ValidatePorts(list)
  {
    var done := [];
    var i := 0;
    while i < |list|
      invariant 0 <= i <= |list|
      invariant ValidatePorts(list[..i]) == Some(done)
    {
      assert list[..i + 1][..i] == list[..i];
      var port := ValidatePort(list[i]);
      if port.None? {
        InvalidPrefix(list, i + 1);
        return None;
      }
      done := done + [port.value];
      i := i + 1;
    }
    assert list[..i] == list;
    ports := Some(done);
  }

  lemma {:induction false} InvalidPrefix(list: seq<Text>, i: nat)
    requires i <= |list| && ValidatePorts(list[..i]).None?
    ensures ValidatePorts(list).None?
    decreases |list|
  {
    if i < |list| {
      assert list[..|list| - 1][..i] == list[..i];
      InvalidPrefix(list[..|list| - 1], i);
    } else {
      assert list[..i] == list;
    }
  }

  // ----- The generated chain -----

  const MAX_PORT: u16 := 65535

  function RangeText(first: u16, last: u16): Text {
    Print(first) + [MINUS] + Print(last)
  }

  function WhitelistRule(priority: u32, protocol: Protocol, ports: seq<Text>, action: Action, stateful: bool): Rule {
    Rule(priority, true, protocol, ports, [], [], [], action, 0, 0, stateful, [], [])
  }

  function AllowAndDeny(priority: u32, protocol: Protocol, ports: seq<Text>, stateful: bool): seq<Rule> {
    [WhitelistRule(priority, protocol, ports, Allow, stateful), WhitelistRule(0, protocol, [RangeText(0, MAX_PORT)], Drop, false)]
  }

  /** One below, wrapping around at zero. */
  function Lowered(priority: u32): u32 {
    if priority == 0 then 0xFFFF_FFFF else priority - 1
  }

  /** An absent list generates no rules. */
  function PairFor(priority: u32, protocol: Protocol, list: seq<Text>, stateful: bool): seq<Rule>
    requires ValidatePorts(list).Some?
  {
    if list == [] then [] else AllowAndDeny(priority, protocol, ValidatePorts(list).value, stateful)
  }

  /** The rules of the whitelist chain; only a TCP list lowers the priority of the UDP rule. */
  function WhitelistRules(tcp: seq<Text>, udp: seq<Text>, priority: u32): Option<seq<Rule>> {
    if ValidatePorts(tcp).None? || ValidatePorts(udp).None? then None
    else Some(PairFor(priority, Tcp, tcp, true) +
              PairFor(if tcp == [] then priority else Lowered(priority), Udp, udp, false))
  }

  const DEFAULT_PRIORITY: u32 := 1000

  /** The whole builder: None is a configuration error. */
  function Build(acl: Option<Acl>, tcp: seq<Text>, udp: seq<Text>, priority: Option<u32>): Option<Option<Acl>> {
    if tcp == [] && udp == [] then Some(acl)
    else
      var rules := WhitelistRules(tcp, udp, priority.GetOr(DEFAULT_PRIORITY));
      if rules.None? then None
      else
        var chain := Chain(Inbound, true, rules.value, Allow);
        var user := acl.GetOr(Acl(None)).Chains();
        Some(Some(Acl(Some(user + [chain]))))
  }

  // ----- Port text keeps its meaning -----

  /** What an entry says: one port, or the ports between two numbers joined by a single dash. */
  ghost predicate Denotes(spec: Text, port: u16) {
    || (MINUS !in spec && ParsePort(spec) == Some(port))
    || exists d :: DenotesAt(spec, d, port)
  }

  /** The only dash is at `d`, and the port lies between the numbers on either side. */
  predicate DenotesAt(spec: Text, d: int, port: u16) {
    && 0 <= d < |spec| && spec[d] == MINUS && MINUS !in spec[..d] && MINUS !in spec[d + 1..]
    && ParsePort(spec[..d]).Some? && ParsePort(spec[d + 1..]).Some?
    && ParsePort(spec[..d]).value <= port <= ParsePort(spec[d + 1..]).value
  }

  ghost predicate Listed(list: seq<Text>, port: u16) {
    exists i :: 0 <= i < |list| && Denotes(list[i], port)
  }

  /** Text that parses as a port has no space to trim. */
  lemma ParsedNeedsNoTrim(s: Text)
    requires ParsePort(s).Some?
    ensures Trim(s) == s && MINUS !in s
  {
    var digits := if s[0] == PLUS then s[1..] else s;
    assert forall i :: 0 <= i < |digits| ==> IsDigit(digits[i]);
    assert s[|s| - 1] == digits[|digits| - 1];
    forall i | 0 <= i < |s|
      ensures s[i] != MINUS
    {
      if s[0] == PLUS && i > 0 {
        assert s[i] == digits[i - 1];
      }
    }
  }

  lemma DashSplitsOnce(a: Text, b: Text)
    requires MINUS !in a
    ensures var spec := a + [MINUS] + b;
            && IndexOf(spec, MINUS) == |a|
            && spec[..|a|] == a && spec[|a| + 1..] == b
  {
    var spec := a + [MINUS] + b;
    assert spec[|a|] == MINUS;
    assert forall j :: 0 <= j < |a| ==> spec[j] == a[j];
  }

  lemma DashedParses(spec: Text, dash: nat)
    requires dash == IndexOf(spec, MINUS) < |spec| && ValidatePort(spec).Some?
    ensures ValidatePort(spec).value == spec
    ensures ParsePortRange(spec) == Some(PortRange(ParsePort(spec[..dash]).value, ParsePort(spec[dash + 1..]).value))
  {
    ParsedNeedsNoTrim(spec[..dash]);
    ParsedNeedsNoTrim(spec[dash + 1..]);
  }

  lemma DashIsFirst(spec: Text, d: int)
    requires 0 <= d < |spec| && spec[d] == MINUS && MINUS !in spec[..d]
    ensures d == IndexOf(spec, MINUS)
  {
    forall j | 0 <= j < d
      ensures spec[j] != MINUS
    {
      assert spec[..d][j] == spec[j];
    }
  }

  lemma DashedDenotes(spec: Text, dash: nat, port: u16)
    requires dash == IndexOf(spec, MINUS) < |spec| && ValidatePort(spec).Some?
    ensures Denotes(spec, port) <==> ParsePort(spec[..dash]).value <= port <= ParsePort(spec[dash + 1..]).value
  {
    assert MINUS !in spec[..dash] && spec[dash] in spec;
    if d :| DenotesAt(spec, d, port) {
      DashIsFirst(spec, d);
    }
    assert DenotesAt(spec, dash, port) <==> ParsePort(spec[..dash]).value <= port <= ParsePort(spec[dash + 1..]).value;
  }

  lemma PlainParses(spec: Text)
    requires IndexOf(spec, MINUS) == |spec| && ValidatePort(spec).Some?
    ensures var n := ParsePort(spec).value; ParsePortRange(ValidatePort(spec).value) == Some(PortRange(n, n))
  {
    var n := ParsePort(spec).value;
    ParseOfPrint(n, 0x1_0000);
    ParsedNeedsNoTrim(Print(n));
    assert IndexOf(Print(n), MINUS) == |Print(n)|;
  }

  /** A validated entry compiles to a range with exactly the ports the entry denotes. */
  lemma ValidatedKeepsMeaning(spec: Text, port: u16)
    requires ValidatePort(spec).Some?
    ensures ParsePortRange(ValidatePort(spec).value).Some?
    ensures ParsePortRange(ValidatePort(spec).value).value.Contains(port) <==> Denotes(spec, port)
  {
    var dash := IndexOf(spec, MINUS);
    if dash < |spec| {
      DashedParses(spec, dash);
      DashedDenotes(spec, dash, port);
    } else {
      PlainParses(spec);
    }
  }

  lemma {:induction false} ValidatedAt(list: seq<Text>, i: nat)
    requires ValidatePorts(list).Some? && i < |list|
    ensures |ValidatePorts(list).value| == |list|
    ensures Some(ValidatePorts(list).value[i]) == ValidatePort(list[i])
  {
    var n := |list| - 1;
    if n > 0 {
      ValidatedAt(list[..n], if i < n then i else 0);
    }
  }

  lemma {:induction false} RangeAt(texts: seq<Text>, i: nat)
    requires i < |texts| && forall j :: 0 <= j < |texts| ==> ParsePortRange(texts[j]).Some?
    ensures |ParsePortRanges(texts)| == |texts|
    ensures Some(ParsePortRanges(texts)[i]) == ParsePortRange(texts[i])
  {
    if |texts| > 1 {
      RangeAt(texts[1..], if i > 0 then i - 1 else 0);
    }
  }

  lemma RangesKeepMeaning(list: seq<Text>, port: u16, i: nat)
    requires ValidatePorts(list).Some? && i < |list|
    ensures |ParsePortRanges(ValidatePorts(list).value)| == |list|
    ensures ParsePortRanges(ValidatePorts(list).value)[i].Contains(port) <==> Denotes(list[i], port)
  {
    var texts := ValidatePorts(list).value;
    forall j | 0 <= j < |list|
      ensures |texts| == |list| && ParsePortRange(texts[j]).Some?
    {
      ValidatedAt(list, j);
      ValidatedKeepsMeaning(list[j], port);
    }
    ValidatedAt(list, i);
    ValidatedKeepsMeaning(list[i], port);
    RangeAt(texts, i);
  }

  lemma PointwiseMeaning(ranges: seq<PortRange>, list: seq<Text>, port: u16)
    requires |ranges| == |list| > 0
    requires forall i :: 0 <= i < |list| ==> (ranges[i].Contains(port) <==> Denotes(list[i], port))
    ensures PortMatches(ranges, Some(port)) <==> Listed(list, port)
  {
    if PortMatches(ranges, Some(port)) {
      var i :| 0 <= i < |ranges| && ranges[i].Contains(port);
      assert Denotes(list[i], port);
    }
    if Listed(list, port) {
      var i :| 0 <= i < |list| && Denotes(list[i], port);
      assert ranges[i].Contains(port);
    }
  }

  /** No validated entry is lost in compilation, so an allow rule can never widen to every port. */
  lemma ValidatedListKeepsMeaning(list: seq<Text>, port: u16)
    requires ValidatePorts(list).Some? && list != []
    ensures |ParsePortRanges(ValidatePorts(list).value)| == |list|
    ensures PortMatches(ParsePortRanges(ValidatePorts(list).value), Some(port)) <==> Listed(list, port)
  {
    RangesKeepMeaning(list, port, 0);
    var ranges := ParsePortRanges(ValidatePorts(list).value);
    forall i | 0 <= i < |list|
      ensures ranges[i].Contains(port) <==> Denotes(list[i], port)
    {
      RangesKeepMeaning(list, port, i);
    }
    PointwiseMeaning(ranges, list, port);
  }

  // ----- What the whitelist admits -----

  function ListFor(protocol: Protocol, tcp: seq<Text>, udp: seq<Text>): seq<Text> {
    if protocol == Tcp then tcp else udp
  }

  lemma RangeTextParses(first: u16, last: u16)
    ensures ParsePortRange(RangeText(first, last)) == Some(PortRange(first, last))
  {
    ParseOfPrint(first, 0x1_0000);
    ParseOfPrint(last, 0x1_0000);
    ParsedNeedsNoTrim(Print(first));
    ParsedNeedsNoTrim(Print(last));
    DashSplitsOnce(Print(first), Print(last));
  }

  predicate Blanks(s: Text) {
    forall i :: 0 <= i < |s| ==> IsWhitespace(s[i])
  }

  lemma {:induction false} TrimOfPadded(a: Text, s: Text, b: Text)
    requires Blanks(a) && Blanks(b) && s != [] && !IsWhitespace(s[0]) && !IsWhitespace(s[|s| - 1])
    ensures Trim(a + s + b) == s
    decreases |a| + |b|
  {
    var all := a + s + b;
    if a != [] {
      assert all[0] == a[0] && all[1..] == a[1..] + s + b;
      TrimOfPadded(a[1..], s, b);
    } else if b != [] {
      assert all[0] == s[0] && all[|all| - 1] == b[|b| - 1] && all[..|all| - 1] == a + s + b[..|b| - 1];
      TrimOfPadded(a, s, b[..|b| - 1]);
    } else {
      assert all == s;
    }
  }

  lemma TrimOfPaddedNumber(a: Text, n: u16, b: Text)
    requires Blanks(a) && Blanks(b)
    ensures ParsePort(Trim(a + Print(n) + b)) == Some(n) && MINUS !in a + Print(n) + b
  {
    ParseOfPrint(n, 0x1_0000);
    ParsedNeedsNoTrim(Print(n));
    TrimOfPadded(a, Print(n), b);
  }

  /** Blanks around the numbers of a rule's port text are ignored. */
  lemma PaddedTextParses(a: Text, first: u16, b: Text, c: Text, last: u16, d: Text)
    requires Blanks(a) && Blanks(b) && Blanks(c) && Blanks(d)
    ensures ParsePortRange(a + Print(first) + b) == Some(PortRange(first, first))
    ensures ParsePortRange((a + Print(first) + b) + [MINUS] + (c + Print(last) + d)) == Some(PortRange(first, last))
  {
    TrimOfPaddedNumber(a, first, b);
    TrimOfPaddedNumber(c, last, d);
    DashSplitsOnce(a + Print(first) + b, c + Print(last) + d);
  }

  lemma FullRangeMatches(text: Text, port: u16)
    requires ParsePortRange(text) == Some(PortRange(0, MAX_PORT))
    ensures PortMatches(ParsePortRanges([text]), Some(port))
  {
    RangeAt([text], 0);
    assert ParsePortRanges([text])[0].Contains(port);
  }

  /** The allow rule of a list takes its own protocol and listed ports; its companion takes the rest. */
  lemma PairApplies(priority: u32, protocol: Protocol, list: seq<Text>, stateful: bool, p: PacketInfo, port: u16)
    requires p.dstPort == Some(port) && protocol != Any
    requires list != [] && ValidatePorts(list).Some?
    ensures var pair := AllowAndDeny(priority, protocol, ValidatePorts(list).value, stateful);
            && (Applies(pair[0], p) <==> p.protocol == protocol && Listed(list, port))
            && (Applies(pair[1], p) <==> p.protocol == protocol)
  {
    RangeTextParses(0, MAX_PORT);
    FullRangeMatches(RangeText(0, MAX_PORT), port);
    ValidatedListKeepsMeaning(list, port);
    PortIsMatched(ValidatePorts(list).value, p.dstPort);
    PortIsMatched([RangeText(0, MAX_PORT)], p.dstPort);
  }

  ghost predicate NoneApplies(rules: seq<Rule>, p: PacketInfo) {
    forall i :: 0 <= i < |rules| ==> !Applies(rules[i], p)
  }

  lemma FirstOfTwo(rules: seq<Rule>, p: PacketInfo)
    requires |rules| == 2 && rules[1].priority <= rules[0].priority && Applies(rules[0], p)
    ensures Best(rules, p, 0)
  {
    assert forall j :: 0 <= j < 2 ==> j == 0 || rules[j].priority == rules[1].priority;
  }

  lemma SecondOfTwo(rules: seq<Rule>, p: PacketInfo)
    requires |rules| == 2 && !Applies(rules[0], p) && Applies(rules[1], p)
    ensures Best(rules, p, 1)
  {
    assert forall j :: 0 <= j < 2 && Applies(rules[j], p) ==> j == 1;
  }

  lemma NeitherOfTwo(rules: seq<Rule>, p: PacketInfo)
    requires |rules| == 2 && !Applies(rules[0], p) && !Applies(rules[1], p)
    ensures NoneApplies(rules, p)
  {
  }

  /** Listed ports go to the allow rule, other ports to its companion, other protocols to neither. */
  lemma PairDecides(priority: u32, protocol: Protocol, list: seq<Text>, stateful: bool, p: PacketInfo, port: u16)
    requires p.dstPort == Some(port) && protocol != Any && ValidatePorts(list).Some?
    ensures var pair := PairFor(priority, protocol, list, stateful);
            if list == [] || p.protocol != protocol then NoneApplies(pair, p)
            else if Listed(list, port) then Best(pair, p, 0) && pair[0].action == Allow
            else Best(pair, p, 1) && pair[1].action == Drop
  {
    if list != [] {
      PairApplies(priority, protocol, list, stateful, p, port);
      var pair := PairFor(priority, protocol, list, stateful);
      if p.protocol != protocol {
        NeitherOfTwo(pair, p);
      } else if Listed(list, port) {
        FirstOfTwo(pair, p);
      } else {
        SecondOfTwo(pair, p);
      }
    }
  }

  lemma BestOfConcat(a: seq<Rule>, b: seq<Rule>, p: PacketInfo, i: int)
    requires (NoneApplies(a, p) && Best(b, p, i)) || (NoneApplies(b, p) && Best(a, p, i))
    ensures NoneApplies(a, p) ==> Best(a + b, p, |a| + i) && (a + b)[|a| + i] == b[i]
    ensures NoneApplies(b, p) ==> Best(a + b, p, i) && (a + b)[i] == a[i]
  {
    assert forall k :: 0 <= k < |a + b| ==> (a + b)[k] == if k < |a| then a[k] else b[k - |a|];
  }

  /** With a list, one of its two rules decides; without one, no generated rule applies. */
  lemma WhitelistRulesDecide(tcp: seq<Text>, udp: seq<Text>, priority: u32, p: PacketInfo, port: u16)
    requires WhitelistRules(tcp, udp, priority).Some?
    requires p.dstPort == Some(port) && (p.protocol == Tcp || p.protocol == Udp)
    ensures var rules := WhitelistRules(tcp, udp, priority).value;
            var list := ListFor(p.protocol, tcp, udp);
            if list == [] then NoneApplies(rules, p)
            else exists i :: Best(rules, p, i) && rules[i].action == if Listed(list, port) then Allow else Drop
  {
    var udpPriority := if tcp == [] then priority else Lowered(priority);
    var a, b := PairFor(priority, Tcp, tcp, true), PairFor(udpPriority, Udp, udp, false);
    PairDecides(priority, Tcp, tcp, true, p, port);
    PairDecides(udpPriority, Udp, udp, false, p, port);
    var list := ListFor(p.protocol, tcp, udp);
    if list != [] {
      BestOfConcat(a, b, p, if Listed(list, port) then 0 else 1);
    }
  }

  /** A single enabled inbound chain without rate limits that allows by default. */
  function OnlyChain(rules: seq<Rule>): Acl {
    Acl(Some([Chain(Inbound, true, rules, Allow)]))
  }

  function OnlyChainAction(rules: seq<Rule>, t: Tables, p: PacketInfo, now: nat, wall: u64): Action {
    Decide(Compile(OnlyChain(rules)), t, p, Inbound, now, wall).result.action
  }

  /** No rule applies and the action is the default, or the best rule has it. */
  ghost predicate Decides(rules: seq<Rule>, p: PacketInfo, action: Action) {
    (NoneApplies(rules, p) && action == Allow) || exists i :: Best(rules, p, i) && rules[i].action == action
  }

  lemma OnlyChainDecides(rules: seq<Rule>, t: Tables, p: PacketInfo, action: Action, now: nat, wall: u64)
    requires forall i :: 0 <= i < |rules| ==> rules[i].rateLimit == 0
    requires Decides(rules, p, action)
    ensures OnlyChainAction(rules, t, p, now, wall) == action
  {
    var acl := OnlyChain(rules);
    if i :| Best(rules, p, i) && rules[i].action == action {
      WinnerVerdict(acl, t, p, Inbound, now, wall, 0, i);
    } else {
      DefaultVerdict(acl, t, p, Inbound, now, wall);
    }
  }

  lemma WhitelistRulesAreUnlimited(tcp: seq<Text>, udp: seq<Text>, priority: u32)
    requires WhitelistRules(tcp, udp, priority).Some?
    ensures forall i :: 0 <= i < |WhitelistRules(tcp, udp, priority).value| ==>
      WhitelistRules(tcp, udp, priority).value[i].rateLimit == 0
  {
  }

  lemma WhitelistDecides(tcp: seq<Text>, udp: seq<Text>, priority: u32, p: PacketInfo, port: u16)
    requires WhitelistRules(tcp, udp, priority).Some?
    requires p.dstPort == Some(port) && (p.protocol == Tcp || p.protocol == Udp)
    ensures var list := ListFor(p.protocol, tcp, udp);
            Decides(WhitelistRules(tcp, udp, priority).value, p, if list == [] || Listed(list, port) then Allow else Drop)
  {
    WhitelistRulesDecide(tcp, udp, priority, p, port);
  }

  lemma WhitelistChainDecides(tcp: seq<Text>, udp: seq<Text>, priority: u32, t: Tables, p: PacketInfo,
                              port: u16, now: nat, wall: u64)
    requires WhitelistRules(tcp, udp, priority).Some?
    requires p.dstPort == Some(port) && (p.protocol == Tcp || p.protocol == Udp)
    ensures var list := ListFor(p.protocol, tcp, udp);
            OnlyChainAction(WhitelistRules(tcp, udp, priority).value, t, p, now, wall)
            == if list == [] || Listed(list, port) then Allow else Drop
  {
    var list, rules := ListFor(p.protocol, tcp, udp), WhitelistRules(tcp, udp, priority).value;
    WhitelistRulesAreUnlimited(tcp, udp, priority);
    WhitelistDecides(tcp, udp, priority, p, port);
    OnlyChainDecides(rules, t, p, if list == [] || Listed(list, port) then Allow else Drop, now, wall);
  }

  lemma BuildAlone(tcp: seq<Text>, udp: seq<Text>, priority: Option<u32>)
    requires tcp != [] || udp != []
    ensures var rules := WhitelistRules(tcp, udp, priority.GetOr(DEFAULT_PRIORITY));
            Build(None, tcp, udp, priority) == if rules.None? then None else Some(Some(OnlyChain(rules.value)))
  {
    var rules := WhitelistRules(tcp, udp, priority.GetOr(DEFAULT_PRIORITY));
    if rules.Some? {
      var chain := Chain(Inbound, true, rules.value, Allow);
      assert Acl(None).Chains() + [chain] == [chain];
    }
  }

  /**
   With valid lists and no user rules, an inbound TCP or UDP packet with a destination port is allowed
   if its protocol has no list or the list contains the port, and dropped otherwise.
   */
  lemma WhitelistAdmitsExactly(tcp: seq<Text>, udp: seq<Text>, priority: Option<u32>, t: Tables, p: PacketInfo,
                               port: u16, now: nat, wall: u64)
    requires Build(None, tcp, udp, priority).Some?
    requires p.dstPort == Some(port) && (p.protocol == Tcp || p.protocol == Udp)
    ensures var acl := Build(None, tcp, udp, priority).value.GetOr(Acl(None));
            var list := ListFor(p.protocol, tcp, udp);
            Decide(Compile(acl), t, p, Inbound, now, wall).result.action == if list == [] || Listed(list, port) then Allow else Drop
  {
    if tcp == [] && udp == [] {
      DefaultVerdict(Acl(None), t, p, Inbound, now, wall);
    } else {
      BuildAlone(tcp, udp, priority);
      WhitelistChainDecides(tcp, udp, priority.GetOr(DEFAULT_PRIORITY), t, p, port, now, wall);
    }
  }

  /** Packets that no user rule takes are decided by the list of their protocol, if there is one. */
  lemma WhitelistDecidesTheRest(acl: Acl, tcp: seq<Text>, udp: seq<Text>, priority: Option<u32>, t: Tables, p: PacketInfo,
                                port: u16, now: nat, wall: u64)
    requires Build(Some(acl), tcp, udp, priority).Some? && Unmatched(acl.Chains(), Inbound, p)
    requires p.dstPort == Some(port) && (p.protocol == Tcp || p.protocol == Udp)
    requires ListFor(p.protocol, tcp, udp) != []
    ensures var built := Build(Some(acl), tcp, udp, priority).value.value;
            Decide(Compile(built), t, p, Inbound, now, wall).result.action
            == if Listed(ListFor(p.protocol, tcp, udp), port) then Allow else Drop
  {
    var built, user := Build(Some(acl), tcp, udp, priority).value.value, acl.Chains();
    var rules := WhitelistRules(tcp, udp, priority.GetOr(DEFAULT_PRIORITY)).value;
    var action := if Listed(ListFor(p.protocol, tcp, udp), port) then Allow else Drop;
    WhitelistRulesAreUnlimited(tcp, udp, priority.GetOr(DEFAULT_PRIORITY));
    WhitelistRulesDecide(tcp, udp, priority.GetOr(DEFAULT_PRIORITY), p, port);
    var i :| Best(rules, p, i) && rules[i].action == action;
    LastChainWins(user, Chain(Inbound, true, rules, Allow), p, i);
    assert built.Chains() == user + [Chain(Inbound, true, rules, Allow)];
    WinnerVerdict(built, t, p, Inbound, now, wall, |user|, i);
  }

  lemma LastChainWins(user: seq<Chain>, chain: Chain, p: PacketInfo, i: int)
    requires Unmatched(user, Inbound, p) && chain.enabled && chain.chainType == Inbound && Best(chain.rules, p, i)
    ensures Wins(user + [chain], Inbound, p, |user|, i)
  {
    assert (user + [chain])[|user|] == chain;
    assert forall b :: 0 <= b < |user| ==> (user + [chain])[b] == user[b];
  }

  /** Appending the whitelist never changes which user rule decides a packet. */
  lemma WhitelistKeepsUserVerdicts(acl: Acl, tcp: seq<Text>, udp: seq<Text>, priority: Option<u32>, kind: ChainType,
                                   p: PacketInfo, c: int, i: int, t: Tables, now: nat, wall: u64)
    requires Build(Some(acl), tcp, udp, priority).Some?
    requires Wins(acl.Chains(), kind, p, c, i)
    ensures var built := Build(Some(acl), tcp, udp, priority).value.value;
            && Wins(built.Chains(), kind, p, c, i)
            && built.Chains()[c].rules[i] == acl.Chains()[c].rules[i]
            && First(Vector(built.Chains(), kind), p) == First(Vector(acl.Chains(), kind), p)
            && Decide(Compile(built), t, p, kind, now, wall) == Decide(Compile(acl), t, p, kind, now, wall)
  {
    var built := Build(Some(acl), tcp, udp, priority).value.value;
    var user := acl.Chains();
    if built.Chains() != user {
      var chain := built.Chains()[|user|];
      assert built.Chains() == user + [chain];
      LongerKeepsWinner(user, chain, kind, p, c, i);
      VectorFindsWinner(user, kind, p, c, i);
      VectorFindsWinner(built.Chains(), kind, p, c, i);
      VectorOfSnoc(user, chain);
      LongerVectorDecides(Compile(acl), Compile(built), ChainRules(chain, kind), t, p, kind, now, wall);
    }
  }

  lemma LongerKeepsWinner(user: seq<Chain>, chain: Chain, kind: ChainType, p: PacketInfo, c: int, i: int)
    requires Wins(user, kind, p, c, i)
    ensures Wins(user + [chain], kind, p, c, i)
  {
    assert forall b :: 0 <= b < |user| ==> (user + [chain])[b] == user[b];
  }

  lemma {:induction false} ScanOfPrefix(a: seq<FastLookupRule>, b: seq<FastLookupRule>, p: PacketInfo, i: nat)
    requires i <= |a| && ScanFrom(a, p, i) < |a|
    ensures ScanFrom(a + b, p, i) == ScanFrom(a, p, i)
    decreases |a| - i
  {
    assert (a + b)[i] == a[i];
    if !RuleMatches(a[i], p) {
      ScanOfPrefix(a, b, p, i + 1);
    }
  }

  /** Rules after the first match change nothing, whatever the match does to the tables. */
  lemma LongerVectorDecides(rs: Ruleset, longer: Ruleset, more: seq<FastLookupRule>, t: Tables, p: PacketInfo,
                            kind: ChainType, now: nat, wall: u64)
    requires kind != UnspecifiedChain ==> longer.Rules(kind) == rs.Rules(kind) + more
    requires kind != UnspecifiedChain ==> ScanFrom(rs.Rules(kind), p, 0) < |rs.Rules(kind)|
    ensures Decide(longer, t, p, kind, now, wall) == Decide(rs, t, p, kind, now, wall)
  {
    if kind != UnspecifiedChain {
      ScanOfPrefix(rs.Rules(kind), more, p, 0);
    }
  }
}
