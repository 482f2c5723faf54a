/**
 The compiled packet filter: rules, the tables a packet touches, and the two ways of deciding a
 packet. `ReferenceStep` scans the rules for every packet; `CachedStep` is the shipped processor,
 which keeps one cache entry for each flow.
 */
module AclModel {
  import opened Prelude
  import opened Net

  datatype ChainType = UnspecifiedChain | Inbound | Outbound | Forward

  datatype Protocol = Unspecified | Tcp | Udp | Icmp | IcmpV6 | Any

  datatype Action = Noop | Allow | Drop

  // ----- Rules and packets -----

  datatype Cidr = Cidr(network: IpAddr, length: nat) {
    predicate Contains(ip: IpAddr) {
      && network.V4? == ip.V4?
      && var host := if length <= 8 * |ip.octets| then 8 * |ip.octets| - length else 0;
         BigEndian(network.octets) / Pow2(host) == BigEndian(ip.octets) / Pow2(host)
    }
  }

  datatype PortRange = PortRange(first: u16, last: u16) {
    predicate Contains(port: u16) {
      first <= port <= last
    }
  }

  datatype FastLookupRule = FastLookupRule(
    priority: u32,
    protocol: Protocol,
    srcIps: seq<Cidr>,
    dstIps: seq<Cidr>,
    srcPorts: seq<PortRange>,
    dstPorts: seq<PortRange>,
    srcGroups: set<string>,
    dstGroups: set<string>,
    action: Action,
    stateful: bool,
    rateLimit: u32,
    burstLimit: u32)

  datatype PacketInfo = PacketInfo(
    srcIp: IpAddr,
    dstIp: IpAddr,
    srcPort: Option<u16>,
    dstPort: Option<u16>,
    protocol: Protocol,
    size: u64,
    srcGroups: seq<string>,
    dstGroups: seq<string>)

  predicate IpMatches(ranges: seq<Cidr>, ip: IpAddr) {
    ranges == [] || exists i | 0 <= i < |ranges| :: ranges[i].Contains(ip)
  }

  /** A packet without a port passes every port condition. */
  predicate PortMatches(ranges: seq<PortRange>, port: Option<u16>) {
    port.None? || ranges == [] || exists i | 0 <= i < |ranges| :: ranges[i].Contains(port.value)
  }

  predicate GroupMatches(wanted: set<string>, groups: seq<string>) {
    wanted == {} || exists i | 0 <= i < |groups| :: groups[i] in wanted
  }

  predicate RuleMatches(rule: FastLookupRule, p: PacketInfo) {
    && (rule.protocol == Any || rule.protocol == p.protocol)
    && IpMatches(rule.srcIps, p.srcIp)
    && IpMatches(rule.dstIps, p.dstIp)
    && PortMatches(rule.srcPorts, p.srcPort)
    && PortMatches(rule.dstPorts, p.dstPort)
    && GroupMatches(rule.srcGroups, p.srcGroups)
    && GroupMatches(rule.dstGroups, p.dstGroups)
  }

  /** The compiled rule vectors and default actions, fixed for the life of a processor. */
  datatype Ruleset = Ruleset(
    inbound: seq<FastLookupRule>,
    outbound: seq<FastLookupRule>,
    forward: seq<FastLookupRule>,
    defaultInbound: Action,
    defaultOutbound: Action,
    defaultForward: Action)
  {
    function Rules(chain: ChainType): seq<FastLookupRule> {
      match chain
      case Inbound => inbound
      case Outbound => outbound
      case Forward => forward
      case UnspecifiedChain => []
    }

    function DefaultAction(chain: ChainType): Action {
      match chain
      case Inbound => defaultInbound
      case Outbound => defaultOutbound
      case Forward => defaultForward
      case UnspecifiedChain => Allow
    }

    function All(): seq<FastLookupRule> {
      inbound + outbound + forward
    }

    predicate NeedsSrcGroups() {
      exists i | 0 <= i < |All()| :: All()[i].srcGroups != {}
    }

    predicate NeedsDstGroups() {
      exists i | 0 <= i < |All()| :: All()[i].dstGroups != {}
    }
  }

  // ----- Results -----

  datatype RuleId = Priority(priority: u32) | Stateful(priority: u32) | Default

  datatype LogContext =
    | StatefulMatch(srcIp: IpAddr, dstIp: IpAddr)
    | RuleMatch(srcIp: IpAddr, dstIp: IpAddr, action: Action)
    | DefaultDrop
    | DefaultAllow
    | UnsupportedChainType
    | RateLimitDrop

  datatype AclResult = AclResult(action: Action, matchedRule: RuleId, logContext: LogContext)

  /** The priority a result names; a stateful and a plain match of one rule name the same one. */
  function RulePriority(id: RuleId): Option<u32> {
    match id
    case Priority(p) => Some(p)
    case Stateful(p) => Some(p)
    case Default => None
  }

  /** Two results that decide and log alike, up to the stateful tag of the rule id. */
  predicate SameVerdict(a: AclResult, b: AclResult) {
    && a.action == b.action
    && RulePriority(a.matchedRule) == RulePriority(b.matchedRule)
    && a.logContext == b.logContext
  }

  // ----- Tables -----

  /** Monotonic instants are counted in nanoseconds. */
  const SECOND: nat := 1_000_000_000
  const CACHE_LIFETIME: nat := 15 * SECOND
  const LIMITER_LIFETIME: nat := 20 * SECOND
  const CONNECTION_TIMEOUT: nat := 60
  const CACHE_MAX_SIZE: nat := 1024

  datatype RateLimitKey = RateLimitKey(chain: ChainType, priority: u32)

  datatype TokenBucket = TokenBucket(capacity: nat, available: nat) {
    /** One packet costs one token. */
    function TryConsume(): (TokenBucket, bool) {
      if capacity < 1 || available < 1 then (this, false) else (this.(available := available - 1), true)
    }

    function Refill(tokens: nat): TokenBucket {
      var sum := available + tokens;
      this.(available := if sum < capacity then sum else capacity)
    }
  }

  datatype Limiter = Limiter(bucket: TokenBucket, lastUpdate: nat)

  type Limiters = map<RateLimitKey, Limiter>

  datatype FlowKey = FlowKey(srcIp: IpAddr, dstIp: IpAddr, srcPort: u16, dstPort: u16, protocol: Protocol)

  datatype ConnState = New | Established

  datatype ConnTrackEntry = ConnTrackEntry(
    src: SocketAddr,
    dst: SocketAddr,
    protocol: Protocol,
    state: ConnState,
    createdAt: u64,
    lastSeen: u64,
    packets: u64,
    bytes: u64)

  type Connections = map<FlowKey, ConnTrackEntry>

  /** Every compiled rule owns one counter, and the default action owns another. */
  datatype CounterId = RuleCounter(chain: ChainType, index: nat) | DefaultCounter

  datatype Counter = Counter(packets: u64, bytes: u64)

  type Counters = map<CounterId, Counter>

  datatype Tables = Tables(conn: Connections, limiters: Limiters, counters: Counters)

  function FlowKeyOf(p: PacketInfo): FlowKey {
    FlowKey(p.srcIp, p.dstIp, p.srcPort.GetOr(0), p.dstPort.GetOr(0), p.protocol)
  }

  function Track(conn: Connections, key: FlowKey, p: PacketInfo, wall: u64): Connections {
    if key in conn then
      var e := conn[key];
      conn[key := e.(lastSeen := wall, packets := Wrap64(e.packets + 1),
                     bytes := Wrap64(e.bytes + p.size), state := Established)]
    else
      conn[key := ConnTrackEntry(SocketAddr(p.srcIp, p.srcPort.GetOr(0)),
                                 SocketAddr(p.dstIp, p.dstPort.GetOr(0)),
                                 p.protocol, New, wall, wall, 1, p.size)]
  }

  function Increment(counters: Counters, id: CounterId, size: u64): Counters {
    var c := if id in counters then counters[id] else Counter(0, 0);
    counters[id := Counter(Wrap64(c.packets + 1), Wrap64(c.bytes + size))]
  }

  function IncrementAll(counters: Counters, ids: seq<CounterId>, size: u64): Counters {
    if ids == [] then counters
    else Increment(IncrementAll(counters, ids[..|ids| - 1], size), ids[|ids| - 1], size)
  }

  /**
   Takes one token from the bucket of `key`. None stands for the panic on a missing bucket that the
   caller was not allowed to create.
   */
  function CheckRateLimit(limiters: Limiters, key: RateLimitKey, rate: u32, burst: u32,
                          allowCreate: bool, now: nat): Option<(Limiters, bool)>
  {
    if rate == 0 then Some((limiters, true))
    else if key !in limiters && !allowCreate then None
    else
      var bucket := if key in limiters then limiters[key].bucket else TokenBucket(burst, burst);
      var (bucket', granted) := bucket.TryConsume();
      Some((limiters[key := Limiter(bucket', now)], granted))
  }

  // ----- The rule scan -----

  /** The first index from `i` on whose rule matches, or the length of the vector. */
  function ScanFrom(rules: seq<FastLookupRule>, p: PacketInfo, i: nat): (r: nat)
    requires i <= |rules|
    ensures i <= r <= |rules|
    ensures forall j :: i <= j < r ==> !RuleMatches(rules[j], p)
    ensures r < |rules| ==> RuleMatches(rules[r], p)
    decreases |rules| - i
  {
    if i == |rules| || RuleMatches(rules[i], p) then i else ScanFrom(rules, p, i + 1)
  }

  datatype CacheEntry = CacheEntry(
    matchedRule: RuleId,
    createdAt: nat,
    connKey: Option<FlowKey>,
    rateKeys: seq<RateLimitKey>,
    result: Option<AclResult>,
    stats: seq<CounterId>)

  const UNSUPPORTED: AclResult := AclResult(Drop, Default, UnsupportedChainType)

  function RateLimited(id: RuleId): AclResult {
    AclResult(Drop, id, RateLimitDrop)
  }

  /** What the scan decides and which tables it names when rule `index` is the first match. */
  function RuleEntry(chain: ChainType, index: nat, rule: FastLookupRule, p: PacketInfo, now: nat): CacheEntry {
    var counter := RuleCounter(chain, index);
    var limited := rule.rateLimit > 0;
    var rateKeys := if limited then [RateLimitKey(chain, rule.priority)] else [];
    var stats := if limited then [counter, counter] else [counter];
    if rule.stateful && rule.action == Allow then
      CacheEntry(Stateful(rule.priority), now, Some(FlowKeyOf(p)), rateKeys,
                 Some(AclResult(Allow, Stateful(rule.priority), StatefulMatch(p.srcIp, p.dstIp))), stats)
    else
      CacheEntry(Priority(rule.priority), now, None, rateKeys,
                 Some(AclResult(rule.action, Priority(rule.priority), RuleMatch(p.srcIp, p.dstIp, rule.action))), stats)
  }

  function DefaultEntry(action: Action, now: nat): CacheEntry {
    var context := if action == Drop then DefaultDrop else DefaultAllow;
    CacheEntry(Default, now, None, [], Some(AclResult(action, Default, context)), [DefaultCounter])
  }

  /** The cache entry for a packet: a function of the rules and the packet alone, not of any table. */
  function EntryFor(rs: Ruleset, chain: ChainType, p: PacketInfo, now: nat): CacheEntry {
    var rules := rs.Rules(chain);
    var i := ScanFrom(rules, p, 0);
    if i < |rules| then RuleEntry(chain, i, rules[i], p, now) else DefaultEntry(rs.DefaultAction(chain), now)
  }

  /** Connection tracking and counters of a packet that was not dropped by a rate limit. */
  function Settle(t: Tables, entry: CacheEntry, p: PacketInfo, wall: u64): Tables {
    t.(conn := if entry.connKey.Some? then Track(t.conn, entry.connKey.value, p, wall) else t.conn,
       counters := IncrementAll(t.counters, entry.stats, p.size))
  }

  /** Decides one packet by scanning the rules; `complete` tells whether the scan reached its end. */
  datatype Decision = Decision(tables: Tables, result: AclResult, complete: bool)

  function Decide(rs: Ruleset, t: Tables, p: PacketInfo, chain: ChainType, now: nat, wall: u64): Decision {
    if chain == UnspecifiedChain then Decision(t, UNSUPPORTED, false)
    else
      var rules := rs.Rules(chain);
      var i := ScanFrom(rules, p, 0);
      var entry := EntryFor(rs, chain, p, now);
      if i < |rules| && rules[i].rateLimit > 0 then
        var key := RateLimitKey(chain, rules[i].priority);
        var (limiters, granted) := CheckRateLimit(t.limiters, key, rules[i].rateLimit, rules[i].burstLimit, true, now).value;
        var t' := t.(limiters := limiters);
        if granted then Decision(Settle(t', entry, p, wall), entry.result.value, true)
        else Decision(t', RateLimited(Priority(rules[i].priority)), false)
      else
        Decision(Settle(t, entry, p, wall), entry.result.value, true)
  }

  // ----- The flow cache -----

  datatype CacheKey = CacheKey(
    chain: ChainType,
    protocol: Protocol,
    srcIp: IpAddr,
    dstIp: IpAddr,
    srcPort: u16,
    dstPort: u16,
    srcGroups: Option<seq<string>>,
    dstGroups: Option<seq<string>>)

  type Cache = map<CacheKey, CacheEntry>

  /** Ports default to 0, and groups are left out when no compiled rule names any. */
  function KeyOf(rs: Ruleset, p: PacketInfo, chain: ChainType): CacheKey {
    CacheKey(chain, p.protocol, p.srcIp, p.dstIp, p.srcPort.GetOr(0), p.dstPort.GetOr(0),
             if rs.NeedsSrcGroups() then Some(p.srcGroups) else None,
             if rs.NeedsDstGroups() then Some(p.dstGroups) else None)
  }

  datatype Stats = Stats(cacheHits: u64, ruleMatches: u64, defaultDrops: u64, defaultAllows: u64)

  datatype State = State(tables: Tables, cache: Cache, stats: Stats)

  /** The instant a sweep compares with; a clock younger than the lifetime expires everything so far. */
  function ExpiryPoint(now: nat): nat {
    if now >= CACHE_LIFETIME then now - CACHE_LIFETIME else now
  }

  function Unexpired(cache: Cache, now: nat): Cache {
    map k | k in cache && cache[k].createdAt > ExpiryPoint(now) :: cache[k]
  }

  /** A sweep drops expired entries and then, above the size limit, all keys outside `kept`. */
  function Sweep(cache: Cache, now: nat, kept: set<CacheKey>): Cache {
    var live := Unexpired(cache, now);
    if |live| <= CACHE_MAX_SIZE then live else map k | k in live && k in kept :: live[k]
  }

  /** How a sweep chooses `kept`: the oldest entries go until 80 percent of the limit is left. */
  ghost predicate EvictsOldest(cache: Cache, now: nat, kept: set<CacheKey>) {
    var live := Unexpired(cache, now);
    |live| > CACHE_MAX_SIZE ==>
      && kept <= live.Keys
      && |kept| == CACHE_MAX_SIZE - CACHE_MAX_SIZE / 5
      && forall gone, stays :: gone in live && gone !in kept && stays in kept ==>
           live[gone].createdAt <= live[stays].createdAt
  }

  function Insert(cache: Cache, key: CacheKey, entry: CacheEntry, now: nat, kept: set<CacheKey>): Cache {
    var cache' := cache[key := entry];
    if |cache'| > CACHE_MAX_SIZE * 2 then Sweep(cache', now, kept) else cache'
  }

  /** Draws on the buckets of a cached entry in order; None is the panic on a missing bucket. */
  function DrawAll(limiters: Limiters, keys: seq<RateLimitKey>, now: nat): Option<(Limiters, bool)> {
    if keys == [] then Some((limiters, true))
    else
      var first := CheckRateLimit(limiters, keys[0], 1, 1, false, now);
      if first.None? then None
      else if !first.value.1 then first
      else DrawAll(first.value.0, keys[1..], now)
  }

  /** A run stops at a panic; the release build aborts on one. */
  datatype Outcome = Panic | Done(state: State, result: Option<AclResult>)

  function Hit(s: State, entry: CacheEntry, p: PacketInfo, now: nat, wall: u64): Outcome {
    var s1 := s.(stats := s.stats.(cacheHits := Wrap64(s.stats.cacheHits + 1)));
    var drawn := DrawAll(s.tables.limiters, entry.rateKeys, now);
    if drawn.None? then Panic
    else
      var t := s.tables.(limiters := drawn.value.0);
      if !drawn.value.1 then Done(s1.(tables := t), Some(RateLimited(entry.matchedRule)))
      else if entry.result.None? then Panic
      else Done(s1.(tables := Settle(t, entry, p, wall)), entry.result)
  }

  function CountMiss(stats: Stats, entry: CacheEntry): Stats {
    if entry.matchedRule != Default then stats.(ruleMatches := Wrap64(stats.ruleMatches + 1))
    else if entry.result.Some? && entry.result.value.action == Drop then
      stats.(defaultDrops := Wrap64(stats.defaultDrops + 1))
    else stats.(defaultAllows := Wrap64(stats.defaultAllows + 1))
  }

  function Miss(rs: Ruleset, s: State, p: PacketInfo, chain: ChainType, now: nat, wall: u64, kept: set<CacheKey>): Outcome {
    var d := Decide(rs, s.tables, p, chain, now, wall);
    if !d.complete then Done(s.(tables := d.tables), Some(d.result))
    else
      var entry := EntryFor(rs, chain, p, now);
      Done(State(d.tables, Insert(s.cache, KeyOf(rs, p, chain), entry, now, kept), CountMiss(s.stats, entry)), Some(d.result))
  }

  // ----- Steps -----

  /**
   Everything that touches the processor: a packet, the two halves of the cache task's tick, the
   connection task's tick, and the refill of a token bucket by its own background task.
   */
  datatype Step =
    | Packet(p: PacketInfo, chain: ChainType, now: nat, wall: u64, kept: set<CacheKey>)
    | SweepCache(now: nat, kept: set<CacheKey>)
    | SweepLimiters(now: nat)
    | SweepConnections(wall: u64)
    | RefillBucket(key: RateLimitKey, tokens: nat)

  function LiveLimiters(limiters: Limiters, now: nat): Limiters {
    map k | k in limiters && now < limiters[k].lastUpdate + LIMITER_LIFETIME :: limiters[k]
  }

  function LiveConnections(conn: Connections, wall: u64): Connections {
    map k | k in conn && Wrap64(wall - conn[k].lastSeen) <= CONNECTION_TIMEOUT :: conn[k]
  }

  /** Housekeeping never reads or writes the cache except in `SweepCache`. */
  function Housekeep(t: Tables, step: Step): Tables
    requires !step.Packet?
  {
    match step
    case SweepCache(_, _) => t
    case SweepLimiters(now) => t.(limiters := LiveLimiters(t.limiters, now))
    case SweepConnections(wall) => t.(conn := LiveConnections(t.conn, wall))
    case RefillBucket(key, tokens) =>
      if key in t.limiters then
        t.(limiters := t.limiters[key := t.limiters[key].(bucket := t.limiters[key].bucket.Refill(tokens))])
      else t
  }

  function CachedStep(rs: Ruleset, s: State, step: Step): Outcome {
    match step
    case Packet(p, chain, now, wall, kept) =>
      var key := KeyOf(rs, p, chain);
      if key in s.cache then Hit(s, s.cache[key], p, now, wall)
      else Miss(rs, s, p, chain, now, wall, kept)
    case SweepCache(now, kept) =>
      Done(s.(cache := Sweep(s.cache, now, kept)), None)
    case _ =>
      Done(s.(tables := Housekeep(s.tables, step)), None)
  }

  /** The processor without a cache: the same tables, and a full scan for each packet. */
  function ReferenceStep(rs: Ruleset, t: Tables, step: Step): (Tables, Option<AclResult>) {
    match step
    case Packet(p, chain, now, wall, _) =>
      var d := Decide(rs, t, p, chain, now, wall);
      (d.tables, Some(d.result))
    case _ => (Housekeep(t, step), None)
  }
}
