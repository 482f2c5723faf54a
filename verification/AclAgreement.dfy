/**
 Whole runs of the packet filter. A cache hit never meets a missing bucket exactly when the two halves
 of a cleanup tick are at most five seconds apart, and the cached processor agrees with the rule scan
 exactly when flows that share a cache key agree on which ports are present.
 */
module AclAgreement {
  import opened Prelude
  import opened Net
  import opened AclModel

  datatype Trace = Crashed | Ran(state: State, results: seq<Option<AclResult>>)

  function RunCached(rs: Ruleset, s: State, steps: seq<Step>): Trace
    decreases |steps|
  {
    if steps == [] then Ran(s, [])
    else
      match CachedStep(rs, s, steps[0])
      case Panic => Crashed
      case Done(s', r) =>
        match RunCached(rs, s', steps[1..])
        case Crashed => Crashed
        case Ran(s'', rest) => Ran(s'', [r] + rest)
  }

  function RunReference(rs: Ruleset, t: Tables, steps: seq<Step>): (Tables, seq<Option<AclResult>>)
    decreases |steps|
  {
    if steps == [] then (t, [])
    else
      var (t', r) := ReferenceStep(rs, t, steps[0]);
      var (t'', rest) := RunReference(rs, t', steps[1..]);
      (t'', [r] + rest)
  }

  /** A processor starts with an empty cache; the other tables may survive from an earlier one. */
  function Start(t: Tables): State {
    State(t, map[], Stats(0, 0, 0, 0))
  }

  // ----- Time -----

  function ClockAfter(step: Step, clock: nat): nat {
    match step
    case Packet(_, _, now, _, _) => now
    case SweepCache(now, _) => now
    case SweepLimiters(now) => now
    case _ => clock
  }

  function SweptAfter(step: Step, swept: Option<nat>): Option<nat> {
    if step.SweepCache? then Some(step.now) else swept
  }

  /**
   Monotonic time, and every limiter sweep at most `gap` after the cache sweep of its own tick.
   Packets may fall between the two halves of a tick.
   */
  predicate Timely(steps: seq<Step>, clock: nat, swept: Option<nat>, gap: nat) {
    steps == [] ||
    (&& clock <= ClockAfter(steps[0], clock)
     && (steps[0].SweepLimiters? ==> swept.Some? && steps[0].now <= swept.value + gap)
     && Timely(steps[1..], ClockAfter(steps[0], clock), SweptAfter(steps[0], swept), gap))
  }

  // ----- Buckets outlive the entries that need them -----

  /** The margin between the lifetime of a bucket and that of a cache entry. */
  const MARGIN: nat := LIMITER_LIFETIME - CACHE_LIFETIME

  ghost predicate EntryAlive(e: CacheEntry, limiters: Limiters, clock: nat, swept: Option<nat>) {
    && e.result.Some?
    && e.createdAt <= clock
    && (swept.Some? ==> swept.value < e.createdAt + CACHE_LIFETIME)
    && forall rk :: rk in e.rateKeys ==> rk in limiters && e.createdAt <= limiters[rk].lastUpdate
  }

  ghost predicate Alive(s: State, clock: nat, swept: Option<nat>) {
    forall k :: k in s.cache ==> EntryAlive(s.cache[k], s.tables.limiters, clock, swept)
  }

  /** Entries stay alive when every bucket stays in place and is stamped no earlier than now. */
  ghost predicate Renewed(a: Limiters, b: Limiters, now: nat) {
    forall rk :: rk in a ==> rk in b && (b[rk].lastUpdate == a[rk].lastUpdate || b[rk].lastUpdate == now)
  }

  lemma {:induction false} DrawRenews(limiters: Limiters, keys: seq<RateLimitKey>, now: nat)
    requires forall rk :: rk in keys ==> rk in limiters
    ensures DrawAll(limiters, keys, now).Some?
    ensures Renewed(limiters, DrawAll(limiters, keys, now).value.0, now)
  {
    if keys != [] {
      var first := CheckRateLimit(limiters, keys[0], 1, 1, false, now);
      assert keys[0] in keys;
      if first.value.1 {
        DrawRenews(first.value.0, keys[1..], now);
      }
    }
  }

  lemma RenewedKeepsAlive(s: State, limiters: Limiters, clock: nat, now: nat, swept: Option<nat>)
    requires Alive(s, clock, swept) && clock <= now
    requires Renewed(s.tables.limiters, limiters, now)
    ensures forall k :: k in s.cache ==> EntryAlive(s.cache[k], limiters, now, swept)
  {}

  lemma HitKeepsAlive(s: State, entry: CacheEntry, p: PacketInfo, clock: nat, now: nat, wall: u64, swept: Option<nat>)
    requires Alive(s, clock, swept) && clock <= now && EntryAlive(entry, s.tables.limiters, clock, swept)
    ensures Hit(s, entry, p, now, wall).Done?
    ensures Alive(Hit(s, entry, p, now, wall).state, now, swept)
  {
    DrawRenews(s.tables.limiters, entry.rateKeys, now);
    RenewedKeepsAlive(s, DrawAll(s.tables.limiters, entry.rateKeys, now).value.0, clock, now, swept);
  }

  lemma PacketKeepsAlive(rs: Ruleset, s: State, step: Step, clock: nat, swept: Option<nat>)
    requires step.Packet? && Alive(s, clock, swept) && clock <= step.now
    requires swept.Some? ==> swept.value <= clock
    ensures CachedStep(rs, s, step).Done?
    ensures Alive(CachedStep(rs, s, step).state, step.now, swept)
  {
    var Packet(p, chain, now, wall, kept) := step;
    var key := KeyOf(rs, p, chain);
    if key in s.cache {
      HitKeepsAlive(s, s.cache[key], p, clock, now, wall, swept);
    } else {
      var d := Decide(rs, s.tables, p, chain, now, wall);
      RenewedKeepsAlive(s, d.tables.limiters, clock, now, swept);
      if d.complete {
        assert EntryAlive(EntryFor(rs, chain, p, now), d.tables.limiters, now, swept);
      }
    }
  }

  lemma StepKeepsAlive(rs: Ruleset, s: State, step: Step, clock: nat, swept: Option<nat>)
    requires Alive(s, clock, swept) && (swept.Some? ==> swept.value <= clock)
    requires Timely([step], clock, swept, MARGIN)
    ensures CachedStep(rs, s, step).Done?
    ensures Alive(CachedStep(rs, s, step).state, ClockAfter(step, clock), SweptAfter(step, swept))
  {
    if step.Packet? {
      PacketKeepsAlive(rs, s, step, clock, swept);
    }
  }

  /** Over every timely run no cache hit finds its bucket gone or its result missing. */
  lemma {:induction false} RunKeepsAlive(rs: Ruleset, s: State, steps: seq<Step>, clock: nat, swept: Option<nat>)
    requires Alive(s, clock, swept) && (swept.Some? ==> swept.value <= clock)
    requires Timely(steps, clock, swept, MARGIN)
    ensures RunCached(rs, s, steps).Ran?
    decreases |steps|
  {
    if steps != [] {
      assert Timely([steps[0]], clock, swept, MARGIN);
      StepKeepsAlive(rs, s, steps[0], clock, swept);
      RunKeepsAlive(rs, CachedStep(rs, s, steps[0]).state, steps[1..],
                    ClockAfter(steps[0], clock), SweptAfter(steps[0], swept));
    }
  }

  // ----- Five seconds is exactly the margin -----

  ghost predicate PanicFree(gap: nat) {
    forall rs, t, steps :: Timely(steps, 0, None, gap) ==> RunCached(rs, Start(t), steps).Ran?
  }

  const PLAIN: FastLookupRule := FastLookupRule(0, Any, [], [], [], [], {}, {}, Allow, false, 0, 0)

  /** One inbound rule, every other vector empty, and Allow by default. */
  function OneRule(rule: FastLookupRule): Ruleset {
    Ruleset([rule], [], [], Allow, Allow, Allow)
  }

  /** A limited packet, a cache sweep just before its entry expires, a late limiter sweep, the packet again. */
  function LateSweep(p: PacketInfo, gap: nat): seq<Step> {
    var sweep := 2 * CACHE_LIFETIME - 1;
    [Packet(p, Inbound, CACHE_LIFETIME, 0, {}), SweepCache(sweep, {}),
     SweepLimiters(sweep + gap), Packet(p, Inbound, sweep + gap, 0, {})]
  }

  const LIMITED: FastLookupRule := PLAIN.(rateLimit := 1, burstLimit := 1)

  lemma LateSweepIsTimely(p: PacketInfo, gap: nat)
    ensures Timely(LateSweep(p, gap), 0, None, gap)
  {
    var steps := LateSweep(p, gap);
    assert steps[1..][1..] == steps[2..] && steps[2..][1..] == steps[3..] && steps[3..][1..] == [];
    assert steps[1..][0] == steps[1] && steps[2..][0] == steps[2] && steps[3..][0] == steps[3];
    assert Timely(steps[3..], steps[2].now, Some(steps[1].now), gap);
    assert Timely(steps[2..], steps[1].now, Some(steps[1].now), gap);
  }

  /** The first packet is cached with its bucket, which was stamped at that moment. */
  lemma LimitedIsCached(p: PacketInfo, t: Tables, now: nat)
    requires t.limiters == map[]
    ensures var rs := OneRule(LIMITED);
      var r := CachedStep(rs, Start(t), Packet(p, Inbound, now, 0, {}));
      && r.Done? && r.state.cache == map[KeyOf(rs, p, Inbound) := EntryFor(rs, Inbound, p, now)]
      && EntryFor(rs, Inbound, p, now).rateKeys == [RateLimitKey(Inbound, 0)]
      && RateLimitKey(Inbound, 0) in r.state.tables.limiters
      && r.state.tables.limiters[RateLimitKey(Inbound, 0)].lastUpdate == now
  {
    assert OneRule(LIMITED).Rules(Inbound)[0] == LIMITED;
    assert RuleMatches(LIMITED, p);
  }

  /** The cache sweep keeps an entry that has not expired; the late limiter sweep drops its bucket. */
  lemma LateSweepDropsBucket(rs: Ruleset, s: State, key: CacheKey, bucket: RateLimitKey, at: nat, sweep: nat, late: nat)
    requires key in s.cache && s.cache.Keys == {key} && s.cache[key].createdAt == at
    requires CACHE_LIFETIME <= sweep < at + CACHE_LIFETIME
    requires bucket in s.tables.limiters && s.tables.limiters[bucket].lastUpdate == at && late >= at + LIMITER_LIFETIME
    ensures var s2 := CachedStep(rs, s, SweepCache(sweep, {})).state;
      var s3 := CachedStep(rs, s2, SweepLimiters(late)).state;
      key in s3.cache && s3.cache[key] == s.cache[key] && bucket !in s3.tables.limiters
  {
    assert Unexpired(s.cache, sweep) == s.cache;
    assert |s.cache| == |s.cache.Keys| == 1;
  }

  lemma LateSweepCrashes(p: PacketInfo, t: Tables, gap: nat)
    requires gap > MARGIN && t.limiters == map[]
    ensures RunCached(OneRule(LIMITED), Start(t), LateSweep(p, gap)).Crashed?
  {
    var rs, steps := OneRule(LIMITED), LateSweep(p, gap);
    var key, bucket := KeyOf(rs, p, Inbound), RateLimitKey(Inbound, 0);
    LimitedIsCached(p, t, CACHE_LIFETIME);
    var s1 := CachedStep(rs, Start(t), steps[0]).state;
    LateSweepDropsBucket(rs, s1, key, bucket, CACHE_LIFETIME, steps[1].now, steps[2].now);
    var s2 := CachedStep(rs, s1, steps[1]).state;
    var s3 := CachedStep(rs, s2, steps[2]).state;
    assert CachedStep(rs, s3, steps[3]) == Panic;
    assert RunCached(rs, s3, [steps[3]]).Crashed?;
    assert [steps[2], steps[3]][1..] == [steps[3]];
    assert RunCached(rs, s2, [steps[2], steps[3]]).Crashed?;
    assert [steps[1], steps[2], steps[3]][1..] == [steps[2], steps[3]];
    assert RunCached(rs, s1, [steps[1], steps[2], steps[3]]).Crashed?;
    assert steps[1..] == [steps[1], steps[2], steps[3]];
  }

  const SAMPLE: PacketInfo :=
    PacketInfo(V4([10, 0, 0, 1]), V4([10, 0, 0, 2]), Some(40000), Some(443), Tcp, 1200, [], [])

  /** The processor never panics if and only if the halves of a tick are within the margin. */
  lemma PanicFreeExactly(gap: nat)
    ensures PanicFree(gap) <==> gap <= MARGIN
  {
    if gap <= MARGIN {
      forall rs, t, steps | Timely(steps, 0, None, gap)
        ensures RunCached(rs, Start(t), steps).Ran?
      {
        TimelyWidens(steps, 0, None, gap, MARGIN);
        RunKeepsAlive(rs, Start(t), steps, 0, None);
      }
    } else {
      var t := Tables(map[], map[], map[]);
      LateSweepIsTimely(SAMPLE, gap);
      LateSweepCrashes(SAMPLE, t, gap);
    }
  }

  lemma {:induction false} TimelyWidens(steps: seq<Step>, clock: nat, swept: Option<nat>, gap: nat, wider: nat)
    requires gap <= wider && Timely(steps, clock, swept, gap)
    ensures Timely(steps, clock, swept, wider)
    decreases |steps|
  {
    if steps != [] {
      TimelyWidens(steps[1..], ClockAfter(steps[0], clock), SweptAfter(steps[0], swept), gap, wider);
    }
  }

  // ----- The cache agrees with the scan -----

  /** The flow fields of a cache key that no configuration can leave out. */
  predicate SameFlow(p: PacketInfo, q: PacketInfo) {
    FlowKeyOf(p) == FlowKeyOf(q)
  }

  predicate SamePresence(p: PacketInfo, q: PacketInfo) {
    p.srcPort.Some? == q.srcPort.Some? && p.dstPort.Some? == q.dstPort.Some?
  }

  /** Over the packets of `U`, the flow decides which ports are present. */
  ghost predicate PortsDetermined(U: PacketInfo -> bool) {
    forall p, q :: U(p) && U(q) && SameFlow(p, q) ==> SamePresence(p, q)
  }

  /** `p0` explains the cached entry `e` under key `k`. */
  ghost predicate Explains(rs: Ruleset, U: PacketInfo -> bool, k: CacheKey, e: CacheEntry, p0: PacketInfo) {
    && U(p0)
    && k.chain != UnspecifiedChain
    && k == KeyOf(rs, p0, k.chain)
    && e == EntryFor(rs, k.chain, p0, e.createdAt)
  }

  ghost predicate Sound(rs: Ruleset, U: PacketInfo -> bool, cache: Cache) {
    forall k :: k in cache ==> exists p0 :: Explains(rs, U, k, cache[k], p0)
  }

  lemma RuleIn(rs: Ruleset, chain: ChainType, i: nat)
    requires i < |rs.Rules(chain)|
    ensures rs.Rules(chain)[i] in rs.All()
  {
    var at := match chain case Outbound => |rs.inbound| + i case Forward => |rs.inbound| + |rs.outbound| + i case _ => i;
    assert rs.All()[at] == rs.Rules(chain)[i];
  }

  /** Groups may be left out of the key when no compiled rule names any. */
  lemma SameKeySameMatch(rs: Ruleset, chain: ChainType, p: PacketInfo, q: PacketInfo, i: nat)
    requires i < |rs.Rules(chain)|
    requires KeyOf(rs, p, chain) == KeyOf(rs, q, chain) && SamePresence(p, q)
    ensures RuleMatches(rs.Rules(chain)[i], p) == RuleMatches(rs.Rules(chain)[i], q)
  {
    RuleIn(rs, chain, i);
    assert p.srcPort == q.srcPort && p.dstPort == q.dstPort;
  }

  lemma SameKeySameEntry(rs: Ruleset, chain: ChainType, p: PacketInfo, q: PacketInfo, t0: nat, t1: nat)
    requires KeyOf(rs, p, chain) == KeyOf(rs, q, chain) && SamePresence(p, q)
    ensures EntryFor(rs, chain, p, t0).(createdAt := t1) == EntryFor(rs, chain, q, t1)
    ensures ScanFrom(rs.Rules(chain), p, 0) == ScanFrom(rs.Rules(chain), q, 0)
  {
    forall i | 0 <= i < |rs.Rules(chain)|
      ensures RuleMatches(rs.Rules(chain)[i], p) == RuleMatches(rs.Rules(chain)[i], q)
    {
      SameKeySameMatch(rs, chain, p, q, i);
    }
  }

  /** Replaying an entry whose buckets exist has the effect and the verdict of the scan it records. */
  lemma ReplayMatchesScan(rs: Ruleset, s: State, entry: CacheEntry, p: PacketInfo, chain: ChainType, now: nat, wall: u64)
    requires chain != UnspecifiedChain
    requires entry.(createdAt := now) == EntryFor(rs, chain, p, now)
    requires forall rk :: rk in entry.rateKeys ==> rk in s.tables.limiters
    ensures var out := Hit(s, entry, p, now, wall);
            var d := Decide(rs, s.tables, p, chain, now, wall);
            && out.Done? && out.state.tables == d.tables
            && out.result.Some? && SameVerdict(out.result.value, d.result)
  {
    var rules := rs.Rules(chain);
    var i := ScanFrom(rules, p, 0);
    if i < |rules| && rules[i].rateLimit > 0 {
      var rk := RateLimitKey(chain, rules[i].priority);
      assert entry.rateKeys == [rk] && rk in entry.rateKeys;
      assert DrawAll(s.tables.limiters, entry.rateKeys, now) ==
             CheckRateLimit(s.tables.limiters, rk, rules[i].rateLimit, rules[i].burstLimit, true, now);
    } else {
      assert entry.rateKeys == [];
    }
  }

  /** Every entry that a packet of `U` can hit records the scan of that very packet. */
  lemma HitIsExplained(rs: Ruleset, U: PacketInfo -> bool, cache: Cache, p: PacketInfo, chain: ChainType, now: nat)
    requires PortsDetermined(U) && U(p) && Sound(rs, U, cache)
    requires KeyOf(rs, p, chain) in cache
    ensures chain != UnspecifiedChain
    ensures cache[KeyOf(rs, p, chain)].(createdAt := now) == EntryFor(rs, chain, p, now)
  {
    var key := KeyOf(rs, p, chain);
    var p0 :| Explains(rs, U, key, cache[key], p0);
    assert SameFlow(p0, p);
    SameKeySameEntry(rs, chain, p0, p, cache[key].createdAt, now);
  }

  ghost predicate StepIn(step: Step, U: PacketInfo -> bool) {
    step.Packet? ==> U(step.p)
  }

  /** Sweeps and insertions only ever drop old entries. */
  lemma InsertOnlyDrops(cache: Cache, key: CacheKey, entry: CacheEntry, now: nat, kept: set<CacheKey>, k: CacheKey)
    requires k in Insert(cache, key, entry, now, kept)
    ensures k == key || k in cache
    ensures Insert(cache, key, entry, now, kept)[k] == if k == key then entry else cache[k]
  {}

  lemma MissKeepsSound(rs: Ruleset, U: PacketInfo -> bool, s: State, step: Step)
    requires step.Packet? && U(step.p) && Sound(rs, U, s.cache)
    ensures Sound(rs, U, Miss(rs, s, step.p, step.chain, step.now, step.wall, step.kept).state.cache)
  {
    var Packet(p, chain, now, wall, kept) := step;
    var key, entry := KeyOf(rs, p, chain), EntryFor(rs, chain, p, now);
    if Decide(rs, s.tables, p, chain, now, wall).complete {
      var cache := Insert(s.cache, key, entry, now, kept);
      forall k | k in cache
        ensures exists p0 :: Explains(rs, U, k, cache[k], p0)
      {
        InsertOnlyDrops(s.cache, key, entry, now, kept, k);
        if k == key {
          assert Explains(rs, U, key, entry, p);
        }
      }
    }
  }

  lemma StepAgrees(rs: Ruleset, U: PacketInfo -> bool, s: State, step: Step, clock: nat, swept: Option<nat>)
    requires PortsDetermined(U) && StepIn(step, U) && Sound(rs, U, s.cache)
    requires Alive(s, clock, swept) && CachedStep(rs, s, step).Done?
    ensures var out := CachedStep(rs, s, step);
            var (t, r) := ReferenceStep(rs, s.tables, step);
            && Sound(rs, U, out.state.cache)
            && out.state.tables == t
            && out.result.Some? == r.Some?
            && (r.Some? ==> SameVerdict(out.result.value, r.value))
  {
    if step.Packet? {
      var key := KeyOf(rs, step.p, step.chain);
      if key in s.cache {
        HitIsExplained(rs, U, s.cache, step.p, step.chain, step.now);
        ReplayMatchesScan(rs, s, s.cache[key], step.p, step.chain, step.now, step.wall);
      } else {
        MissKeepsSound(rs, U, s, step);
      }
    }
  }

  ghost predicate SameVerdicts(a: seq<Option<AclResult>>, b: seq<Option<AclResult>>) {
    && |a| == |b|
    && forall i :: 0 <= i < |a| ==> a[i].Some? == b[i].Some? && (a[i].Some? ==> SameVerdict(a[i].value, b[i].value))
  }

  /** The cached run ends, and its verdicts and its three tables are those of the reference run. */
  ghost predicate Matches(cached: Trace, reference: (Tables, seq<Option<AclResult>>)) {
    && cached.Ran?
    && cached.state.tables == reference.0
    && SameVerdicts(cached.results, reference.1)
  }

  lemma MatchesExtends(rs: Ruleset, s: State, steps: seq<Step>, s': State, r: Option<AclResult>, r': Option<AclResult>)
    requires steps != [] && CachedStep(rs, s, steps[0]) == Done(s', r)
    requires ReferenceStep(rs, s.tables, steps[0]) == (s'.tables, r')
    requires SameVerdicts([r], [r'])
    requires Matches(RunCached(rs, s', steps[1..]), RunReference(rs, s'.tables, steps[1..]))
    ensures Matches(RunCached(rs, s, steps), RunReference(rs, s.tables, steps))
  {}

  lemma {:induction false} RunAgrees(rs: Ruleset, U: PacketInfo -> bool, s: State, steps: seq<Step>, clock: nat, swept: Option<nat>)
    requires PortsDetermined(U) && Sound(rs, U, s.cache)
    requires forall i :: 0 <= i < |steps| ==> StepIn(steps[i], U)
    requires Alive(s, clock, swept) && (swept.Some? ==> swept.value <= clock)
    requires Timely(steps, clock, swept, MARGIN)
    ensures Matches(RunCached(rs, s, steps), RunReference(rs, s.tables, steps))
    decreases |steps|
  {
    if steps != [] {
      var step := steps[0];
      assert Timely([step], clock, swept, MARGIN);
      StepKeepsAlive(rs, s, step, clock, swept);
      StepAgrees(rs, U, s, step, clock, swept);
      var Done(s', r) := CachedStep(rs, s, step);
      var r' := ReferenceStep(rs, s.tables, step).1;
      RunAgrees(rs, U, s', steps[1..], ClockAfter(step, clock), SweptAfter(step, swept));
      MatchesExtends(rs, s, steps, s', r, r');
    }
  }

  // ----- Exactly when -----

  /** Every configuration, every table left behind, every timely run over packets of `U`. */
  ghost predicate Agrees(U: PacketInfo -> bool) {
    forall rs, t, steps ::
      Timely(steps, 0, None, MARGIN) && (forall i :: 0 <= i < |steps| ==> StepIn(steps[i], U)) ==>
        Matches(RunCached(rs, Start(t), steps), RunReference(rs, t, steps))
  }

  /** Port 0 and no port share a cache key, but only the former is held against a port condition. */
  function Separator(p: PacketInfo, q: PacketInfo): FastLookupRule {
    if p.srcPort.Some? != q.srcPort.Some? then PLAIN.(action := Drop, srcPorts := [PortRange(1, 1)])
    else PLAIN.(action := Drop, dstPorts := [PortRange(1, 1)])
  }

  lemma SeparatorSeparates(p: PacketInfo, q: PacketInfo)
    requires SameFlow(p, q) && !SamePresence(p, q)
    ensures var rs := OneRule(Separator(p, q));
            && KeyOf(rs, p, Inbound) == KeyOf(rs, q, Inbound)
            && EntryFor(rs, Inbound, p, 0).result.value.action != EntryFor(rs, Inbound, q, 0).result.value.action
  {
    var rule := Separator(p, q);
    var rs := OneRule(rule);
    assert rs.Rules(Inbound) == [rule] && rs.All() == [rule];
    assert !PortMatches([PortRange(1, 1)], Some(0)) && PortMatches([PortRange(1, 1)], None);
    assert RuleMatches(rule, p) != RuleMatches(rule, q);
  }

  lemma UnlimitedIsCached(rs: Ruleset, t: Tables, p: PacketInfo)
    requires forall i :: 0 <= i < |rs.inbound| ==> rs.inbound[i].rateLimit == 0
    ensures var r := CachedStep(rs, Start(t), Packet(p, Inbound, 0, 0, {}));
            var entry := EntryFor(rs, Inbound, p, 0);
            r.Done? && r.state.cache == map[KeyOf(rs, p, Inbound) := entry] && entry.rateKeys == []
  {
  }

  /** A second packet on an unlimited flow gets the verdict of the first. */
  lemma SecondPacketReplays(rs: Ruleset, t: Tables, p: PacketInfo, q: PacketInfo)
    requires KeyOf(rs, p, Inbound) == KeyOf(rs, q, Inbound)
    requires forall i :: 0 <= i < |rs.inbound| ==> rs.inbound[i].rateLimit == 0
    ensures var steps := [Packet(p, Inbound, 0, 0, {}), Packet(q, Inbound, 0, 0, {})];
            && RunCached(rs, Start(t), steps).Ran?
            && |RunCached(rs, Start(t), steps).results| == 2
            && RunCached(rs, Start(t), steps).results[1] == EntryFor(rs, Inbound, p, 0).result
  {
    var a, b := Packet(p, Inbound, 0, 0, {}), Packet(q, Inbound, 0, 0, {});
    UnlimitedIsCached(rs, t, p);
    var Done(s1, r1) := CachedStep(rs, Start(t), a);
    var Done(s2, r2) := CachedStep(rs, s1, b);
    TwoSteps(rs, Start(t), a, s1, r1, b, s2, r2);
  }

  lemma TwoSteps(rs: Ruleset, s: State, a: Step, s1: State, r1: Option<AclResult>, b: Step, s2: State, r2: Option<AclResult>)
    requires CachedStep(rs, s, a) == Done(s1, r1) && CachedStep(rs, s1, b) == Done(s2, r2)
    ensures RunCached(rs, s, [a, b]) == Ran(s2, [r1, r2])
  {
    assert [a, b][1..] == [b] && [b][1..] == [];
    assert RunCached(rs, s2, []) == Ran(s2, []);
    assert RunCached(rs, s1, [b]) == Ran(s2, [r2]);
  }

  lemma SecondPacketRescans(rs: Ruleset, t: Tables, p: PacketInfo, q: PacketInfo)
    requires forall i :: 0 <= i < |rs.inbound| ==> rs.inbound[i].rateLimit == 0
    ensures var steps := [Packet(p, Inbound, 0, 0, {}), Packet(q, Inbound, 0, 0, {})];
            && |RunReference(rs, t, steps).1| == 2
            && RunReference(rs, t, steps).1[1] == EntryFor(rs, Inbound, q, 0).result
  {
    var a, b := Packet(p, Inbound, 0, 0, {}), Packet(q, Inbound, 0, 0, {});
    assert [a, b][1..] == [b] && [b][1..] == [];
    var (t1, r1) := ReferenceStep(rs, t, a);
    var (t2, r2) := ReferenceStep(rs, t1, b);
    assert RunReference(rs, t2, []) == (t2, []);
    assert RunReference(rs, t1, [b]).1 == [r2];
  }

  lemma SharedKeyDisagrees(p: PacketInfo, q: PacketInfo, t: Tables)
    requires SameFlow(p, q) && !SamePresence(p, q)
    ensures var rs := OneRule(Separator(p, q));
            var steps := [Packet(p, Inbound, 0, 0, {}), Packet(q, Inbound, 0, 0, {})];
            && Timely(steps, 0, None, MARGIN)
            && !Matches(RunCached(rs, Start(t), steps), RunReference(rs, t, steps))
  {
    var rs := OneRule(Separator(p, q));
    var steps := [Packet(p, Inbound, 0, 0, {}), Packet(q, Inbound, 0, 0, {})];
    assert Timely(steps[1..], 0, None, MARGIN);
    SeparatorSeparates(p, q);
    SecondPacketReplays(rs, t, p, q);
    SecondPacketRescans(rs, t, p, q);
  }

  /**
   The cached processor and the rule scan agree on every run over `U` if and only if flows of `U`
   determine port presence.
   */
  lemma AgreesExactly(U: PacketInfo -> bool)
    ensures Agrees(U) <==> PortsDetermined(U)
  {
    if PortsDetermined(U) {
      forall rs, t, steps | Timely(steps, 0, None, MARGIN) && (forall i :: 0 <= i < |steps| ==> StepIn(steps[i], U))
        ensures Matches(RunCached(rs, Start(t), steps), RunReference(rs, t, steps))
      {
        RunAgrees(rs, U, Start(t), steps, 0, None);
      }
    } else {
      var p, q :| U(p) && U(q) && SameFlow(p, q) && !SamePresence(p, q);
      SharedKeyDisagrees(p, q, Tables(map[], map[], map[]));
    }
  }

  /** Packets as the filter extracts them: ports for TCP and UDP and for nothing else. */
  predicate Extracted(p: PacketInfo) {
    var ports := p.protocol == Tcp || p.protocol == Udp;
    p.srcPort.Some? == ports && p.dstPort.Some? == ports
  }

  /** So for the packets the filter builds the cache is never visible. */
  lemma ExtractedPacketsAgree()
    ensures Agrees(Extracted)
  {
    AgreesExactly(Extracted);
  }
}
