/** Upkeep of the packet filter: what sweeps keep, how large the flow cache gets, and what the statistics count. */
module AclUpkeep {
  import opened Prelude
  import opened AclModel
  import opened AclAgreement

  // ----- Sweeps -----

  /**
   A sweep of the cache drops every entry of 15 seconds or more. If at most 1024 are younger it keeps them
   all; otherwise it keeps 820, none of them older than one it drops.
   */
  lemma SweepKeepsYoungest(cache: Cache, now: nat, kept: set<CacheKey>)
    requires now >= 15_000_000_000 && EvictsOldest(cache, now, kept)
    ensures var young := set k | k in cache && now - cache[k].createdAt < 15_000_000_000;
            var after := Sweep(cache, now, kept);
            && after.Keys <= young && (forall k :: k in after ==> after[k] == cache[k])
            && (|young| <= 1024 ==> after.Keys == young)
            && (|young| > 1024 ==> |after| == 820)
            && forall k, d :: k in after && d in young && d !in after ==> cache[d].createdAt <= cache[k].createdAt
  {
    var young := set k | k in cache && now - cache[k].createdAt < 15_000_000_000;
    var live, after := Unexpired(cache, now), Sweep(cache, now, kept);
    assert live.Keys == young;
    if |live| > 1024 {
      assert after.Keys == kept;
    }
  }

  /** A limiter is dropped after 20 idle seconds, a connection after more than 60 by the wall clock. */
  lemma SweepsDropTheIdle(t: Tables, now: nat, wall: u64)
    ensures var limiters := Housekeep(t, SweepLimiters(now)).limiters;
            && (forall k :: k in limiters <==> k in t.limiters && now - t.limiters[k].lastUpdate < 20_000_000_000)
            && (forall k :: k in limiters ==> limiters[k] == t.limiters[k])
    ensures var conn := Housekeep(t, SweepConnections(wall)).conn;
            && (forall k :: k in conn ==> k in t.conn && conn[k] == t.conn[k])
            && (forall k :: k in t.conn && t.conn[k].lastSeen <= wall ==> (k in conn <==> wall - t.conn[k].lastSeen <= 60))
  {
  }

  // ----- The size of the cache -----

  /** Where a step sweeps the cache, it keeps the youngest. */
  ghost predicate KeepsYoungest(rs: Ruleset, s: State, step: Step) {
    match step
    case Packet(p, chain, now, _, kept) => EvictsOldest(s.cache[KeyOf(rs, p, chain) := EntryFor(rs, chain, p, now)], now, kept)
    case SweepCache(now, kept) => EvictsOldest(s.cache, now, kept)
    case _ => true
  }

  ghost predicate AllKeepYoungest(rs: Ruleset, s: State, steps: seq<Step>)
    decreases |steps|
  {
    steps != [] ==>
      && KeepsYoungest(rs, s, steps[0])
      && (CachedStep(rs, s, steps[0]).Done? ==> AllKeepYoungest(rs, CachedStep(rs, s, steps[0]).state, steps[1..]))
  }

  lemma SweepShrinks(cache: Cache, now: nat, kept: set<CacheKey>)
    requires EvictsOldest(cache, now, kept)
    ensures |Sweep(cache, now, kept)| <= 1024
  {
    var live, after := Unexpired(cache, now), Sweep(cache, now, kept);
    if |live| > 1024 {
      assert after.Keys == kept;
    }
  }

  lemma InsertGrowsByOne(cache: Cache, key: CacheKey, entry: CacheEntry)
    ensures |cache[key := entry]| <= |cache| + 1
  {
    assert cache[key := entry].Keys == cache.Keys + {key};
  }

  lemma StepBoundsCache(rs: Ruleset, s: State, step: Step)
    requires KeepsYoungest(rs, s, step) && |s.cache| <= 2048 && CachedStep(rs, s, step).Done?
    ensures |CachedStep(rs, s, step).state.cache| <= 2048
  {
    match step
    case Packet(p, chain, now, wall, kept) =>
      var key, entry := KeyOf(rs, p, chain), EntryFor(rs, chain, p, now);
      InsertGrowsByOne(s.cache, key, entry);
      SweepShrinks(s.cache[key := entry], now, kept);
    case SweepCache(now, kept) => SweepShrinks(s.cache, now, kept);
    case _ =>
  }

  /** Over every run the flow cache holds at most 2048 entries. */
  lemma {:induction false} RunBoundsCache(rs: Ruleset, s: State, steps: seq<Step>)
    requires |s.cache| <= 2048 && AllKeepYoungest(rs, s, steps) && RunCached(rs, s, steps).Ran?
    ensures |RunCached(rs, s, steps).state.cache| <= 2048
    decreases |steps|
  {
    if steps != [] {
      StepBoundsCache(rs, s, steps[0]);
      RunBoundsCache(rs, CachedStep(rs, s, steps[0]).state, steps[1..]);
    }
  }

  // ----- Statistics -----

  function One(b: bool): nat {
    if b then 1 else 0
  }

  /** What a miss adds to the statistics, by the result of the packet. */
  predicate CountedBy(before: Stats, after: Stats, context: LogContext) {
    && after.cacheHits == before.cacheHits
    && after.ruleMatches == Wrap64(before.ruleMatches + One(context.StatefulMatch? || context.RuleMatch?))
    && after.defaultDrops == Wrap64(before.defaultDrops + One(context == DefaultDrop))
    && after.defaultAllows == Wrap64(before.defaultAllows + One(context == DefaultAllow))
  }

  lemma UncountedIsKept(stats: Stats, context: LogContext)
    ensures context == RateLimitDrop || context == UnsupportedChainType ==> CountedBy(stats, stats, context)
  {
  }

  lemma RuleIsCounted(stats: Stats, chain: ChainType, i: nat, rule: FastLookupRule, p: PacketInfo, now: nat)
    ensures var entry := RuleEntry(chain, i, rule, p, now);
            entry.result.Some? && CountedBy(stats, CountMiss(stats, entry), entry.result.value.logContext)
  {
  }

  lemma DefaultIsCounted(stats: Stats, action: Action, now: nat)
    ensures var entry := DefaultEntry(action, now);
            entry.result.Some? && CountedBy(stats, CountMiss(stats, entry), entry.result.value.logContext)
  {
  }

  lemma EntryIsCounted(rs: Ruleset, stats: Stats, p: PacketInfo, chain: ChainType, now: nat)
    ensures var entry := EntryFor(rs, chain, p, now);
            entry.result.Some? && CountedBy(stats, CountMiss(stats, entry), entry.result.value.logContext)
  {
    var rules := rs.Rules(chain);
    var i := ScanFrom(rules, p, 0);
    if i < |rules| {
      RuleIsCounted(stats, chain, i, rules[i], p, now);
    } else {
      DefaultIsCounted(stats, rs.DefaultAction(chain), now);
    }
  }

  lemma DecisionContext(rs: Ruleset, t: Tables, p: PacketInfo, chain: ChainType, now: nat, wall: u64)
    ensures var d := Decide(rs, t, p, chain, now, wall);
            if d.complete then EntryFor(rs, chain, p, now).result == Some(d.result)
            else d.result.logContext == RateLimitDrop || d.result.logContext == UnsupportedChainType
  {
  }

  /**
   A packet whose key is cached counts as a hit and as nothing else. Any other counts by what it was told: as a
   rule match, a default drop or a default allow, and not at all if a scan dropped it for its rate or its chain.
   */
  lemma PacketIsCountedByItsResult(rs: Ruleset, s: State, step: Step)
    requires step.Packet? && CachedStep(rs, s, step).Done?
    ensures var Done(s', r) := CachedStep(rs, s, step);
            && r.Some?
            && if KeyOf(rs, step.p, step.chain) in s.cache
               then s'.stats == s.stats.(cacheHits := Wrap64(s.stats.cacheHits + 1))
               else CountedBy(s.stats, s'.stats, r.value.logContext)
  {
    if KeyOf(rs, step.p, step.chain) !in s.cache {
      var Done(s', r) := CachedStep(rs, s, step);
      DecisionContext(rs, s.tables, step.p, step.chain, step.now, step.wall);
      EntryIsCounted(rs, s.stats, step.p, step.chain, step.now);
      UncountedIsKept(s.stats, r.value.logContext);
    }
  }
}
