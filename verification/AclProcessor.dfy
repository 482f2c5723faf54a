/** The processor as it runs: shared tables updated in place, proved against the steps of `AclModel`. */
module AclProcessor {
  import opened Prelude
  import opened Net
  import opened AclModel

  class Processor {
    const rules: Ruleset
    const needsSrcGroups: bool
    const needsDstGroups: bool
    var conn: Connections
    var limiters: Limiters
    var counters: Counters
    var cache: Cache
    var stats: Stats

    ghost predicate Valid()
      reads this
    {
      && needsSrcGroups == rules.NeedsSrcGroups()
      && needsDstGroups == rules.NeedsDstGroups()
      && |cache| <= CACHE_MAX_SIZE * 2
    }

    ghost function View(): State
      reads this
    {
      State(Tables(conn, limiters, counters), cache, stats)
    }

    /** Connections, buckets and statistics may be inherited; the cache always starts empty. */
    constructor (rules: Ruleset, conn: Connections, limiters: Limiters, stats: Stats)
      ensures Valid() && this.rules == rules
      ensures View() == State(Tables(conn, limiters, map[]), map[], stats)
    {
      this.rules := rules;
      this.needsSrcGroups := rules.NeedsSrcGroups();
      this.needsDstGroups := rules.NeedsDstGroups();
      this.conn := conn;
      this.limiters := limiters;
      this.counters := map[];
      this.cache := map[];
      this.stats := stats;
    }

    method CheckConnectionState(key: FlowKey, p: PacketInfo, wall: u64)
      modifies this`conn
      ensures conn == Track(old(conn), key, p, wall)
    {
      if key in conn {
        var e := conn[key];
        conn := conn[key := e.(lastSeen := wall, packets := Wrap64(e.packets + 1),
                               bytes := Wrap64(e.bytes + p.size), state := Established)];
      } else {
        var src := SocketAddr(p.srcIp, p.srcPort.GetOr(0));
        var dst := SocketAddr(p.dstIp, p.dstPort.GetOr(0));
        conn := conn[key := ConnTrackEntry(src, dst, p.protocol, New, wall, wall, 1, p.size)];
      }
    }

    /** Returns None for the panic on a bucket that may not be created. */
    method DrawToken(key: RateLimitKey, rate: u32, burst: u32, allowCreate: bool, now: nat) returns (granted: Option<bool>)
      modifies this`limiters
      ensures var spec := CheckRateLimit(old(limiters), key, rate, burst, allowCreate, now);
              && granted.Some? == spec.Some?
              && (spec.Some? ==> (limiters, granted.value) == spec.value)
    {
      if rate == 0 {
        return Some(true);
      }
      if key !in limiters {
        if !allowCreate {
          return None;
        }
        limiters := limiters[key := Limiter(TokenBucket(burst, burst), now)];
      }
      var (bucket, ok) := limiters[key].bucket.TryConsume();
      limiters := limiters[key := Limiter(bucket, now)];
      assert limiters == old(limiters)[key := Limiter(bucket, now)];
      return Some(ok);
    }

    method IncrementStats(entry: CacheEntry, p: PacketInfo)
      modifies this`counters
      ensures counters == IncrementAll(old(counters), entry.stats, p.size)
    {
      var i := 0;
      while i < |entry.stats|
        invariant 0 <= i <= |entry.stats|
        invariant counters == IncrementAll(old(counters), entry.stats[..i], p.size)
      {
        counters := Increment(counters, entry.stats[i], p.size);
        assert entry.stats[..i + 1][..i] == entry.stats[..i];
        i := i + 1;
      }
      assert entry.stats[..i] == entry.stats;
    }

    /** Expires old entries, then removes the oldest ones while the cache is over its limit. */
    method CleanupCache(now: nat) returns (ghost kept: set<CacheKey>)
      modifies this`cache
      ensures cache == Sweep(old(cache), now, kept)
      ensures EvictsOldest(old(cache), now, kept)
      ensures |cache| <= CACHE_MAX_SIZE
    {
      cache := map k | k in cache && cache[k].createdAt > ExpiryPoint(now) :: cache[k];
      kept := cache.Keys;
      if |cache| <= CACHE_MAX_SIZE {
        return;
      }
      ghost var live := cache;
      assert live == Unexpired(old(cache), now);
      var toRemove := |cache| - CACHE_MAX_SIZE + CACHE_MAX_SIZE / 5;
      while toRemove > 0
        invariant toRemove >= 0
        invariant |cache| == toRemove + CACHE_MAX_SIZE - CACHE_MAX_SIZE / 5
        invariant cache.Keys <= live.Keys
        invariant forall k :: k in cache ==> cache[k] == live[k]
        invariant forall gone, stays :: gone in live && gone !in cache && stays in cache ==>
                    live[gone].createdAt <= live[stays].createdAt
      {
        OldestExists(cache);
        var oldest :| oldest in cache && forall k :: k in cache ==> cache[oldest].createdAt <= cache[k].createdAt;
        ghost var before := cache;
        cache := cache - {oldest};
        assert cache.Keys == before.Keys - {oldest};
        toRemove := toRemove - 1;
      }
      kept := cache.Keys;
      assert |cache| == |cache.Keys|;
      assert cache == map k | k in live && k in kept :: live[k];
    }

    method CacheResult(key: CacheKey, entry: CacheEntry, now: nat) returns (ghost kept: set<CacheKey>)
      modifies this`cache
      ensures cache == Insert(old(cache), key, entry, now, kept)
      ensures OverflowEvictsOldest(old(cache), key, entry, now, kept)
      ensures |cache| <= CACHE_MAX_SIZE * 2
    {
      cache := cache[key := entry];
      kept := {};
      if |cache| > CACHE_MAX_SIZE * 2 {
        kept := CleanupCache(now);
      }
    }

    /** Replays a cache entry. None is the panic on a missing bucket or a missing result. */
    method ProcessWithCacheEntry(p: PacketInfo, entry: CacheEntry, now: nat, wall: u64) returns (r: Option<AclResult>)
      modifies this`limiters, this`conn, this`counters
      ensures var spec := Hit(old(View()), entry, p, now, wall);
              && (spec.Panic? <==> r.None?)
              && (spec.Done? ==>
                    && r == spec.result
                    && View().(stats := stats.(cacheHits := Wrap64(stats.cacheHits + 1))) == spec.state)
    {
      var i := 0;
      while i < |entry.rateKeys|
        invariant 0 <= i <= |entry.rateKeys|
        invariant conn == old(conn) && counters == old(counters)
        invariant DrawAll(old(limiters), entry.rateKeys, now) == DrawAll(limiters, entry.rateKeys[i..], now)
      {
        var granted := DrawToken(entry.rateKeys[i], 1, 1, false, now);
        assert entry.rateKeys[i..][1..] == entry.rateKeys[i + 1..];
        if granted.None? {
          return None;
        }
        if !granted.value {
          return Some(RateLimited(entry.matchedRule));
        }
        i := i + 1;
      }
      if entry.connKey.Some? {
        CheckConnectionState(entry.connKey.value, p, wall);
      }
      IncrementStats(entry, p);
      r := entry.result;
    }

    /** One packet. The release build aborts where this returns None. */
    method ProcessPacket(p: PacketInfo, chain: ChainType, now: nat, wall: u64)
      returns (r: Option<AclResult>, ghost kept: set<CacheKey>)
      requires Valid()
      modifies this
      ensures var spec := CachedStep(rules, old(View()), Packet(p, chain, now, wall, kept));
              && (spec.Panic? <==> r.None?)
              && (spec.Done? ==> View() == spec.state && r == spec.result)
      ensures r.Some? ==> Valid()
      ensures Inserts(rules, old(View()), p, chain, now, wall) ==>
                OverflowEvictsOldest(old(cache), KeyOf(rules, p, chain), EntryFor(rules, chain, p, now), now, kept)
    {
      kept := {};
      var key := CacheKey(chain, p.protocol, p.srcIp, p.dstIp, p.srcPort.GetOr(0), p.dstPort.GetOr(0),
                          if needsSrcGroups then Some(p.srcGroups) else None,
                          if needsDstGroups then Some(p.dstGroups) else None);
      assert key == KeyOf(rules, p, chain);
      if key in cache {
        r := ProcessWithCacheEntry(p, cache[key], now, wall);
        stats := stats.(cacheHits := Wrap64(stats.cacheHits + 1));
        return;
      }
      if chain == UnspecifiedChain {
        r := Some(AclResult(Drop, Default, UnsupportedChainType));
        return;
      }
      var vector := rules.Rules(chain);
      var i := 0;
      while i < |vector|
        invariant 0 <= i <= |vector|
        invariant View() == old(View())
        invariant ScanFrom(vector, p, 0) == ScanFrom(vector, p, i)
      {
        if RuleMatches(vector[i], p) {
          r, kept := ApplyRule(key, chain, i, p, now, wall);
          return;
        }
        i := i + 1;
      }
      r, kept := ApplyDefault(key, chain, p, now, wall);
    }

    /** The body of the scan loop for the first matching rule. */
    method ApplyRule(key: CacheKey, chain: ChainType, i: nat, p: PacketInfo, now: nat, wall: u64)
      returns (r: Option<AclResult>, ghost kept: set<CacheKey>)
      requires Valid() && key == KeyOf(rules, p, chain) && chain != UnspecifiedChain
      requires i < |rules.Rules(chain)| && ScanFrom(rules.Rules(chain), p, 0) == i
      modifies this
      ensures Miss(rules, old(View()), p, chain, now, wall, kept) == Done(View(), r) && r.Some? && Valid()
      ensures Decide(rules, old(View()).tables, p, chain, now, wall).complete ==>
                OverflowEvictsOldest(old(cache), key, EntryFor(rules, chain, p, now), now, kept)
    {
      kept := {};
      ghost var was := View();
      var rule := rules.Rules(chain)[i];
      var granted, entry := LimitRule(chain, i, rule, now);
      ghost var drawn := limiters;
      if !granted {
        r := Some(AclResult(Drop, Priority(rule.priority), RateLimitDrop));
        MissDropped(rules, was, p, chain, now, wall, kept, i, drawn);
        return;
      }
      r, kept := CommitRule(key, chain, i, entry, p, now, wall);
      MissGranted(rules, was, p, chain, now, wall, kept, i, drawn);
    }

    /** Draws a token if the rule is limited, and notes its bucket and counter. */
    method LimitRule(chain: ChainType, i: nat, rule: FastLookupRule, now: nat) returns (granted: bool, entry: CacheEntry)
      modifies this`limiters
      ensures entry == Unmatched(chain, i, rule, now)
      ensures CheckRateLimit(old(limiters), RateLimitKey(chain, rule.priority), rule.rateLimit, rule.burstLimit, true, now)
           == Some((limiters, granted))
    {
      entry := CacheEntry(Default, now, None, [], None, []);
      granted := true;
      if rule.rateLimit > 0 {
        var rateKey := RateLimitKey(chain, rule.priority);
        entry := entry.(rateKeys := entry.rateKeys + [rateKey], stats := entry.stats + [RuleCounter(chain, i)]);
        var drawn := DrawToken(rateKey, rule.rateLimit, rule.burstLimit, true, now);
        granted := drawn.value;
      }
    }

    /** Tracks, counts and caches a match that passed its rate limit. */
    method CommitRule(key: CacheKey, chain: ChainType, i: nat, limited: CacheEntry, p: PacketInfo, now: nat, wall: u64)
      returns (r: Option<AclResult>, ghost kept: set<CacheKey>)
      requires i < |rules.Rules(chain)| && ScanFrom(rules.Rules(chain), p, 0) == i
      requires limited == Unmatched(chain, i, rules.Rules(chain)[i], now)
      modifies this
      ensures var entry := EntryFor(rules, chain, p, now);
              && View() == State(Settle(old(View()).tables, entry, p, wall), Insert(old(cache), key, entry, now, kept),
                                 old(stats).(ruleMatches := Wrap64(old(stats).ruleMatches + 1)))
              && r == entry.result && OverflowEvictsOldest(old(cache), key, entry, now, kept)
      ensures |cache| <= CACHE_MAX_SIZE * 2
    {
      var entry := MatchRule(limited, rules.Rules(chain)[i], RuleCounter(chain, i), p, wall);
      MatchedIsEntry(rules, chain, i, p, now);
      kept := Record(key, entry, p, now);
      r := entry.result;
    }

    /** Completes the entry and tracks the flow of a stateful match. */
    method MatchRule(limited: CacheEntry, rule: FastLookupRule, counter: CounterId, p: PacketInfo, wall: u64)
      returns (entry: CacheEntry)
      requires limited.connKey.None?
      modifies this`conn
      ensures entry == Matched(limited, rule, counter, p)
      ensures conn == if entry.connKey.Some? then Track(old(conn), entry.connKey.value, p, wall) else old(conn)
    {
      entry := limited;
      if rule.stateful && rule.action == Allow {
        var flow := FlowKeyOf(p);
        CheckConnectionState(flow, p, wall);
        entry := entry.(
          stats := entry.stats + [counter],
          matchedRule := Stateful(rule.priority),
          connKey := Some(flow),
          result := Some(AclResult(Allow, Stateful(rule.priority), StatefulMatch(p.srcIp, p.dstIp))));
      } else {
        entry := entry.(
          stats := entry.stats + [counter],
          matchedRule := Priority(rule.priority),
          result := Some(AclResult(rule.action, Priority(rule.priority), RuleMatch(p.srcIp, p.dstIp, rule.action))));
      }
    }

    /** Counts a match and caches its entry. */
    method Record(key: CacheKey, entry: CacheEntry, p: PacketInfo, now: nat) returns (ghost kept: set<CacheKey>)
      modifies this`stats, this`counters, this`cache
      ensures stats == old(stats).(ruleMatches := Wrap64(old(stats).ruleMatches + 1))
      ensures counters == IncrementAll(old(counters), entry.stats, p.size)
      ensures cache == Insert(old(cache), key, entry, now, kept) && OverflowEvictsOldest(old(cache), key, entry, now, kept)
      ensures |cache| <= CACHE_MAX_SIZE * 2
    {
      stats := stats.(ruleMatches := Wrap64(stats.ruleMatches + 1));
      IncrementStats(entry, p);
      kept := CacheResult(key, entry, now);
    }

    /** No rule matched. */
    method ApplyDefault(key: CacheKey, chain: ChainType, p: PacketInfo, now: nat, wall: u64)
      returns (r: Option<AclResult>, ghost kept: set<CacheKey>)
      requires Valid() && key == KeyOf(rules, p, chain) && chain != UnspecifiedChain
      requires ScanFrom(rules.Rules(chain), p, 0) == |rules.Rules(chain)|
      modifies this
      ensures Miss(rules, old(View()), p, chain, now, wall, kept) == Done(View(), r) && r.Some? && Valid()
      ensures OverflowEvictsOldest(old(cache), key, EntryFor(rules, chain, p, now), now, kept)
    {
      var action := rules.DefaultAction(chain);
      if action == Drop {
        stats := stats.(defaultDrops := Wrap64(stats.defaultDrops + 1));
      } else {
        stats := stats.(defaultAllows := Wrap64(stats.defaultAllows + 1));
      }
      var context := if action == Drop then DefaultDrop else DefaultAllow;
      var entry := CacheEntry(Default, now, None, [], Some(AclResult(action, Default, context)), [DefaultCounter]);
      assert stats == CountMiss(old(stats), entry);
      IncrementStats(entry, p);
      kept := CacheResult(key, entry, now);
      r := entry.result;
      MissDefault(rules, old(View()), p, chain, now, wall, kept, entry);
    }

    /** First half of a cleanup tick. */
    method TickCache(now: nat) returns (ghost kept: set<CacheKey>)
      modifies this`cache
      ensures CachedStep(rules, old(View()), SweepCache(now, kept)) == Done(View(), None) && (old(Valid()) ==> Valid())
      ensures EvictsOldest(old(cache), now, kept)
    {
      kept := CleanupCache(now);
    }

    /** Second half of a cleanup tick. */
    method TickLimiters(now: nat)
      modifies this`limiters
      ensures CachedStep(rules, old(View()), SweepLimiters(now)) == Done(View(), None)
    {
      limiters := map k | k in limiters && now < limiters[k].lastUpdate + LIMITER_LIFETIME :: limiters[k];
    }

    /** Collects the expired keys and then removes them one by one. */
    method CleanupExpiredConnections(wall: u64)
      modifies this`conn
      ensures CachedStep(rules, old(View()), SweepConnections(wall)) == Done(View(), None)
    {
      var expired := set k | k in conn && Wrap64(wall - conn[k].lastSeen) > CONNECTION_TIMEOUT;
      ghost var all := expired;
      while expired != {}
        invariant expired <= all
        invariant conn == old(conn) - (all - expired)
        decreases expired
      {
        var key :| key in expired;
        conn := conn - {key};
        expired := expired - {key};
      }
      assert conn == LiveConnections(old(conn), wall);
    }
  }

  lemma {:induction false} OldestExists(cache: Cache)
    requires |cache| > 0
    ensures exists k :: k in cache && forall j :: j in cache ==> cache[k].createdAt <= cache[j].createdAt
    decreases |cache|
  {
    var k :| k in cache;
    var rest := cache - {k};
    assert rest.Keys == cache.Keys - {k};
    if |rest| > 0 {
      OldestExists(rest);
      var m :| m in rest && forall j :: j in rest ==> rest[m].createdAt <= rest[j].createdAt;
      var least := if cache[k].createdAt <= cache[m].createdAt then k else m;
      assert forall j :: j in cache ==> j == k || j in rest;
      assert least in cache && forall j :: j in cache ==> cache[least].createdAt <= cache[j].createdAt;
    } else {
      assert cache.Keys == {k};
    }
  }

  /** A first match whose rate limit, if any, grants a token. */
  /** The entry before anything but the rate limit of its rule is known. */
  function Unmatched(chain: ChainType, i: nat, rule: FastLookupRule, now: nat): CacheEntry {
    if rule.rateLimit > 0
    then CacheEntry(Default, now, None, [RateLimitKey(chain, rule.priority)], None, [RuleCounter(chain, i)])
    else CacheEntry(Default, now, None, [], None, [])
  }

  /** The entry completed for the rule that matched. */
  function Matched(entry: CacheEntry, rule: FastLookupRule, counter: CounterId, p: PacketInfo): CacheEntry {
    if rule.stateful && rule.action == Allow then
      entry.(stats := entry.stats + [counter], matchedRule := Stateful(rule.priority), connKey := Some(FlowKeyOf(p)),
             result := Some(AclResult(Allow, Stateful(rule.priority), StatefulMatch(p.srcIp, p.dstIp))))
    else
      entry.(stats := entry.stats + [counter], matchedRule := Priority(rule.priority),
             result := Some(AclResult(rule.action, Priority(rule.priority), RuleMatch(p.srcIp, p.dstIp, rule.action))))
  }

  lemma MatchedIsEntry(rs: Ruleset, chain: ChainType, i: nat, p: PacketInfo, now: nat)
    requires i < |rs.Rules(chain)| && ScanFrom(rs.Rules(chain), p, 0) == i
    ensures var rule := rs.Rules(chain)[i];
      Matched(Unmatched(chain, i, rule, now), rule, RuleCounter(chain, i), p) == EntryFor(rs, chain, p, now)
  {
    var rule, counter := rs.Rules(chain)[i], RuleCounter(chain, i);
    assert [counter] + [counter] == [counter, counter];
    assert Matched(Unmatched(chain, i, rule, now), rule, counter, p) == RuleEntry(chain, i, rule, p, now);
  }

  /** The packet misses the cache and its entry is stored. */
  predicate Inserts(rs: Ruleset, s: State, p: PacketInfo, chain: ChainType, now: nat, wall: u64) {
    && chain != UnspecifiedChain && KeyOf(rs, p, chain) !in s.cache
    && Decide(rs, s.tables, p, chain, now, wall).complete
  }

  /** If storing the entry overflows the cache, the oldest entries go. */
  ghost predicate OverflowEvictsOldest(cache: Cache, key: CacheKey, entry: CacheEntry, now: nat, kept: set<CacheKey>) {
    |cache[key := entry]| > CACHE_MAX_SIZE * 2 ==> EvictsOldest(cache[key := entry], now, kept)
  }

  lemma MissDefault(rs: Ruleset, s: State, p: PacketInfo, chain: ChainType, now: nat, wall: u64, kept: set<CacheKey>,
                    entry: CacheEntry)
    requires chain != UnspecifiedChain && ScanFrom(rs.Rules(chain), p, 0) == |rs.Rules(chain)|
    requires entry == DefaultEntry(rs.DefaultAction(chain), now)
    ensures entry == EntryFor(rs, chain, p, now)
    ensures Miss(rs, s, p, chain, now, wall, kept) ==
            Done(State(Settle(s.tables, entry, p, wall), Insert(s.cache, KeyOf(rs, p, chain), entry, now, kept),
                       CountMiss(s.stats, entry)), entry.result)
  {}

  lemma MissDropped(rs: Ruleset, s: State, p: PacketInfo, chain: ChainType, now: nat, wall: u64, kept: set<CacheKey>,
                    i: nat, limiters: Limiters)
    requires chain != UnspecifiedChain && i < |rs.Rules(chain)| && ScanFrom(rs.Rules(chain), p, 0) == i
    requires var rule := rs.Rules(chain)[i];
             CheckRateLimit(s.tables.limiters, RateLimitKey(chain, rule.priority), rule.rateLimit, rule.burstLimit, true, now)
               == Some((limiters, false))
    ensures !Decide(rs, s.tables, p, chain, now, wall).complete
    ensures Miss(rs, s, p, chain, now, wall, kept) ==
            Done(s.(tables := s.tables.(limiters := limiters)),
                 Some(AclResult(Drop, Priority(rs.Rules(chain)[i].priority), RateLimitDrop)))
  {}

  lemma MissGranted(rs: Ruleset, s: State, p: PacketInfo, chain: ChainType, now: nat, wall: u64, kept: set<CacheKey>,
                    i: nat, limiters: Limiters)
    requires chain != UnspecifiedChain && i < |rs.Rules(chain)| && ScanFrom(rs.Rules(chain), p, 0) == i
    requires var rule := rs.Rules(chain)[i];
             CheckRateLimit(s.tables.limiters, RateLimitKey(chain, rule.priority), rule.rateLimit, rule.burstLimit, true, now)
               == Some((limiters, true))
    ensures var entry := EntryFor(rs, chain, p, now);
            Miss(rs, s, p, chain, now, wall, kept) ==
            Done(State(Settle(s.tables.(limiters := limiters), entry, p, wall),
                       Insert(s.cache, KeyOf(rs, p, chain), entry, now, kept),
                       s.stats.(ruleMatches := Wrap64(s.stats.ruleMatches + 1))), entry.result)
  {}
}
