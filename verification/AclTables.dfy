/** What the tables beside the cache mean over many packets: connections, counters and token buckets. */
module AclTables {
  import opened Prelude
  import opened Net
  import opened AclModel
  import opened AclAgreement

  lemma WrapAdds(a: nat, b: nat)
    ensures Wrap64(Wrap64(a) + b) == Wrap64(a + b)
  {
  }

  // ----- Connections -----

  /** A packet that reached connection tracking. */
  datatype Visit = Visit(p: PacketInfo, wall: u64)

  function BytesOf(visits: seq<Visit>): nat {
    if visits == [] then 0 else BytesOf(visits[..|visits| - 1]) + visits[|visits| - 1].p.size
  }

  /** A packet is tracked if a stateful rule allows it and no limit drops it. */
  predicate Tracked(rs: Ruleset, t: Tables, p: PacketInfo, chain: ChainType, now: nat, wall: u64) {
    && chain != UnspecifiedChain && Decide(rs, t, p, chain, now, wall).complete
    && var i := ScanFrom(rs.Rules(chain), p, 0);
       i < |rs.Rules(chain)| && rs.Rules(chain)[i].stateful && rs.Rules(chain)[i].action == Allow
  }

  predicate Idle(mine: seq<Visit>, wall: u64) {
    mine != [] && Wrap64(wall - mine[|mine| - 1].wall) > 60
  }

  /** How a step changes the visits of a flow: its own tracked packets add to them, a sweep forgets an idle flow. */
  function NextVisits(rs: Ruleset, t: Tables, step: Step, key: FlowKey, mine: seq<Visit>): seq<Visit> {
    match step
    case Packet(p, chain, now, wall, _) =>
      if Tracked(rs, t, p, chain, now, wall) && FlowKeyOf(p) == key then mine + [Visit(p, wall)] else mine
    case SweepConnections(wall) => if Idle(mine, wall) then [] else mine
    case _ => mine
  }

  /** The visits of a flow at the end of a run. */
  function VisitsAfter(rs: Ruleset, t: Tables, steps: seq<Step>, key: FlowKey, mine: seq<Visit>): seq<Visit>
    decreases |steps|
  {
    if steps == [] then mine
    else VisitsAfter(rs, ReferenceStep(rs, t, steps[0]).0, steps[1..], key, NextVisits(rs, t, steps[0], key, mine))
  }

  /** An entry that sums up the visits of its flow: the first opened it, the last was seen last, all count. */
  predicate SumsUp(e: ConnTrackEntry, mine: seq<Visit>) {
    && mine != []
    && var first, last := mine[0], mine[|mine| - 1];
       && e.src == SocketAddr(first.p.srcIp, first.p.srcPort.GetOr(0))
       && e.dst == SocketAddr(first.p.dstIp, first.p.dstPort.GetOr(0))
       && e.protocol == first.p.protocol
       && e.createdAt == first.wall && e.lastSeen == last.wall
       && e.packets == Wrap64(|mine|) && e.bytes == Wrap64(BytesOf(mine))
       && e.state == if |mine| == 1 then New else Established
  }

  /** The flow is tracked exactly if it has visits, and then its entry sums them up. */
  predicate Holds(conn: Connections, key: FlowKey, mine: seq<Visit>) {
    (key in conn <==> mine != []) && (key in conn ==> SumsUp(conn[key], mine))
  }

  lemma FirstVisit(conn: Connections, p: PacketInfo, wall: u64)
    requires Holds(conn, FlowKeyOf(p), [])
    ensures Holds(Track(conn, FlowKeyOf(p), p, wall), FlowKeyOf(p), [Visit(p, wall)])
  {
    assert BytesOf([Visit(p, wall)]) == p.size;
  }

  lemma OneMoreVisit(conn: Connections, mine: seq<Visit>, p: PacketInfo, wall: u64)
    requires Holds(conn, FlowKeyOf(p), mine) && mine != []
    ensures Holds(Track(conn, FlowKeyOf(p), p, wall), FlowKeyOf(p), mine + [Visit(p, wall)])
  {
    assert (mine + [Visit(p, wall)])[..|mine|] == mine;
    WrapAdds(|mine|, 1);
    WrapAdds(BytesOf(mine), p.size);
  }

  /** What a packet does to the connection table. */
  lemma PacketTracks(rs: Ruleset, t: Tables, p: PacketInfo, chain: ChainType, now: nat, wall: u64)
    ensures Decide(rs, t, p, chain, now, wall).tables.conn
         == if Tracked(rs, t, p, chain, now, wall) then Track(t.conn, FlowKeyOf(p), p, wall) else t.conn
  {
  }

  lemma StepHolds(rs: Ruleset, t: Tables, step: Step, key: FlowKey, mine: seq<Visit>)
    requires Holds(t.conn, key, mine)
    ensures Holds(ReferenceStep(rs, t, step).0.conn, key, NextVisits(rs, t, step, key, mine))
  {
    if step.Packet? {
      var Packet(p, chain, now, wall, _) := step;
      PacketTracks(rs, t, p, chain, now, wall);
      if Tracked(rs, t, p, chain, now, wall) && FlowKeyOf(p) == key {
        if mine == [] {
          FirstVisit(t.conn, p, wall);
          assert mine + [Visit(p, wall)] == [Visit(p, wall)];
        } else {
          OneMoreVisit(t.conn, mine, p, wall);
        }
      }
    }
  }

  /**
   Over every run, with its sweeps and however flows interleave, a flow is tracked exactly while it has visits
   that no sweep has found idle, and its entry sums up those visits and no others.
   */
  lemma {:induction false} TrackingSumsUp(rs: Ruleset, t: Tables, steps: seq<Step>, key: FlowKey, mine: seq<Visit>)
    requires Holds(t.conn, key, mine)
    ensures Holds(RunReference(rs, t, steps).0.conn, key, VisitsAfter(rs, t, steps, key, mine))
    decreases |steps|
  {
    if steps != [] {
      StepHolds(rs, t, steps[0], key, mine);
      TrackingSumsUp(rs, ReferenceStep(rs, t, steps[0]).0, steps[1..], key, NextVisits(rs, t, steps[0], key, mine));
    }
  }

  // ----- Counters -----

  function CounterOf(counters: Counters, id: CounterId): Counter {
    if id in counters then counters[id] else Counter(0, 0)
  }

  /** The size added up once for each of `m` times. */
  function Times(m: nat, size: nat): nat {
    if m == 0 then 0 else Times(m - 1, size) + size
  }

  lemma IncrementOne(counters: Counters, last: CounterId, size: u64, id: CounterId, packets: nat, bytes: nat)
    requires CounterOf(counters, id) == Counter(Wrap64(packets), Wrap64(bytes))
    ensures CounterOf(Increment(counters, last, size), id)
         == if id == last then Counter(Wrap64(packets + 1), Wrap64(bytes + size)) else Counter(Wrap64(packets), Wrap64(bytes))
  {
    WrapAdds(packets, 1);
    WrapAdds(bytes, size);
  }

  /** How often a counter is listed. */
  function Listings(ids: seq<CounterId>, id: CounterId): nat {
    if ids == [] then 0 else Listings(ids[..|ids| - 1], id) + if ids[|ids| - 1] == id then 1 else 0
  }

  /** A packet counts once for each time its entry lists a counter. */
  lemma {:induction false} CountsEachListing(counters: Counters, ids: seq<CounterId>, size: u64, id: CounterId)
    ensures var was, m := CounterOf(counters, id), Listings(ids, id);
      CounterOf(IncrementAll(counters, ids, size), id) == Counter(Wrap64(was.packets + m), Wrap64(was.bytes + Times(m, size)))
  {
    if ids != [] {
      var earlier, last := ids[..|ids| - 1], ids[|ids| - 1];
      var was, m := CounterOf(counters, id), Listings(earlier, id);
      CountsEachListing(counters, earlier, size, id);
      IncrementOne(IncrementAll(counters, earlier, size), last, size, id, was.packets + m, was.bytes + Times(m, size));
    }
  }

  /** The counter of the deciding rule, or of the default action. */
  function OwnCounter(rs: Ruleset, chain: ChainType, p: PacketInfo): CounterId {
    var i := ScanFrom(rs.Rules(chain), p, 0);
    if i < |rs.Rules(chain)| then RuleCounter(chain, i) else DefaultCounter
  }

  predicate Limited(rs: Ruleset, chain: ChainType, p: PacketInfo) {
    var i := ScanFrom(rs.Rules(chain), p, 0);
    i < |rs.Rules(chain)| && rs.Rules(chain)[i].rateLimit > 0
  }

  lemma OwnListings(own: CounterId, id: CounterId)
    ensures Listings([own], id) == if id == own then 1 else 0
    ensures Listings([own, own], id) == if id == own then 2 else 0
  {
    assert [own][..0] == [] && [own, own][..1] == [own];
  }

  /** A packet that is not dropped by a limit counts once, or twice under a limited rule, and nowhere else. */
  lemma PacketCounts(rs: Ruleset, t: Tables, p: PacketInfo, chain: ChainType, now: nat, wall: u64, id: CounterId)
    requires chain != UnspecifiedChain && Decide(rs, t, p, chain, now, wall).complete
    ensures var was := CounterOf(t.counters, id);
      var m := if id != OwnCounter(rs, chain, p) then 0 else if Limited(rs, chain, p) then 2 else 1;
      CounterOf(Decide(rs, t, p, chain, now, wall).tables.counters, id)
      == Counter(Wrap64(was.packets + m), Wrap64(was.bytes + Times(m, p.size)))
  {
    var stats, own := EntryFor(rs, chain, p, now).stats, OwnCounter(rs, chain, p);
    assert stats == if Limited(rs, chain, p) then [own, own] else [own];
    OwnListings(own, id);
    CountsEachListing(t.counters, stats, p.size, id);
  }

  // ----- Token buckets -----

  datatype BucketStep = Draw | Add(tokens: nat)

  /** The bucket after some steps, and how many draws were granted. */
  function BucketAfter(b: TokenBucket, steps: seq<BucketStep>): (TokenBucket, nat) {
    if steps == [] then (b, 0)
    else
      var (earlier, granted) := BucketAfter(b, steps[..|steps| - 1]);
      match steps[|steps| - 1]
      case Add(tokens) => (earlier.Refill(tokens), granted)
      case Draw =>
        var (after, ok) := earlier.TryConsume();
        (after, if ok then granted + 1 else granted)
  }

  function Added(steps: seq<BucketStep>): nat {
    if steps == [] then 0
    else
      var last := steps[|steps| - 1];
      Added(steps[..|steps| - 1]) + if last.Add? then last.tokens else 0
  }

  /** Tokens are never made up: grants and what is left stay within what was there and what was added. */
  lemma {:induction false} TokensAreConserved(b: TokenBucket, steps: seq<BucketStep>)
    requires b.available <= b.capacity
    ensures var (after, granted) := BucketAfter(b, steps);
      after.capacity == b.capacity && after.available <= after.capacity
      && granted + after.available <= b.available + Added(steps)
  {
    if steps != [] {
      TokensAreConserved(b, steps[..|steps| - 1]);
    }
  }

  /** Without a refill exactly the first `available` draws are granted. */
  lemma {:induction false} BurstIsExact(b: TokenBucket, steps: seq<BucketStep>)
    requires b.available <= b.capacity && forall i :: 0 <= i < |steps| ==> steps[i] == Draw
    ensures var (after, granted) := BucketAfter(b, steps);
      granted == (if |steps| < b.available then |steps| else b.available)
      && after == b.(available := b.available - granted)
  {
    if steps != [] {
      BurstIsExact(b, steps[..|steps| - 1]);
    }
  }

  /** A refill makes good what was drawn, up to the capacity: so many later draws are granted and no more. */
  lemma {:induction false} RefillGrants(b: TokenBucket, n: nat, draws: seq<BucketStep>)
    requires b.available <= b.capacity && forall i :: 0 <= i < |draws| ==> draws[i] == Draw
    ensures var (after, granted) := BucketAfter(b, [Add(n)] + draws);
      var full := if b.available + n < b.capacity then b.available + n else b.capacity;
      granted == (if |draws| < full then |draws| else full) && after == b.(available := full - granted)
  {
    var steps := [Add(n)] + draws;
    if draws == [] {
      assert steps[..0] == [];
    } else {
      assert steps[..|steps| - 1] == [Add(n)] + draws[..|draws| - 1];
      RefillGrants(b, n, draws[..|draws| - 1]);
    }
  }
}
