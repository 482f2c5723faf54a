/** The server's mutable state under its mutex: the announce store and the rate limits. */
module TrackerServer {
  import opened Prelude
  import opened Net
  import opened Rotation
  import opened TrackerStore
  import Rate = RateLimit

  /** The sum of the sizes of all swarms. */
  method CountEntries(swarms: map<Id, Swarm>) returns (n: nat)
    ensures n == Total(swarms)
  {
    n := 0;
    var rest := swarms.Keys;
    while rest != {}
      invariant rest <= swarms.Keys && n + TotalOver(swarms, rest) == Total(swarms)
      decreases |rest|
    {
      var h :| h in rest;
      TotalSplit(swarms, rest, h);
      n := n + |swarms[h]|;
      rest := rest - {h};
    }
  }

  lemma VisitKey(swarm: Swarm, all: set<Key>, rest: set<Key>, k: Key)
    requires all <= swarm.Keys && rest <= swarm.Keys && k in rest
    ensures multiset(Addresses(swarm, all * rest))
         == (if k in all then multiset{swarm[k].address} else multiset{}) + multiset(Addresses(swarm, all * (rest - {k})))
  {
    if k in all {
      AddressesSplit(swarm, all * rest, k);
      assert all * rest - {k} == all * (rest - {k});
    } else {
      assert all * rest == all * (rest - {k});
    }
  }

  /** The addresses of the eligible entries, visited in any order. */
  method CollectPeers(swarm: Swarm, c: Call) returns (peers: seq<SocketAddr>)
    ensures multiset(peers) == multiset(Addresses(swarm, EligibleKeys(swarm, c)))
  {
    ghost var all := EligibleKeys(swarm, c);
    peers := [];
    var rest := swarm.Keys;
    assert all * rest == all;
    while rest != {}
      invariant rest <= swarm.Keys
      invariant multiset(peers) + multiset(Addresses(swarm, all * rest)) == multiset(Addresses(swarm, all))
      decreases rest
    {
      var k :| k in rest;
      VisitKey(swarm, all, rest, k);
      if Eligible(swarm, k, c) {
        peers := peers + [swarm[k].address];
      }
      rest := rest - {k};
    }
    assert all * {} == {};
  }

  /** Sorting forgets the order of the visit. */
  lemma SortForgetsOrder(s: seq<SocketAddr>, t: seq<SocketAddr>)
    requires multiset(s) == multiset(t)
    ensures Sort(s) == Sort(t)
  {
    SortOk(s);
    SortOk(t);
    SortedIsUnique(Sort(s), Sort(t));
  }

  /** The page of the eligible addresses that the clock selects. */
  method SelectPeers(swarm: Swarm, c: Call) returns (peers: seq<SocketAddr>)
    ensures peers == Page(Sort(Addresses(swarm, EligibleKeys(swarm, c))), Limit(c), c.unix)
  {
    var limit := if c.announce.numwant < 0 || c.announce.numwant > MAX_PEERS then MAX_PEERS else c.announce.numwant;
    if limit == 0 {
      return [];
    }
    peers := CollectPeers(swarm, c);
    SortForgetsOrder(peers, Addresses(swarm, EligibleKeys(swarm, c)));
    peers := Sort(peers);
    if peers != [] {
      var offset := c.unix % |peers|;
      peers := peers[offset..] + peers[..offset];
    }
    if |peers| > limit {
      peers := peers[..limit];
    }
  }

  class Server {
    const interval: u32
    var swarms: map<Id, Swarm>
    var entries: int
    var cleanup: nat
    var rateSecond: nat
    var rates: map<IpAddr, nat>
    var requests: nat
    var responseBytes: nat

    ghost function Contents(): Store
      reads this
    {
      Store(swarms, entries, cleanup)
    }

    ghost function Limits(): Rate.Rates
      reads this
    {
      Rate.Rates(rateSecond, rates, requests, responseBytes)
    }

    ghost predicate Valid()
      reads this
    {
      StoreOk(Contents()) && Rate.RatesOk(Limits())
    }

    constructor (interval: u32, now: nat)
      ensures Valid() && this.interval == interval
      ensures Contents() == Store(map[], 0, now) && Limits() == Rate.START
    {
      this.interval := interval;
      swarms, entries, cleanup := map[], 0, now;
      rateSecond, rates, requests, responseBytes := 0, map[], 0, 0;
    }

    method Admit(source: IpAddr, now: nat) returns (admitted: bool)
      requires Valid()
      modifies this
      ensures (Limits(), admitted) == Rate.Admit(old(Limits()), source, now)
      ensures Contents() == old(Contents())
      ensures Valid()
    {
      Rate.AdmitKeepsRatesOk(Limits(), source, now);
      var ip := Rate.Normalise(source);
      if rateSecond != now {
        rateSecond, requests, responseBytes, rates := now, 0, 0, map[];
      }
      if requests >= Rate.MAX_REQUESTS {
        return false;
      }
      if ip !in rates && |rates| >= Rate.MAX_SOURCES {
        return false;
      }
      var count := if ip in rates then rates[ip] else 0;
      if count >= Rate.MAX_PER_SOURCE {
        return false;
      }
      rates := rates[ip := count + 1];
      requests := requests + 1;
      return true;
    }

    method AdmitResponse(bytes: nat) returns (granted: bool)
      requires Valid()
      modifies this
      ensures Valid() && Contents() == old(Contents())
      ensures (Limits(), granted) == Rate.Grant(old(Limits()), bytes)
    {
      if responseBytes + bytes > Rate.MAX_BYTES {
        return false;
      }
      responseBytes := responseBytes + bytes;
      return true;
    }

    /** Drops what has expired, everywhere when due and in the announced swarm always. */
    method Expire(c: Call)
      modifies this`swarms, this`entries, this`cleanup
      ensures Contents() == Prepared(old(Contents()), c)
    {
      var h := c.announce.hash;
      var full := entries >= MAX_ENTRIES || |swarms| >= MAX_SWARMS || (h in swarms && |swarms[h]| >= MAX_SWARM_ENTRIES);
      if c.elapsed >= 30 * SECOND || (full && c.again >= SECOND) {
        swarms := Sweep(swarms, c.now);
        entries := CountEntries(swarms);
        cleanup := c.now;
      }
      assert Contents() == Swept(old(Contents()), c);
      if h in swarms {
        var live := Live(swarms[h], c.now);
        var removed := |swarms[h]| - |live|;
        swarms := swarms[h := live];
        entries := entries - removed;
      }
    }

    method Stop(c: Call)
      modifies this`swarms, this`entries
      ensures Contents() == Left(old(Contents()), c)
    {
      var h, k := c.announce.hash, KeyOf(c);
      if h in swarms && k in swarms[h] && swarms[h][k].address.ip == c.source {
        swarms := swarms[h := swarms[h] - {k}];
        entries := entries - 1;
      }
    }

    /** Opens the swarm if there is room for it, then stores the entry if there is room for that. */
    method Join(c: Call) returns (joined: bool)
      modifies this`swarms, this`entries
      ensures var s, h := old(Contents()), c.announce.hash;
        if h !in s.swarms && |s.swarms| >= MAX_SWARMS then !joined && Contents() == s
        else joined == Fits(Opened(s, h), c) && Contents() == if joined then Joined(Opened(s, h), c) else Opened(s, h)
    {
      var h, k := c.announce.hash, KeyOf(c);
      if h !in swarms {
        if |swarms| >= MAX_SWARMS {
          return false;
        }
        swarms := swarms[h := map[]];
      }
      var unknown := k !in swarms[h];
      if unknown && !(entries < MAX_ENTRIES && |swarms[h]| < MAX_SWARM_ENTRIES) {
        return false;
      }
      if unknown {
        entries := entries + 1;
      }
      swarms := swarms[h := swarms[h][k := Entry(k.address, c.now + Lifetime(c))]];
      return true;
    }

    method Process(c: Call) returns (r: Outcome)
      modifies this`swarms, this`entries, this`cleanup
      ensures (Contents(), r) == Step(old(Contents()), c)
    {
      if c.announce.port == 0 || c.announce.event > STOPPED {
        return Refused;
      }
      Expire(c);
      if c.announce.event == STOPPED {
        Stop(c);
        return Accepted([]);
      }
      var joined := Join(c);
      if !joined {
        return Refused;
      }
      var peers := SelectPeers(swarms[c.announce.hash], c);
      return Accepted(peers);
    }

    /** Every announce keeps the counters exact and the limits. */
    method Announce(c: Call) returns (r: Outcome)
      requires Valid() && c.interval == interval
      modifies this`swarms, this`entries, this`cleanup
      ensures (Contents(), r) == Step(old(Contents()), c)
      ensures Valid()
    {
      StepKeepsStoreOk(Contents(), c);
      r := Process(c);
    }
  }
}
