/**
 The announce store of the tracker: swarms of entries with derived counters. `Step` is one announce as a
 function of the store and of the readings of the clocks.
 */
module TrackerStore {
  import opened Prelude
  import opened Net
  import opened Rotation

  const MAX_SWARMS: nat := 4096
  const MAX_ENTRIES: nat := 65_536
  const MAX_SWARM_ENTRIES: nat := 256
  const MAX_PEERS: nat := 16
  const IDLE_INTERVAL: u32 := 30
  const SECOND: nat := 1_000_000_000
  const STOPPED: u32 := 3

  type Id = Bytes

  datatype Key = Key(peer: Id, address: SocketAddr)

  datatype Entry = Entry(address: SocketAddr, expires: nat)

  type Swarm = map<Key, Entry>

  datatype Store = Store(swarms: map<Id, Swarm>, entries: int, cleanup: nat)

  datatype Announce = Announce(hash: Id, peer: Id, port: u16, event: u32, left: u64, numwant: int)

  /** One call: the server's interval, the announce, its source and the readings of the clocks. */
  datatype Call = Call(interval: u32, announce: Announce, source: IpAddr, now: nat, elapsed: nat, again: nat, unix: nat)

  datatype Outcome = Refused | Accepted(peers: seq<SocketAddr>)

  // ----- Sizes -----

  function SizeOf(swarms: map<Id, Swarm>, h: Id): nat {
    if h in swarms then |swarms[h]| else 0
  }

  /** The number of entries over the given swarms. */
  ghost function TotalOver(swarms: map<Id, Swarm>, hashes: set<Id>): nat {
    if hashes == {} then 0
    else
      var h :| h in hashes;
      SizeOf(swarms, h) + TotalOver(swarms, hashes - {h})
  }

  ghost function Total(swarms: map<Id, Swarm>): nat {
    TotalOver(swarms, swarms.Keys)
  }

  lemma {:induction false} TotalSplit(swarms: map<Id, Swarm>, hashes: set<Id>, h: Id)
    requires h in hashes
    ensures TotalOver(swarms, hashes) == SizeOf(swarms, h) + TotalOver(swarms, hashes - {h})
    decreases |hashes|
  {
    var g :| g in hashes && TotalOver(swarms, hashes) == SizeOf(swarms, g) + TotalOver(swarms, hashes - {g});
    if g != h {
      TotalSplit(swarms, hashes - {g}, h);
      TotalSplit(swarms, hashes - {h}, g);
      assert hashes - {g} - {h} == hashes - {h} - {g};
    }
  }

  lemma {:induction false} TotalBelow(s: map<Id, Swarm>, t: map<Id, Swarm>, hashes: set<Id>)
    requires forall h :: h in hashes ==> SizeOf(s, h) <= SizeOf(t, h)
    ensures TotalOver(s, hashes) <= TotalOver(t, hashes)
    decreases |hashes|
  {
    if hashes != {} {
      var h :| h in hashes;
      TotalSplit(s, hashes, h);
      TotalSplit(t, hashes, h);
      TotalBelow(s, t, hashes - {h});
    }
  }

  lemma {:induction false} TotalExtra(s: map<Id, Swarm>, hashes: set<Id>, more: set<Id>)
    requires forall h :: h in more ==> SizeOf(s, h) == 0
    ensures TotalOver(s, hashes + more) == TotalOver(s, hashes)
    decreases |more|
  {
    if more == {} {
      assert hashes + more == hashes;
    } else {
      var h :| h in more;
      TotalExtra(s, hashes, more - {h});
      if h in hashes {
        assert hashes + (more - {h}) == hashes + more;
      } else {
        TotalSplit(s, hashes + more, h);
        assert hashes + more - {h} == hashes + (more - {h});
      }
    }
  }

  lemma TotalUpdate(swarms: map<Id, Swarm>, h: Id, s: Swarm)
    ensures Total(swarms[h := s]) == Total(swarms) - SizeOf(swarms, h) + |s|
  {
    var hashes, t := swarms.Keys + {h}, swarms[h := s];
    assert t.Keys == hashes;
    if h in swarms {
      assert hashes == swarms.Keys;
    } else {
      TotalExtra(swarms, swarms.Keys, {h});
    }
    TotalSplit(t, hashes, h);
    TotalSplit(swarms, hashes, h);
    TotalBelow(t, swarms, hashes - {h});
    TotalBelow(swarms, t, hashes - {h});
  }

  // ----- Expiry -----

  /** The entries that outlive `now`. */
  function Live(s: Swarm, now: nat): Swarm {
    map k | k in s && s[k].expires > now :: s[k]
  }

  function Sweep(swarms: map<Id, Swarm>, now: nat): map<Id, Swarm> {
    map h | h in swarms && Live(swarms[h], now) != map[] :: Live(swarms[h], now)
  }

  lemma LiveShrinks(s: Swarm, now: nat)
    ensures |Live(s, now)| <= |s|
  {
    assert Live(s, now).Keys <= s.Keys;
    SubsetIsSmaller(Live(s, now).Keys, s.Keys);
  }

  lemma {:induction false} SubsetIsSmaller<T>(a: set<T>, b: set<T>)
    requires a <= b
    ensures |a| <= |b|
  {
    if a != {} {
      var x :| x in a;
      SubsetIsSmaller(a - {x}, b - {x});
    }
  }

  lemma SweepShrinks(swarms: map<Id, Swarm>, now: nat)
    ensures Total(Sweep(swarms, now)) <= Total(swarms)
  {
    var swept := Sweep(swarms, now);
    assert swept.Keys + (swarms.Keys - swept.Keys) == swarms.Keys;
    TotalExtra(swept, swept.Keys, swarms.Keys - swept.Keys);
    forall h | h in swarms.Keys
      ensures SizeOf(swept, h) <= SizeOf(swarms, h)
    {
      LiveShrinks(swarms[h], now);
    }
    TotalBelow(swept, swarms, swarms.Keys);
  }

  // ----- One announce -----

  predicate Full(s: Store, h: Id) {
    s.entries >= MAX_ENTRIES || |s.swarms| >= MAX_SWARMS || SizeOf(s.swarms, h) >= MAX_SWARM_ENTRIES
  }

  predicate SweepDue(s: Store, c: Call) {
    c.elapsed >= 30 * SECOND || (Full(s, c.announce.hash) && c.again >= SECOND)
  }

  /** Expired entries leave every swarm when a sweep is due, and the announced swarm in any case. */
  ghost function Swept(s: Store, c: Call): Store {
    if SweepDue(s, c) then Store(Sweep(s.swarms, c.now), Total(Sweep(s.swarms, c.now)), c.now) else s
  }

  function Pruned(s: Store, h: Id, now: nat): Store {
    if h !in s.swarms then s
    else
      var live := Live(s.swarms[h], now);
      s.(swarms := s.swarms[h := live], entries := s.entries - (|s.swarms[h]| - |live|))
  }

  ghost function Prepared(s: Store, c: Call): Store {
    Pruned(Swept(s, c), c.announce.hash, c.now)
  }

  function KeyOf(c: Call): Key {
    Key(c.announce.peer, SocketAddr(c.source, c.announce.port))
  }

  function AnnounceInterval(c: Call): (r: u32)
    ensures r >= c.interval && (c.announce.left == 2 ==> r >= 30)
    ensures r == c.interval || (c.announce.left == 2 && r == 30)
  {
    if c.announce.left == 2 && c.interval < IDLE_INTERVAL then IDLE_INTERVAL else c.interval
  }

  /** Three intervals, but at least ten seconds. */
  function Lifetime(c: Call): (r: nat)
    ensures r >= 10 * SECOND && r >= 3 * AnnounceInterval(c) * SECOND
    ensures r == 10 * SECOND || r == 3 * AnnounceInterval(c) * SECOND
  {
    (if AnnounceInterval(c) * 3 < 10 then 10 else AnnounceInterval(c) * 3) * SECOND
  }

  function Left(s: Store, c: Call): Store {
    var h, k := c.announce.hash, KeyOf(c);
    if h in s.swarms && k in s.swarms[h] && s.swarms[h][k].address.ip == c.source
    then s.(swarms := s.swarms[h := s.swarms[h] - {k}], entries := s.entries - 1)
    else s
  }

  /** The swarm exists from here on, even if the entry is then refused. */
  function Opened(s: Store, h: Id): Store {
    if h in s.swarms then s else s.(swarms := s.swarms[h := map[]])
  }

  predicate Fits(s: Store, c: Call)
    requires c.announce.hash in s.swarms
  {
    var swarm := s.swarms[c.announce.hash];
    KeyOf(c) in swarm || (s.entries < MAX_ENTRIES && |swarm| < MAX_SWARM_ENTRIES)
  }

  function Joined(s: Store, c: Call): Store
    requires c.announce.hash in s.swarms
  {
    var h, k := c.announce.hash, KeyOf(c);
    var entry := Entry(k.address, c.now + Lifetime(c));
    s.(swarms := s.swarms[h := s.swarms[h][k := entry]],
       entries := if k in s.swarms[h] then s.entries else s.entries + 1)
  }

  predicate WellFormed(c: Call) {
    c.announce.port != 0 && c.announce.event <= STOPPED
  }

  /** The state an announce leaves behind, and whether it was accepted. */
  ghost function Next(s: Store, c: Call): (Store, bool) {
    if !WellFormed(c) then (s, false)
    else
      var p := Prepared(s, c);
      if c.announce.event == STOPPED then (Left(p, c), true)
      else if c.announce.hash !in p.swarms && |p.swarms| >= MAX_SWARMS then (p, false)
      else
        var o := Opened(p, c.announce.hash);
        if Fits(o, c) then (Joined(o, c), true) else (o, false)
  }

  // ----- The reply -----

  /** Another peer's unexpired entry in the requester's address family. */
  predicate Eligible(s: Swarm, k: Key, c: Call) {
    k in s && k.peer != c.announce.peer && s[k].expires > c.now && s[k].address.ip.V6? == c.source.V6?
  }

  function EligibleKeys(s: Swarm, c: Call): set<Key> {
    set k | k in s && Eligible(s, k, c)
  }

  function Limit(c: Call): (r: nat)
    ensures r <= 16 && (c.announce.numwant >= 0 ==> r <= c.announce.numwant)
    ensures r == 16 || r == c.announce.numwant
  {
    if 0 <= c.announce.numwant < MAX_PEERS then c.announce.numwant else MAX_PEERS
  }

  /** The entries' addresses, in some order. */
  ghost function Addresses(s: Swarm, keys: set<Key>): seq<SocketAddr>
    requires keys <= s.Keys
  {
    if keys == {} then []
    else
      var k :| k in keys;
      [s[k].address] + Addresses(s, keys - {k})
  }

  lemma {:induction false} AddressesSplit(s: Swarm, keys: set<Key>, k: Key)
    requires keys <= s.Keys && k in keys
    ensures multiset(Addresses(s, keys)) == multiset{s[k].address} + multiset(Addresses(s, keys - {k}))
    decreases |keys|
  {
    var g :| g in keys && Addresses(s, keys) == [s[g].address] + Addresses(s, keys - {g});
    if g != k {
      AddressesSplit(s, keys - {g}, k);
      AddressesSplit(s, keys - {k}, g);
      assert keys - {g} - {k} == keys - {k} - {g};
    }
  }

  lemma {:induction false} AddressesOk(s: Swarm, keys: set<Key>, a: SocketAddr)
    requires keys <= s.Keys
    ensures a in Addresses(s, keys) <==> exists k :: k in keys && s[k].address == a
  {
    if keys != {} {
      var k :| k in keys && Addresses(s, keys) == [s[k].address] + Addresses(s, keys - {k});
      AddressesOk(s, keys - {k}, a);
    }
  }

  ghost function Peers(s: Store, c: Call): seq<SocketAddr>
    requires c.announce.hash in s.swarms
  {
    var swarm := s.swarms[c.announce.hash];
    Page(Sort(Addresses(swarm, EligibleKeys(swarm, c))), Limit(c), c.unix)
  }

  ghost function Reply(s: Store, c: Call): Outcome
    requires Next(s, c).1
  {
    if c.announce.event == STOPPED then Accepted([]) else Accepted(Peers(Next(s, c).0, c))
  }

  ghost function Step(s: Store, c: Call): (Store, Outcome) {
    (Next(s, c).0, if Next(s, c).1 then Reply(s, c) else Refused)
  }

  // ----- The invariant -----

  ghost predicate Counted(s: Store) {
    && s.entries == Total(s.swarms) <= MAX_ENTRIES
    && |s.swarms| <= MAX_SWARMS
    && (forall h :: h in s.swarms ==> |s.swarms[h]| <= MAX_SWARM_ENTRIES)
  }

  /** Every entry holds the address in its key. */
  predicate Keyed(s: Store) {
    forall h, k :: h in s.swarms && k in s.swarms[h] ==> s.swarms[h][k].address == k.address
  }

  ghost predicate StoreOk(s: Store) {
    Counted(s) && Keyed(s)
  }

  lemma SweptOk(s: Store, c: Call)
    requires StoreOk(s)
    ensures StoreOk(Swept(s, c))
  {
    var swept := Sweep(s.swarms, c.now);
    SweepShrinks(s.swarms, c.now);
    SubsetIsSmaller(swept.Keys, s.swarms.Keys);
    forall h | h in swept
      ensures |swept[h]| <= MAX_SWARM_ENTRIES
    {
      LiveShrinks(s.swarms[h], c.now);
    }
  }

  /** Replacing one swarm keeps the counts right. */
  lemma UpdateCounted(s: Store, t: Store, h: Id, swarm: Swarm)
    requires Counted(s) && t.swarms == s.swarms[h := swarm]
    requires t.entries == s.entries - SizeOf(s.swarms, h) + |swarm| <= MAX_ENTRIES
    requires |swarm| <= MAX_SWARM_ENTRIES && (h in s.swarms || |s.swarms| < MAX_SWARMS)
    ensures Counted(t)
  {
    TotalUpdate(s.swarms, h, swarm);
    assert t.swarms.Keys == s.swarms.Keys + {h};
  }

  lemma PrunedOk(s: Store, h: Id, now: nat)
    requires StoreOk(s)
    ensures StoreOk(Pruned(s, h, now))
  {
    if h in s.swarms {
      LiveShrinks(s.swarms[h], now);
      UpdateCounted(s, Pruned(s, h, now), h, Live(s.swarms[h], now));
    }
  }

  lemma RemoveSize(s: Swarm, k: Key)
    requires k in s
    ensures |s - {k}| == |s| - 1
  {
    assert (s - {k}).Keys == s.Keys - {k};
  }

  lemma LeftOk(s: Store, c: Call)
    requires StoreOk(s)
    ensures StoreOk(Left(s, c))
  {
    var h, k := c.announce.hash, KeyOf(c);
    if h in s.swarms && k in s.swarms[h] && s.swarms[h][k].address.ip == c.source {
      RemoveSize(s.swarms[h], k);
      UpdateCounted(s, Left(s, c), h, s.swarms[h] - {k});
    }
  }

  lemma OpenedOk(s: Store, h: Id)
    requires StoreOk(s) && (h in s.swarms || |s.swarms| < MAX_SWARMS)
    ensures StoreOk(Opened(s, h))
  {
    if h !in s.swarms {
      UpdateCounted(s, Opened(s, h), h, map[]);
    }
  }

  lemma AddSize(s: Swarm, k: Key, e: Entry)
    ensures |s[k := e]| == if k in s then |s| else |s| + 1
  {
    assert s[k := e].Keys == s.Keys + {k};
  }

  lemma JoinedOk(s: Store, c: Call)
    requires StoreOk(s) && c.announce.hash in s.swarms && Fits(s, c)
    ensures StoreOk(Joined(s, c))
  {
    var h, k := c.announce.hash, KeyOf(c);
    var entry := Entry(k.address, c.now + Lifetime(c));
    AddSize(s.swarms[h], k, entry);
    UpdateCounted(s, Joined(s, c), h, s.swarms[h][k := entry]);
  }

  /** Every announce, accepted or refused, keeps the counts exact and every limit. */
  lemma StepKeepsStoreOk(s: Store, c: Call)
    requires StoreOk(s)
    ensures StoreOk(Next(s, c).0)
  {
    if WellFormed(c) {
      SweptOk(s, c);
      PrunedOk(Swept(s, c), c.announce.hash, c.now);
      var p := Prepared(s, c);
      if c.announce.event == STOPPED {
        LeftOk(p, c);
      } else if c.announce.hash in p.swarms || |p.swarms| < MAX_SWARMS {
        OpenedOk(p, c.announce.hash);
        if Fits(Opened(p, c.announce.hash), c) {
          JoinedOk(Opened(p, c.announce.hash), c);
        }
      }
    }
  }
}
