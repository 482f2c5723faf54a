/** The store refines the history of announces: over any run it knows exactly what the history says is alive. */
module TrackerHistory {
  import opened Prelude
  import opened Net
  import opened Rotation
  import opened TrackerStore

  // ----- Runs -----

  datatype Event = Event(call: Call, accepted: bool)

  /** The server starts with no swarm. */
  function Empty(start: nat): Store {
    Store(map[], 0, start)
  }

  ghost function StoreAfter(start: nat, calls: seq<Call>): Store {
    if calls == [] then Empty(start)
    else Next(StoreAfter(start, calls[..|calls| - 1]), calls[|calls| - 1]).0
  }

  ghost function History(start: nat, calls: seq<Call>): (history: seq<Event>)
    ensures |history| == |calls|
  {
    if calls == [] then []
    else
      var earlier, last := calls[..|calls| - 1], calls[|calls| - 1];
      History(start, earlier) + [Event(last, Next(StoreAfter(start, earlier), last).1)]
  }

  /** Time does not run backwards, up to `now`. */
  predicate Ordered(calls: seq<Call>, now: nat) {
    calls != [] ==>
      var last := calls[|calls| - 1];
      last.now <= now && Ordered(calls[..|calls| - 1], last.now)
  }

  /** After every run, whatever was refused, the counters are exact and all three limits hold. */
  lemma {:induction false} RunKeepsStoreOk(start: nat, calls: seq<Call>)
    ensures StoreOk(StoreAfter(start, calls))
  {
    if calls != [] {
      RunKeepsStoreOk(start, calls[..|calls| - 1]);
      StepKeepsStoreOk(StoreAfter(start, calls[..|calls| - 1]), calls[|calls| - 1]);
    }
  }

  // ----- What the history says -----

  predicate Concerns(e: Event, h: Id, k: Key) {
    e.accepted && e.call.announce.hash == h && KeyOf(e.call) == k
  }

  /** When the latest accepted announce for a key runs out; none if that announce was a stop. */
  function Expiry(history: seq<Event>, h: Id, k: Key): Option<nat> {
    if history == [] then None
    else
      var last := history[|history| - 1];
      if !Concerns(last, h, k) then Expiry(history[..|history| - 1], h, k)
      else if last.call.announce.event == STOPPED then None
      else Some(last.call.now + Lifetime(last.call))
  }

  /** An expiry that is still ahead. */
  function Ahead(expiry: Option<nat>, now: nat): Option<nat> {
    if expiry.Some? && expiry.value > now then expiry else None
  }

  function Stored(s: Store, h: Id, k: Key): Option<nat> {
    if h in s.swarms && k in s.swarms[h] then Some(s.swarms[h][k].expires) else None
  }

  // ----- Refinement -----

  lemma PreparedKeepsLive(s: Store, c: Call, h: Id, k: Key)
    ensures Ahead(Stored(Prepared(s, c), h, k), c.now) == Ahead(Stored(s, h, k), c.now)
  {
    var swept := Sweep(s.swarms, c.now);
    if Ahead(Stored(s, h, k), c.now).Some? {
      assert k in Live(s.swarms[h], c.now);
      assert h in swept && swept[h] == Live(s.swarms[h], c.now);
    }
    assert Ahead(Stored(Swept(s, c), h, k), c.now) == Ahead(Stored(s, h, k), c.now);
  }

  lemma LeftForgets(s: Store, c: Call, h: Id, k: Key)
    requires Keyed(s)
    ensures Stored(Left(s, c), h, k) == if h == c.announce.hash && k == KeyOf(c) then None else Stored(s, h, k)
  {
  }

  lemma JoinedRemembers(s: Store, c: Call, h: Id, k: Key)
    requires c.announce.hash in s.swarms
    ensures Stored(Joined(s, c), h, k)
         == if h == c.announce.hash && k == KeyOf(c) then Some(c.now + Lifetime(c)) else Stored(s, h, k)
  {
  }

  lemma PreparedIsKeyed(s: Store, c: Call)
    requires StoreOk(s)
    ensures Keyed(Prepared(s, c))
  {
    SweptOk(s, c);
    PrunedOk(Swept(s, c), c.announce.hash, c.now);
  }

  /** One announce changes what is alive exactly as its event says. */
  lemma StepRefines(s: Store, c: Call, h: Id, k: Key)
    requires StoreOk(s)
    ensures var e := Event(c, Next(s, c).1);
      Ahead(Stored(Next(s, c).0, h, k), c.now)
      == if !Concerns(e, h, k) then Ahead(Stored(s, h, k), c.now)
         else if c.announce.event == STOPPED then None
         else Some(c.now + Lifetime(c))
  {
    if WellFormed(c) {
      var p := Prepared(s, c);
      PreparedKeepsLive(s, c, h, k);
      PreparedIsKeyed(s, c);
      if c.announce.event == STOPPED {
        LeftForgets(p, c, h, k);
      } else if c.announce.hash in p.swarms || |p.swarms| < MAX_SWARMS {
        var o := Opened(p, c.announce.hash);
        assert Stored(o, h, k) == Stored(p, h, k);
        if Fits(o, c) {
          JoinedRemembers(o, c, h, k);
        }
      }
    }
  }

  /**
   Over any run, at any later time, the unexpired entries are exactly the keys whose latest accepted announce
   was not a stop and is within its lifetime; nothing alive is ever evicted.
   */
  lemma {:induction false} RunRefines(start: nat, calls: seq<Call>, now: nat, h: Id, k: Key)
    requires Ordered(calls, now)
    ensures Ahead(Stored(StoreAfter(start, calls), h, k), now) == Ahead(Expiry(History(start, calls), h, k), now)
  {
    if calls != [] {
      var earlier, last := calls[..|calls| - 1], calls[|calls| - 1];
      var s, history := StoreAfter(start, earlier), History(start, calls);
      assert history[..|history| - 1] == History(start, earlier);
      RunRefines(start, earlier, last.now, h, k);
      RunKeepsStoreOk(start, earlier);
      StepRefines(s, last, h, k);
    }
  }

  // ----- Replies -----

  /** By the history, another peer of the requester's family announced this address and it is alive. */
  ghost predicate Offered(history: seq<Event>, c: Call, a: SocketAddr) {
    && a.ip.V6? == c.source.V6?
    && exists peer :: peer != c.announce.peer && Ahead(Expiry(history, c.announce.hash, Key(peer, a)), c.now).Some?
  }

  /** The other peers whose announce of this address is alive by the history. */
  function LivePeers(history: seq<Event>, c: Call, a: SocketAddr): set<Id> {
    set i | 0 <= i < |history| && Lives(history, c, history[i].call.announce.peer, a) :: history[i].call.announce.peer
  }

  predicate Lives(history: seq<Event>, c: Call, peer: Id, a: SocketAddr) {
    peer != c.announce.peer && Ahead(Expiry(history, c.announce.hash, Key(peer, a)), c.now).Some?
  }

  /** The list whose page is returned. */
  ghost function Ranked(s: Store, c: Call): seq<SocketAddr>
    requires c.announce.hash in s.swarms
  {
    var swarm := s.swarms[c.announce.hash];
    Sort(Addresses(swarm, EligibleKeys(swarm, c)))
  }

  lemma RankedElements(s: Store, c: Call, a: SocketAddr)
    requires c.announce.hash in s.swarms && Keyed(s)
    ensures a in Ranked(s, c) <==>
      a.ip.V6? == c.source.V6?
      && exists peer :: peer != c.announce.peer && Ahead(Stored(s, c.announce.hash, Key(peer, a)), c.now).Some?
  {
    var swarm := s.swarms[c.announce.hash];
    var keys := EligibleKeys(swarm, c);
    var list := Addresses(swarm, keys);
    SortOk(list);
    assert a in Ranked(s, c) <==> a in multiset(Ranked(s, c));
    assert a in list <==> a in multiset(list);
    AddressesOk(swarm, keys, a);
    if a in list {
      var k :| k in keys && swarm[k].address == a;
      assert k == Key(k.peer, a);
    }
    if peer :| peer != c.announce.peer && Ahead(Stored(s, c.announce.hash, Key(peer, a)), c.now).Some? {
      assert Key(peer, a) in swarm && swarm[Key(peer, a)].address == a;
      assert a.ip.V6? == c.source.V6? ==> Key(peer, a) in keys;
    }
  }

  // ----- How often an address is listed -----

  function KeysAt(s: Swarm, keys: set<Key>, a: SocketAddr): set<Key>
    requires keys <= s.Keys
  {
    set k | k in keys && s[k].address == a
  }

  lemma KeysAtSplit(s: Swarm, keys: set<Key>, k: Key, a: SocketAddr)
    requires keys <= s.Keys && k in keys
    ensures |KeysAt(s, keys, a)| == |KeysAt(s, keys - {k}, a)| + if s[k].address == a then 1 else 0
  {
    var mine, rest := KeysAt(s, keys, a), KeysAt(s, keys - {k}, a);
    assert k !in rest;
    assert mine == if s[k].address == a then rest + {k} else rest;
  }

  lemma {:induction false} AddressCount(s: Swarm, keys: set<Key>, a: SocketAddr)
    requires keys <= s.Keys
    ensures multiset(Addresses(s, keys))[a] == |KeysAt(s, keys, a)|
    decreases |keys|
  {
    if keys == {} {
      assert KeysAt(s, keys, a) == {};
    } else {
      var k :| k in keys;
      AddressesSplit(s, keys, k);
      AddressCount(s, keys - {k}, a);
      KeysAtSplit(s, keys, k, a);
    }
  }

  function PeersOf(keys: set<Key>): set<Id> {
    set k | k in keys :: k.peer
  }

  /** Keys with one address are told apart by their peers. */
  lemma {:induction false} PeersCount(keys: set<Key>, a: SocketAddr)
    requires forall k :: k in keys ==> k.address == a
    ensures |PeersOf(keys)| == |keys|
    decreases |keys|
  {
    if keys == {} {
      assert PeersOf(keys) == {};
    } else {
      var k :| k in keys;
      var rest := keys - {k};
      PeersCount(rest, a);
      assert k.peer !in PeersOf(rest);
      assert PeersOf(keys) == PeersOf(rest) + {k.peer};
    }
  }

  /** A live peer has announced. */
  lemma LivePeerIsListed(history: seq<Event>, c: Call, peer: Id, a: SocketAddr)
    ensures peer in LivePeers(history, c, a) <==> Lives(history, c, peer, a)
  {
    if Lives(history, c, peer, a) {
      var k := Key(peer, a);
      ExpiryIsBacked(history, c.announce.hash, k);
      var i :| 0 <= i < |history| && Backs(history[i], c.announce.hash, k, Expiry(history, c.announce.hash, k).value);
      assert history[i].call.announce.peer == peer;
    }
  }

  /** By the history, how often the list holds an address: once for each other live peer that announced it. */
  lemma RankedMultiplicity(start: nat, calls: seq<Call>, c: Call, a: SocketAddr)
    requires Ordered(calls, c.now)
    requires Next(StoreAfter(start, calls), c).1 && c.announce.event != STOPPED
    ensures multiset(Ranked(Next(StoreAfter(start, calls), c).0, c))[a]
         == if a.ip.V6? == c.source.V6? then |LivePeers(History(start, calls), c, a)| else 0
  {
    var s, history := StoreAfter(start, calls), History(start, calls);
    var t := Next(s, c).0;
    var swarm := t.swarms[c.announce.hash];
    var keys := EligibleKeys(swarm, c);
    var mine := KeysAt(swarm, keys, a);
    RunKeepsStoreOk(start, calls);
    StepKeepsStoreOk(s, c);
    SortOk(Addresses(swarm, keys));
    AddressCount(swarm, keys, a);
    if a.ip.V6? != c.source.V6? {
      assert mine == {};
    } else {
      PeersCount(mine, a);
      forall peer
        ensures peer in PeersOf(mine) <==> peer in LivePeers(history, c, a)
      {
        LivePeerIsListed(history, c, peer, a);
        PeerIsEligible(start, calls, c, peer, a);
      }
      assert PeersOf(mine) == LivePeers(history, c, a);
    }
  }

  lemma PeerIsEligible(start: nat, calls: seq<Call>, c: Call, peer: Id, a: SocketAddr)
    requires Ordered(calls, c.now) && a.ip.V6? == c.source.V6?
    requires Next(StoreAfter(start, calls), c).1 && c.announce.event != STOPPED
    ensures var swarm := Next(StoreAfter(start, calls), c).0.swarms[c.announce.hash];
      peer in PeersOf(KeysAt(swarm, EligibleKeys(swarm, c), a)) <==> Lives(History(start, calls), c, peer, a)
  {
    var s, k := StoreAfter(start, calls), Key(peer, a);
    var t := Next(s, c).0;
    var swarm := t.swarms[c.announce.hash];
    RunKeepsStoreOk(start, calls);
    StepKeepsStoreOk(s, c);
    StepRefines(s, c, c.announce.hash, k);
    RunRefines(start, calls, c.now, c.announce.hash, k);
    var mine := KeysAt(swarm, EligibleKeys(swarm, c), a);
    assert forall g :: g in mine ==> g == Key(g.peer, a);
    assert peer in PeersOf(mine) <==> k in mine;
  }

  /**
   An accepted announce that is no stop is answered with a page of the sorted list of all addresses that the
   history of the run offers, each once for each other live peer that announced it.
   */
  lemma ReplyFollowsHistory(start: nat, calls: seq<Call>, c: Call)
    requires Ordered(calls, c.now)
    requires Next(StoreAfter(start, calls), c).1 && c.announce.event != STOPPED
    ensures
      var s := StoreAfter(start, calls);
      var list := Ranked(Next(s, c).0, c);
      && Step(s, c).1 == Accepted(Page(list, Limit(c), c.unix))
      && Sorted(list) && (forall a :: a in list <==> Offered(History(start, calls), c, a))
      && forall a: SocketAddr :: a.ip.V6? == c.source.V6? ==> multiset(list)[a] == |LivePeers(History(start, calls), c, a)|
  {
    var s := StoreAfter(start, calls);
    var t, history := Next(s, c).0, History(start, calls);
    var list := Ranked(t, c);
    var swarm := t.swarms[c.announce.hash];
    SortOk(Addresses(swarm, EligibleKeys(swarm, c)));
    RunKeepsStoreOk(start, calls);
    StepKeepsStoreOk(s, c);
    forall a: SocketAddr
      ensures a.ip.V6? == c.source.V6? ==> multiset(list)[a] == |LivePeers(history, c, a)|
    {
      RankedMultiplicity(start, calls, c, a);
    }
    forall a
      ensures a in list <==> Offered(history, c, a)
    {
      RankedElements(t, c, a);
      forall peer | peer != c.announce.peer
        ensures Ahead(Stored(t, c.announce.hash, Key(peer, a)), c.now)
             == Ahead(Expiry(history, c.announce.hash, Key(peer, a)), c.now)
      {
        StepRefines(s, c, c.announce.hash, Key(peer, a));
        RunRefines(start, calls, c.now, c.announce.hash, Key(peer, a));
      }
    }
  }

  /** An accepted announce, from the key's own address, that keeps the key alive until `expiry`. */
  predicate Backs(e: Event, h: Id, k: Key, expiry: nat) {
    && Concerns(e, h, k) && e.call.source == k.address.ip
    && e.call.announce.event != STOPPED && expiry == e.call.now + Lifetime(e.call)
  }

  lemma {:induction false} ExpiryIsBacked(history: seq<Event>, h: Id, k: Key)
    requires Expiry(history, h, k).Some?
    ensures exists i :: 0 <= i < |history| && Backs(history[i], h, k, Expiry(history, h, k).value)
  {
    var n := |history| - 1;
    if Concerns(history[n], h, k) {
      assert Backs(history[n], h, k, Expiry(history, h, k).value);
    } else {
      ExpiryIsBacked(history[..n], h, k);
      var i :| 0 <= i < n && Backs(history[..n][i], h, k, Expiry(history, h, k).value);
      assert history[..n][i] == history[i];
    }
  }

  lemma PageIsPart<T>(list: seq<T>, limit: nat, time: nat, a: T)
    requires a in Page(list, limit, time)
    ensures a in list
  {
  }

  /** An unexpired announce of this very address, by another peer of the same swarm and family. */
  predicate Vouches(e: Event, c: Call, a: SocketAddr) {
    var d := e.call;
    && e.accepted && d.announce.event != STOPPED && d.now + Lifetime(d) > c.now
    && d.announce.hash == c.announce.hash && d.announce.peer != c.announce.peer
    && a == SocketAddr(d.source, d.announce.port) && d.source.V6? == c.source.V6?
  }

  /** Every returned address was announced from its own IP by a different peer of the requester's family. */
  lemma ReturnedWasAnnounced(start: nat, calls: seq<Call>, c: Call, a: SocketAddr)
    requires Ordered(calls, c.now)
    requires var r := Step(StoreAfter(start, calls), c).1; r.Accepted? && a in r.peers
    ensures exists i :: 0 <= i < |calls| && Vouches(History(start, calls)[i], c, a)
  {
    var history := History(start, calls);
    ReplyFollowsHistory(start, calls, c);
    PageIsPart(Ranked(Next(StoreAfter(start, calls), c).0, c), Limit(c), c.unix, a);
    assert Offered(history, c, a);
    var peer :| peer != c.announce.peer && Ahead(Expiry(history, c.announce.hash, Key(peer, a)), c.now).Some?;
    var k := Key(peer, a);
    ExpiryIsBacked(history, c.announce.hash, k);
    var i :| 0 <= i < |history| && Backs(history[i], c.announce.hash, k, Expiry(history, c.announce.hash, k).value);
    assert Vouches(history[i], c, a);
  }
}
