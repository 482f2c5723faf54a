/** When an announce is accepted: by what is stored after expiry, and by the history of the run alone. */
module TrackerAdmission {
  import opened Prelude
  import opened Net
  import opened TrackerStore
  import opened TrackerHistory

  /** By the history, the latest accepted announce of the key is no stop and is within its lifetime. */
  predicate Alive(history: seq<Event>, h: Id, k: Key, now: nat) {
    Ahead(Expiry(history, h, k), now).Some?
  }

  lemma AliveIsStored(start: nat, calls: seq<Call>, c: Call, h: Id, k: Key)
    requires Ordered(calls, c.now)
    ensures var s := StoreAfter(start, calls);
            && (Alive(History(start, calls), h, k, c.now) <==> Ahead(Stored(s, h, k), c.now).Some?)
            && (Alive(History(start, calls), h, k, c.now) <==> Ahead(Stored(Prepared(s, c), h, k), c.now).Some?)
  {
    RunRefines(start, calls, c.now, h, k);
    PreparedKeepsLive(StoreAfter(start, calls), c, h, k);
  }

  lemma PreparedIsOk(s: Store, c: Call)
    requires StoreOk(s)
    ensures StoreOk(Prepared(s, c))
  {
    SweptOk(s, c);
    PrunedOk(Swept(s, c), c.announce.hash, c.now);
  }

  /**
   An announce is accepted exactly if it names a port and a known event, and it is a stop, or its key is alive,
   or after expiry there is room for the swarm, for one more entry overall and for one more in the swarm.
   */
  lemma AcceptedExactly(start: nat, calls: seq<Call>, c: Call)
    requires Ordered(calls, c.now)
    ensures var s, a := StoreAfter(start, calls), c.announce;
            var swarms: map<Id, Swarm> := Prepared(s, c).swarms;
            Step(s, c).1.Accepted? <==>
            && a.port != 0 && (a.event == 0 || a.event == 1 || a.event == 2 || a.event == 3)
            && (|| a.event == 3
                || Alive(History(start, calls), a.hash, Key(a.peer, SocketAddr(c.source, a.port)), c.now)
                || ((a.hash in swarms || |swarms| < 4096) && Total(swarms) < 65536 && SizeOf(swarms, a.hash) < 256))
  {
    var s, h := StoreAfter(start, calls), c.announce.hash;
    RunKeepsStoreOk(start, calls);
    PreparedIsOk(s, c);
    AliveIsStored(start, calls, c, h, KeyOf(c));
    var p := Prepared(s, c);
    assert h in p.swarms ==> forall k :: k in p.swarms[h] ==> p.swarms[h][k].expires > c.now;
    assert p.entries == Total(p.swarms);
  }

  // ----- What the history says is alive -----

  function LivePairs(history: seq<Event>, now: nat): set<(Id, Key)> {
    set i | 0 <= i < |history| && Alive(history, history[i].call.announce.hash, KeyOf(history[i].call), now) ::
      (history[i].call.announce.hash, KeyOf(history[i].call))
  }

  /** The swarms with a live key. */
  function LiveSwarms(history: seq<Event>, now: nat): set<Id> {
    set pair | pair in LivePairs(history, now) :: pair.0
  }

  /** The live keys of one swarm. */
  function LiveKeys(history: seq<Event>, h: Id, now: nat): set<Key> {
    set pair | pair in LivePairs(history, now) && pair.0 == h :: pair.1
  }

  lemma LiveIsListed(history: seq<Event>, h: Id, k: Key, now: nat)
    ensures (h, k) in LivePairs(history, now) <==> Alive(history, h, k, now)
  {
    if Alive(history, h, k, now) {
      ExpiryIsBacked(history, h, k);
      var i :| 0 <= i < |history| && Backs(history[i], h, k, Expiry(history, h, k).value);
      assert history[i].call.announce.hash == h && KeyOf(history[i].call) == k;
    }
  }

  // ----- Counting stored pairs -----

  function PairsOver(swarms: map<Id, Swarm>, hashes: set<Id>): set<(Id, Key)> {
    set h, k | h in hashes && h in swarms && k in swarms[h] :: (h, k)
  }

  function Tagged(h: Id, keys: set<Key>): set<(Id, Key)> {
    set k | k in keys :: (h, k)
  }

  lemma {:induction false} TaggedCount(h: Id, keys: set<Key>)
    ensures |Tagged(h, keys)| == |keys|
    decreases |keys|
  {
    if keys == {} {
      assert Tagged(h, keys) == {};
    } else {
      var k :| k in keys;
      TaggedCount(h, keys - {k});
      assert Tagged(h, keys) == Tagged(h, keys - {k}) + {(h, k)};
    }
  }

  lemma PairsSplit(swarms: map<Id, Swarm>, hashes: set<Id>, h: Id)
    requires h in hashes && h in swarms
    ensures var rest, mine := PairsOver(swarms, hashes - {h}), Tagged(h, swarms[h].Keys);
            PairsOver(swarms, hashes) == rest + mine && rest !! mine
  {
  }

  lemma {:induction false} PairsCount(swarms: map<Id, Swarm>, hashes: set<Id>)
    requires hashes <= swarms.Keys
    ensures |PairsOver(swarms, hashes)| == TotalOver(swarms, hashes)
    decreases |hashes|
  {
    if hashes == {} {
      assert PairsOver(swarms, hashes) == {};
    } else {
      var h :| h in hashes;
      PairsCount(swarms, hashes - {h});
      PairsSplit(swarms, hashes, h);
      TaggedCount(h, swarms[h].Keys);
      TotalSplit(swarms, hashes, h);
    }
  }

  // ----- Swept stores -----

  /** The swarms hold the live pairs of the history and nothing else, and no swarm is empty. */
  ghost predicate Mirrors(swarms: map<Id, Swarm>, history: seq<Event>, now: nat) {
    && (forall h :: h in swarms ==> swarms[h] != map[])
    && (forall h, k :: (h in swarms && k in swarms[h]) <==> (h, k) in LivePairs(history, now))
  }

  lemma MirrorHashes(swarms: map<Id, Swarm>, history: seq<Event>, now: nat)
    requires Mirrors(swarms, history, now)
    ensures swarms.Keys == LiveSwarms(history, now)
  {
    var pairs := LivePairs(history, now);
    forall g | g in swarms
      ensures g in LiveSwarms(history, now)
    {
      var k :| k in swarms[g];
      assert (g, k) in pairs;
    }
    forall g | g in LiveSwarms(history, now)
      ensures g in swarms
    {
      var pair :| pair in pairs && pair.0 == g;
      assert (g, pair.1) in pairs;
    }
  }

  lemma MirrorKeys(swarms: map<Id, Swarm>, history: seq<Event>, h: Id, now: nat)
    requires Mirrors(swarms, history, now)
    ensures LiveKeys(history, h, now) == if h in swarms then swarms[h].Keys else {}
  {
    var pairs := LivePairs(history, now);
    assert forall pair :: pair in pairs ==> (pair.0, pair.1) in pairs;
    assert forall k :: k in LiveKeys(history, h, now) <==> (h, k) in pairs;
  }

  lemma MirrorPairs(swarms: map<Id, Swarm>, history: seq<Event>, now: nat)
    requires Mirrors(swarms, history, now)
    ensures PairsOver(swarms, swarms.Keys) == LivePairs(history, now)
  {
    assert forall pair :: pair in LivePairs(history, now) ==> (pair.0, pair.1) in LivePairs(history, now);
  }

  lemma MirrorCounts(swarms: map<Id, Swarm>, history: seq<Event>, h: Id, now: nat)
    requires Mirrors(swarms, history, now)
    ensures swarms.Keys == LiveSwarms(history, now)
    ensures Total(swarms) == |LivePairs(history, now)|
    ensures SizeOf(swarms, h) == |LiveKeys(history, h, now)|
  {
    MirrorHashes(swarms, history, now);
    PairsCount(swarms, swarms.Keys);
    MirrorPairs(swarms, history, now);
    MirrorKeys(swarms, history, h, now);
  }

  lemma SweptIsLive(s: Store, c: Call, h: Id)
    requires SweepDue(s, c) && h in Prepared(s, c).swarms
    ensures Prepared(s, c).swarms[h] != map[]
    ensures forall k :: k in Prepared(s, c).swarms[h] ==> Prepared(s, c).swarms[h][k].expires > c.now
  {
    var swept := Sweep(s.swarms, c.now);
    assert Live(swept[h], c.now) == swept[h];
  }

  lemma SweptMirrors(start: nat, calls: seq<Call>, c: Call)
    requires Ordered(calls, c.now) && SweepDue(StoreAfter(start, calls), c)
    ensures Mirrors(Prepared(StoreAfter(start, calls), c).swarms, History(start, calls), c.now)
  {
    var s, history := StoreAfter(start, calls), History(start, calls);
    var swarms: map<Id, Swarm> := Prepared(s, c).swarms;
    forall h: Id, k: Key
      ensures (h in swarms && k in swarms[h]) <==> (h, k) in LivePairs(history, c.now)
    {
      LiveIsListed(history, h, k, c.now);
      AliveIsStored(start, calls, c, h, k);
      if h in swarms {
        SweptIsLive(s, c, h);
      }
    }
    forall h | h in swarms
      ensures swarms[h] != map[]
    {
      SweptIsLive(s, c, h);
    }
  }

  /** The live pairs are stored, swept or not. */
  lemma LiveIsBelow(start: nat, calls: seq<Call>, c: Call)
    requires Ordered(calls, c.now)
    ensures var s, history := StoreAfter(start, calls), History(start, calls);
            && |LiveSwarms(history, c.now)| <= |s.swarms|
            && |LivePairs(history, c.now)| <= Total(s.swarms)
            && |LiveKeys(history, c.announce.hash, c.now)| <= SizeOf(s.swarms, c.announce.hash)
  {
    var s, history, h := StoreAfter(start, calls), History(start, calls), c.announce.hash;
    var pairs := LivePairs(history, c.now);
    forall pair | pair in pairs
      ensures pair.0 in s.swarms && pair.1 in s.swarms[pair.0]
    {
      LiveIsListed(history, pair.0, pair.1, c.now);
      AliveIsStored(start, calls, c, pair.0, pair.1);
    }
    SubsetIsSmaller(LiveSwarms(history, c.now), s.swarms.Keys);
    PairsCount(s.swarms, s.swarms.Keys);
    SubsetIsSmaller(pairs, PairsOver(s.swarms, s.swarms.Keys));
    if h in s.swarms {
      SubsetIsSmaller(LiveKeys(history, h, c.now), s.swarms[h].Keys);
    } else {
      assert LiveKeys(history, h, c.now) == {};
    }
  }

  /** No room is left for a new key by what is alive alone. */
  ghost predicate LiveIsFull(history: seq<Event>, h: Id, now: nat) {
    || (h !in LiveSwarms(history, now) && |LiveSwarms(history, now)| >= 4096)
    || |LivePairs(history, now)| >= 65536
    || |LiveKeys(history, h, now)| >= 256
  }

  /**
   An announce of a new key that finds a sweep possible, because a second has passed since the last one, is
   refused exactly if what the history says is alive fills one of the three limits by itself.
   */
  lemma RefusedExactly(start: nat, calls: seq<Call>, c: Call)
    requires Ordered(calls, c.now)
    requires c.announce.port != 0 && c.announce.event < 3 && (c.again >= 1_000_000_000 || c.elapsed >= 30_000_000_000)
    ensures var s, history, a := StoreAfter(start, calls), History(start, calls), c.announce;
            Step(s, c).1.Refused? <==>
            && !Alive(history, a.hash, Key(a.peer, SocketAddr(c.source, a.port)), c.now)
            && LiveIsFull(history, a.hash, c.now)
  {
    var s, history, h := StoreAfter(start, calls), History(start, calls), c.announce.hash;
    AcceptedExactly(start, calls, c);
    if SweepDue(s, c) {
      SweptMirrors(start, calls, c);
      MirrorCounts(Prepared(s, c).swarms, history, h, c.now);
    } else {
      RunKeepsStoreOk(start, calls);
      LiveIsBelow(start, calls, c);
      UnfullHasRoom(s, c);
    }
  }

  lemma UnfullHasRoom(s: Store, c: Call)
    requires StoreOk(s) && !SweepDue(s, c) && !Full(s, c.announce.hash)
    ensures var swarms := Prepared(s, c).swarms;
            |swarms| < 4096 && Total(swarms) < 65536 && SizeOf(swarms, c.announce.hash) < 256
  {
    var h := c.announce.hash;
    PreparedIsOk(s, c);
    if h in s.swarms {
      LiveShrinks(s.swarms[h], c.now);
      assert Prepared(s, c).swarms.Keys == s.swarms.Keys;
    }
  }
}
