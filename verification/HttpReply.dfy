/** The server's HTTP reply and its round trip through the client's parser. */
module HttpReply {
  import opened Prelude
  import opened Decimal
  import opened Net
  import opened Bencode
  import opened BencodeInsert

  // ----- The reply -----

  function CompactBytes(a: SocketAddr): (r: Bytes)
    ensures |r| == Stride(a.ip.V6?)
  {
    a.ip.octets + PortBytes(a.port)
  }

  /** The compact entries of the peers of one family, in order. */
  function EncodePeers(peers: seq<SocketAddr>, ipv6: bool): Bytes {
    if peers == [] then [] else EncodePeer(peers[0], ipv6) + EncodePeers(peers[1..], ipv6)
  }

  function EncodePeer(a: SocketAddr, ipv6: bool): Bytes {
    if a.ip.V6? == ipv6 then CompactBytes(a) else []
  }

  function IntervalPair(interval: u32): Bytes {
    EncodeString(KEY_INTERVAL) + EncodeNumber(interval)
  }

  function TextPair(key: Bytes, text: Bytes): Bytes {
    EncodeString(key) + EncodeString(text)
  }

  function Echo(observed: Option<Bytes>): Bytes {
    if observed.Some? then TextPair(KEY_OBSERVED, observed.value) else []
  }

  function PeersPair(peers: seq<SocketAddr>, ipv6: bool): Bytes {
    TextPair(if ipv6 then KEY_PEERS6 else KEY_PEERS, EncodePeers(peers, ipv6))
  }

  function Reply(interval: u32, observed: Option<Bytes>, peers: seq<SocketAddr>): Bytes {
    [CHAR_D] + IntervalPair(interval) + Echo(observed) + PeersPair(peers, false) + PeersPair(peers, true) + [CHAR_E]
  }

  method AppendCompact(bytes: Bytes, a: SocketAddr) returns (r: Bytes)
    ensures r == bytes + CompactBytes(a)
  {
    r := bytes + a.ip.octets;
    r := r + PortBytes(a.port);
  }

  lemma Regroup(a: Bytes, b: Bytes, c: Bytes)
    ensures a + (b + c) == a + b + c
  {
  }

  lemma {:induction false} EncodeLast(peers: seq<SocketAddr>, a: SocketAddr, ipv6: bool)
    ensures EncodePeers(peers + [a], ipv6) == EncodePeers(peers, ipv6) + EncodePeer(a, ipv6)
  {
    var all := peers + [a];
    if peers == [] {
      assert all == [a] && all[1..] == [];
    } else {
      EncodeLast(peers[1..], a, ipv6);
      assert all[0] == peers[0] && all[1..] == peers[1..] + [a];
      Regroup(EncodePeer(peers[0], ipv6), EncodePeers(peers[1..], ipv6), EncodePeer(a, ipv6));
    }
  }

  /** The peers are sorted into the two families. */
  method SplitPeers(peers: seq<SocketAddr>) returns (ipv4: Bytes, ipv6: Bytes)
    ensures ipv4 == EncodePeers(peers, false) && ipv6 == EncodePeers(peers, true)
  {
    ipv4, ipv6 := [], [];
    for i := 0 to |peers|
      invariant ipv4 == EncodePeers(peers[..i], false) && ipv6 == EncodePeers(peers[..i], true)
    {
      EncodeLast(peers[..i], peers[i], false);
      EncodeLast(peers[..i], peers[i], true);
      assert peers[..i + 1] == peers[..i] + [peers[i]];
      if peers[i].ip.V4? {
        ipv4 := AppendCompact(ipv4, peers[i]);
      } else {
        ipv6 := AppendCompact(ipv6, peers[i]);
      }
    }
    assert peers[..|peers|] == peers;
  }

  /** Appends a key with its length prefix and a string value with its length. */
  method AppendText(bytes: Bytes, prefix: Bytes, key: Bytes, text: Bytes) returns (r: Bytes)
    requires prefix == Print(|key|) + [CHAR_COLON]
    ensures r == bytes + TextPair(key, text)
  {
    var head := prefix + key + Print(|text|) + [CHAR_COLON];
    r := bytes + head;
    r := r + text;
    assert head + text == TextPair(key, text);
  }

  lemma HeadIsInterval(interval: u32)
    ensures [CHAR_D, ZERO + 8, CHAR_COLON] + KEY_INTERVAL + [CHAR_I] + Print(interval) + [CHAR_E]
         == [CHAR_D] + IntervalPair(interval)
  {
    assert EncodeString(KEY_INTERVAL) == [ZERO + 8, CHAR_COLON] + KEY_INTERVAL;
  }

  /** The first 16 peers are encoded by family and the pairs are appended one by one. */
  method BuildReply(interval: u32, observed: Option<Bytes>, peers: seq<SocketAddr>) returns (reply: Bytes)
    ensures reply == Reply(interval, observed, Truncated(peers))
  {
    var ipv4, ipv6 := SplitPeers(Truncated(peers));
    reply := [CHAR_D, ZERO + 8, CHAR_COLON] + KEY_INTERVAL + [CHAR_I] + Print(interval) + [CHAR_E];
    HeadIsInterval(interval);
    if observed.Some? {
      reply := AppendText(reply, [ZERO + 1, ZERO + 1, CHAR_COLON], KEY_OBSERVED, observed.value);
    }
    assert reply == [CHAR_D] + IntervalPair(interval) + Echo(observed);
    reply := AppendText(reply, [ZERO + 5, CHAR_COLON], KEY_PEERS, ipv4);
    reply := AppendText(reply, [ZERO + 6, CHAR_COLON], KEY_PEERS6, ipv6);
    reply := reply + [CHAR_E];
  }

  // ----- Compact lists -----

  function OfFamily(peers: seq<SocketAddr>, ipv6: bool): seq<SocketAddr> {
    if peers == [] then []
    else (if peers[0].ip.V6? == ipv6 then [peers[0]] else []) + OfFamily(peers[1..], ipv6)
  }

  function AdmitAll(taken: seq<SocketAddr>, peers: seq<SocketAddr>): seq<SocketAddr>
    decreases |peers|
  {
    if peers == [] then taken else AdmitAll(Admit(taken, peers[0]), peers[1..])
  }

  lemma {:induction false} FullAdmitsNothing(taken: seq<SocketAddr>, peers: seq<SocketAddr>)
    requires |taken| >= MAX_PEERS
    ensures AdmitAll(taken, peers) == taken
  {
    if peers != [] {
      FullAdmitsNothing(taken, peers[1..]);
    }
  }

  lemma CompactBytesInverts(a: SocketAddr)
    ensures CompactEntry(CompactBytes(a), a.ip.V6?) == a
  {
    var entry := CompactBytes(a);
    assert entry[..|entry| - 2] == a.ip.octets;
  }

  lemma CompactStep(taken: seq<SocketAddr>, a: SocketAddr, rest: Bytes, ipv6: bool)
    requires |taken| <= MAX_PEERS && a.ip.V6? == ipv6
    ensures CompactInto(taken, CompactBytes(a) + rest, ipv6)
         == if |taken| == MAX_PEERS then taken else CompactInto(Admit(taken, a), rest, ipv6)
  {
    var s := CompactBytes(a) + rest;
    assert s[..Stride(ipv6)] == CompactBytes(a) && s[Stride(ipv6)..] == rest;
    CompactBytesInverts(a);
  }

  lemma {:induction false} EncodedIsWhole(peers: seq<SocketAddr>, ipv6: bool)
    ensures |EncodePeers(peers, ipv6)| % Stride(ipv6) == 0
  {
    if peers != [] {
      EncodedIsWhole(peers[1..], ipv6);
    }
  }

  /** Decoding a compact list admits the encoded peers one by one. */
  lemma {:induction false} CompactInverts(taken: seq<SocketAddr>, peers: seq<SocketAddr>, ipv6: bool)
    requires |taken| <= MAX_PEERS
    ensures CompactInto(taken, EncodePeers(peers, ipv6), ipv6) == AdmitAll(taken, OfFamily(peers, ipv6))
    decreases |peers|
  {
    if peers != [] {
      var a, rest := peers[0], OfFamily(peers[1..], ipv6);
      if a.ip.V6? == ipv6 {
        CompactStep(taken, a, EncodePeers(peers[1..], ipv6), ipv6);
        CompactInverts(Admit(taken, a), peers[1..], ipv6);
        assert OfFamily(peers, ipv6)[1..] == rest;
        if |taken| == MAX_PEERS {
          FullAdmitsNothing(taken, OfFamily(peers, ipv6));
        }
      } else {
        CompactInverts(taken, peers[1..], ipv6);
        assert OfFamily(peers, ipv6) == rest && EncodePeers(peers, ipv6) == EncodePeers(peers[1..], ipv6);
      }
    }
  }

  lemma {:induction false} AdmitAllOk(taken: seq<SocketAddr>, peers: seq<SocketAddr>)
    requires |taken| + |peers| <= MAX_PEERS
    ensures |AdmitAll(taken, peers)| <= |taken| + |peers|
    ensures forall a :: a in AdmitAll(taken, peers) <==> a in taken || (a in peers && Usable(a))
    decreases |peers|
  {
    if peers != [] {
      AdmitAllOk(Admit(taken, peers[0]), peers[1..]);
      assert peers == [peers[0]] + peers[1..];
    }
  }

  lemma {:induction false} FamiliesCover(peers: seq<SocketAddr>)
    ensures |OfFamily(peers, false)| + |OfFamily(peers, true)| == |peers|
    ensures forall a, ipv6 :: a in OfFamily(peers, ipv6) <==> a in peers && a.ip.V6? == ipv6
  {
    if peers != [] {
      FamiliesCover(peers[1..]);
      assert peers == [peers[0]] + peers[1..];
    }
  }

  // ----- The round trip -----

  lemma IntervalAt(c: TextCodec, b: Bytes, o: nat, e: nat, interval: u32, f: Fields)
    requires At(b, o, e, IntervalPair(interval))
    ensures b[o] != CHAR_E && ParseField(c, b, o, f) == Some(Parsed(f.(interval := Some(interval)), e))
  {
    var k := o + |EncodeString(KEY_INTERVAL)|;
    AtSplit(b, o, k, e, EncodeString(KEY_INTERVAL), EncodeNumber(interval));
    StringAt(b, o, k, KEY_INTERVAL);
    NumberAt(b, k, e, interval);
  }

  lemma TextAt(b: Bytes, o: nat, k: nat, e: nat, key: Bytes, text: Bytes)
    requires At(b, o, e, TextPair(key, text)) && k == o + |EncodeString(key)|
    ensures k < |b| && b[o] != CHAR_E && IsDigit(b[k])
    ensures ParseString(b, o) == Some(Parsed(key, k)) && ParseString(b, k) == Some(Parsed(text, e))
  {
    AtSplit(b, o, k, e, EncodeString(key), EncodeString(text));
    StringAt(b, o, k, key);
    StringAt(b, k, e, text);
  }

  lemma ObservedAt(c: TextCodec, b: Bytes, o: nat, e: nat, text: Bytes, f: Fields)
    requires At(b, o, e, TextPair(KEY_OBSERVED, text)) && c.parseSocket(text).Some?
    ensures b[o] != CHAR_E && ParseField(c, b, o, f) == Some(Parsed(f.(observed := c.parseSocket(text)), e))
  {
    TextAt(b, o, o + |EncodeString(KEY_OBSERVED)|, e, KEY_OBSERVED, text);
  }

  lemma PeersAt(c: TextCodec, b: Bytes, o: nat, e: nat, peers: seq<SocketAddr>, ipv6: bool, f: Fields, all: seq<SocketAddr>)
    requires At(b, o, e, PeersPair(peers, ipv6)) && all == f.addresses + AdmitAll([], OfFamily(peers, ipv6))
    ensures b[o] != CHAR_E && ParseField(c, b, o, f) == Some(Parsed(f.(addresses := all), e))
  {
    var key := if ipv6 then KEY_PEERS6 else KEY_PEERS;
    TextAt(b, o, o + |EncodeString(key)|, e, key, EncodePeers(peers, ipv6));
    EncodedIsWhole(peers, ipv6);
    CompactInverts([], peers, ipv6);
  }

  lemma Advance(c: TextCodec, b: Bytes, o: nat, f: Fields, e: nat, g: Fields)
    requires o < |b| && b[o] != CHAR_E && ParseField(c, b, o, f) == Some(Parsed(g, e))
    ensures ParseFields(c, b, o, f) == ParseFields(c, b, e, g)
  {
  }

  /** Where the five parts of a body lie. */
  lemma Layout(b: Bytes, s1: Bytes, s2: Bytes, s3: Bytes, s4: Bytes, k1: nat, k2: nat, k3: nat, k4: nat)
    requires b == [CHAR_D] + s1 + s2 + s3 + s4 + [CHAR_E] && |b| < 0x1_0000_0000_0000_0000
    requires k1 == 1 + |s1| && k2 == k1 + |s2| && k3 == k2 + |s3| && k4 == k3 + |s4|
    ensures At(b, 1, k1, s1) && At(b, k1, k2, s2) && At(b, k2, k3, s3) && At(b, k3, k4, s4)
    ensures b[0] == CHAR_D && |b| == k4 + 1 && b[k4] == CHAR_E
  {
    assert At(b, 0, |b|, b);
    AtSplit(b, 0, k4, |b|, [CHAR_D] + s1 + s2 + s3 + s4, [CHAR_E]);
    AtSplit(b, 0, k3, k4, [CHAR_D] + s1 + s2 + s3, s4);
    AtSplit(b, 0, k2, k3, [CHAR_D] + s1 + s2, s3);
    AtSplit(b, 0, k1, k2, [CHAR_D] + s1, s2);
    AtSplit(b, 0, 1, k1, [CHAR_D], s1);
  }

  /** The addresses the parser has collected at the end of a reply. */
  function Collected(peers: seq<SocketAddr>): seq<SocketAddr> {
    AdmitAll([], OfFamily(peers, false)) + AdmitAll([], OfFamily(peers, true))
  }

  lemma PeersParse(c: TextCodec, b: Bytes, o: nat, e: nat, peers: seq<SocketAddr>, ipv6: bool, f: Fields, g: Fields)
    requires At(b, o, e, PeersPair(peers, ipv6)) && g == f.(addresses := f.addresses + AdmitAll([], OfFamily(peers, ipv6)))
    ensures ParseFields(c, b, o, f) == ParseFields(c, b, e, g)
  {
    PeersAt(c, b, o, e, peers, ipv6, f, g.addresses);
    Advance(c, b, o, f, e, g);
  }

  /** The closing byte ends the dictionary. */
  lemma EndParses(c: TextCodec, b: Bytes, l: nat, e: nat, f: Fields)
    requires l < |b| && b[l] == CHAR_E && e == l + 1
    ensures ParseFields(c, b, l, f) == Some(Parsed(f, e))
  {
  }

  lemma TailParses(c: TextCodec, b: Bytes, o: nat, k: nat, l: nat, peers: seq<SocketAddr>, f: Fields, g: Fields)
    requires At(b, o, k, PeersPair(peers, false)) && At(b, k, l, PeersPair(peers, true))
    requires |b| == l + 1 && b[l] == CHAR_E && f.addresses == [] && g == f.(addresses := Collected(peers))
    ensures ParseFields(c, b, o, f) == Some(Parsed(g, |b|))
  {
    var v4 := AdmitAll([], OfFamily(peers, false));
    var h := f.(addresses := v4);
    assert [] + v4 == v4;
    PeersParse(c, b, o, k, peers, false, f, h);
    PeersParse(c, b, k, l, peers, true, h, g);
    EndParses(c, b, l, |b|, g);
  }

  /** The observed text is absent or reads back as the observed address. */
  predicate TextAgrees(c: TextCodec, text: Option<Bytes>, observed: Option<SocketAddr>) {
    if text.Some? then c.parseSocket(text.value) == observed && observed.Some? else observed.None?
  }

  lemma EchoParses(c: TextCodec, b: Bytes, o: nat, e: nat, text: Option<Bytes>, observed: Option<SocketAddr>, f: Fields, g: Fields)
    requires At(b, o, e, Echo(text)) && TextAgrees(c, text, observed) && f.observed.None? && g == f.(observed := observed)
    ensures ParseFields(c, b, o, f) == ParseFields(c, b, e, g)
  {
    if text.Some? {
      ObservedAt(c, b, o, e, text.value, f);
      Advance(c, b, o, f, e, g);
    }
  }

  lemma ReplyParses(c: TextCodec, b: Bytes, interval: u32, text: Option<Bytes>, observed: Option<SocketAddr>, peers: seq<SocketAddr>)
    requires b == Reply(interval, text, peers) && |b| < 0x1_0000_0000_0000_0000 && TextAgrees(c, text, observed)
    ensures b != [] && b[0] == CHAR_D
    ensures ParseFields(c, b, 1, NO_FIELDS) == Some(Parsed(Fields(Some(interval), 0, Collected(peers), observed), |b|))
  {
    var s1, s2, s3, s4 := IntervalPair(interval), Echo(text), PeersPair(peers, false), PeersPair(peers, true);
    var k1 := 1 + |s1|;
    var k2 := k1 + |s2|;
    var k3 := k2 + |s3|;
    var k4 := k3 + |s4|;
    Layout(b, s1, s2, s3, s4, k1, k2, k3, k4);
    var f := NO_FIELDS.(interval := Some(interval));
    var g := f.(observed := observed);
    IntervalAt(c, b, 1, k1, interval, NO_FIELDS);
    Advance(c, b, 1, NO_FIELDS, k1, f);
    EchoParses(c, b, k1, k2, text, observed, f, g);
    TailParses(c, b, k2, k3, k4, peers, g, g.(addresses := Collected(peers)));
  }

  lemma CollectedOk(peers: seq<SocketAddr>)
    requires |peers| <= MAX_PEERS
    ensures |Collected(peers)| <= MAX_PEERS
    ensures forall a :: a in Collected(peers) <==> a in peers && Usable(a)
  {
    FamiliesCover(peers);
    AdmitAllOk([], OfFamily(peers, false));
    AdmitAllOk([], OfFamily(peers, true));
  }

  /** A positive interval is required and raised to the minimum; the addresses come out in order and once each. */
  lemma FinishOk(f: Fields)
    requires |f.addresses| <= MAX_PEERS && f.interval.Some?
    ensures Finish(f).Some? <==> f.interval.value > 0
    ensures Finish(f).Some? ==>
      var r := Finish(f).value;
      && r.interval == (if f.minimum > f.interval.value then f.minimum else f.interval.value) && r.observed == f.observed
      && StrictlySorted(r.addresses) && forall a :: a in r.addresses <==> a in f.addresses
  {
    SortOk(f.addresses);
    SortKeepsElements(f.addresses);
    DedupOk(Sort(f.addresses));
    DedupShrinks(Sort(f.addresses));
  }

  /** With too many addresses the 16 smallest are kept. */
  lemma FinishKeepsSmallest(f: Fields)
    requires f.interval.Some? && f.interval.value > 0
    ensures Finish(f).Some?
    ensures var kept := Finish(f).value.addresses;
      && StrictlySorted(kept) && |kept| <= 16
      && (forall a :: a in kept ==> a in f.addresses)
      && forall a :: a in f.addresses && a !in kept ==> |kept| == 16 && forall b :: b in kept ==> Less(b, a)
  {
    var all := Dedup(Sort(f.addresses));
    SortOk(f.addresses);
    SortKeepsElements(f.addresses);
    DedupOk(Sort(f.addresses));
    var kept := Truncated(all);
    forall a | a in f.addresses && a !in kept
      ensures |kept| == 16 && forall b :: b in kept ==> Less(b, a)
    {
      assert a in all;
      var i :| 0 <= i < |all| && all[i] == a;
      assert |all| > 16 && i >= 16;
    }
  }

  /** The length of the longest text the Rust standard library prints for a socket address. */
  const LONGEST_ADDRESS: nat := 58

  function Pow10(k: nat): nat {
    if k == 0 then 1 else 10 * Pow10(k - 1)
  }

  lemma {:induction false} PrintIsShort(n: nat, k: nat)
    requires k > 0 && n < Pow10(k)
    ensures |Print(n)| <= k
  {
    if n >= 10 {
      PrintIsShort(n / 10, k - 1);
    }
  }

  lemma {:induction false} EncodedIsShort(peers: seq<SocketAddr>, ipv6: bool)
    ensures |EncodePeers(peers, ipv6)| <= 18 * |peers|
  {
    if peers != [] {
      EncodedIsShort(peers[1..], ipv6);
    }
  }

  lemma TextPairIsShort(key: Bytes, text: Bytes)
    requires |key| < 1000 && |text| < 1000
    ensures |TextPair(key, text)| <= |key| + |text| + 8
  {
    assert Pow10(3) == 1000;
    PrintIsShort(|key|, 3);
    PrintIsShort(|text|, 3);
  }

  lemma IntervalIsShort(interval: u32)
    ensures |IntervalPair(interval)| <= 24
  {
    assert Pow10(1) == 10 && Pow10(4) == 10_000 && Pow10(7) == 10_000_000 && Pow10(10) == 10_000_000_000;
    PrintIsShort(interval, 10);
    PrintIsShort(|KEY_INTERVAL|, 1);
  }

  /** A reply with at most 16 peers is well within the client's limit. */
  lemma ReplyFits(interval: u32, text: Option<Bytes>, peers: seq<SocketAddr>)
    requires |peers| <= MAX_PEERS && (text.Some? ==> |text.value| <= LONGEST_ADDRESS)
    ensures |Reply(interval, text, peers)| <= MAX_RESPONSE
  {
    IntervalIsShort(interval);
    EncodedIsShort(peers, false);
    EncodedIsShort(peers, true);
    if text.Some? {
      TextPairIsShort(KEY_OBSERVED, text.value);
    }
    TextPairIsShort(KEY_PEERS, EncodePeers(peers, false));
    TextPairIsShort(KEY_PEERS6, EncodePeers(peers, true));
  }

  /**
   The client undoes the server: the interval and the observed address come back, and the addresses are
   exactly the usable peers, in order and once each. A zero interval is refused.
   */
  lemma RoundTrip(c: TextCodec, interval: u32, text: Option<Bytes>, observed: Option<SocketAddr>, peers: seq<SocketAddr>)
    requires TextAgrees(c, text, observed) && (text.Some? ==> |text.value| <= LONGEST_ADDRESS)
    requires |peers| <= MAX_PEERS
    ensures ParseResponse(c, Reply(interval, text, peers)).Some? <==> interval > 0
    ensures interval > 0 ==>
      var r := ParseResponse(c, Reply(interval, text, peers)).value;
      && r.interval == interval && r.observed == observed
      && StrictlySorted(r.addresses) && forall a :: a in r.addresses <==> a in peers && Usable(a)
  {
    var b := Reply(interval, text, peers);
    ReplyFits(interval, text, peers);
    ReplyParses(c, b, interval, text, observed, peers);
    var f := Fields(Some(interval), 0, Collected(peers), observed);
    assert ParseResponse(c, b) == Finish(f);
    CollectedOk(peers);
    FinishOk(f);
  }

  /** What the client gets depends on which usable peers were sent, not on their order or repetition. */
  lemma OrderIsForgotten(c: TextCodec, interval: u32, text: Option<Bytes>, observed: Option<SocketAddr>,
                         peers: seq<SocketAddr>, others: seq<SocketAddr>)
    requires TextAgrees(c, text, observed) && (text.Some? ==> |text.value| <= LONGEST_ADDRESS)
    requires |peers| <= MAX_PEERS && |others| <= MAX_PEERS
    requires forall a :: Usable(a) ==> (a in peers <==> a in others)
    ensures ParseResponse(c, Reply(interval, text, peers)) == ParseResponse(c, Reply(interval, text, others))
  {
    RoundTrip(c, interval, text, observed, peers);
    RoundTrip(c, interval, text, observed, others);
    if interval > 0 {
      var r, s := ParseResponse(c, Reply(interval, text, peers)).value, ParseResponse(c, Reply(interval, text, others)).value;
      StrictlySortedIsUnique(r.addresses, s.addresses);
    }
  }

  lemma SortKeepsElements(s: seq<SocketAddr>)
    ensures |Sort(s)| == |s| && forall a :: a in Sort(s) <==> a in s
  {
    SortOk(s);
    assert |multiset(Sort(s))| == |multiset(s)|;
    assert forall a :: a in Sort(s) <==> a in multiset(Sort(s));
    assert forall a :: a in s <==> a in multiset(s);
  }

  lemma {:induction false} DedupShrinks(s: seq<SocketAddr>)
    ensures |Dedup(s)| <= |s|
  {
    if |s| >= 2 {
      DedupShrinks(s[1..]);
    }
  }
}
