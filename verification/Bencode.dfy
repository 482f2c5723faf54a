/**
 The bencode reader of the tracker client as functions of the bytes and an offset. Each returns its value
 and the offset after it, or None where the program reports an error.
 */
module Bencode {
  import opened Prelude
  import opened Decimal
  import opened Net

  const MAX_PEERS: nat := 16
  const MAX_RESPONSE: nat := 16 * 1024
  const MAX_DEPTH: nat := 8

  const CHAR_I: byte := 105
  const CHAR_L: byte := 108
  const CHAR_D: byte := 100
  const CHAR_E: byte := 101
  const CHAR_COLON: byte := 58

  datatype Parsed<+T> = Parsed(value: T, end: nat)

  /** The text forms of addresses, which belong to the Rust standard library. */
  datatype TextCodec = TextCodec(parseIp: Bytes -> Option<IpAddr>, parseSocket: Bytes -> Option<SocketAddr>)

  // ----- Strings and integers -----

  /** The first offset from `o` on that does not hold a digit. */
  function DigitsEnd(b: Bytes, o: nat): (e: nat)
    requires o <= |b|
    ensures o <= e <= |b|
    decreases |b| - o
  {
    if o == |b| || !IsDigit(b[o]) then o else DigitsEnd(b, o + 1)
  }

  function ParseString(b: Bytes, o: nat): (r: Option<Parsed<Bytes>>)
    requires o <= |b|
    ensures r.Some? ==> o < r.value.end <= |b|
  {
    var d := DigitsEnd(b, o);
    if d == |b| || b[d] != CHAR_COLON || d == o then None
    else
      var length := ParseDigits(b[o..d], 0x1_0000_0000_0000_0000);
      if length.None? || d + 1 + length.value > |b| then None
      else Some(Parsed(b[d + 1..d + 1 + length.value], d + 1 + length.value))
  }

  /** The first offset from `o` on that holds an `e`, or the length. */
  function NextE(b: Bytes, o: nat): (e: nat)
    requires o <= |b|
    ensures o <= e <= |b|
    decreases |b| - o
  {
    if o == |b| || b[o] == CHAR_E then o else NextE(b, o + 1)
  }

  function ParseInteger(b: Bytes, o: nat): (r: Option<Parsed<int>>)
    requires o <= |b|
    ensures r.Some? ==> o < r.value.end <= |b|
  {
    if o == |b| || b[o] != CHAR_I then None
    else
      var e := NextE(b, o + 1);
      if e == |b| then None
      else
        var value := ParseI64(b[o + 1..e]);
        if value.None? then None else Some(Parsed(value.value, e + 1))
  }

  // ----- Skipping -----

  /** The end of one value of any kind at the given depth. */
  function Skip(b: Bytes, o: nat, depth: nat): (end: Option<nat>)
    requires o <= |b|
    ensures end.Some? ==> o < end.value <= |b|
    decreases |b| - o, 0
  {
    if depth > MAX_DEPTH || o == |b| then None
    else if b[o] == CHAR_I then
      var r := ParseInteger(b, o);
      if r.None? then None else Some(r.value.end)
    else if IsDigit(b[o]) then
      var r := ParseString(b, o);
      if r.None? then None else Some(r.value.end)
    else if b[o] == CHAR_L || b[o] == CHAR_D then SkipItems(b, o + 1, b[o] == CHAR_D, depth)
    else None
  }

  function SkipKey(b: Bytes, o: nat, dictionary: bool): (end: Option<nat>)
    requires o <= |b|
    ensures end.Some? ==> o <= end.value <= |b|
  {
    if !dictionary then Some(o)
    else
      var r := ParseString(b, o);
      if r.None? then None else Some(r.value.end)
  }

  /** The end of the rest of a list or dictionary, after its closing byte. */
  function SkipItems(b: Bytes, o: nat, dictionary: bool, depth: nat): (end: Option<nat>)
    requires o <= |b|
    ensures end.Some? ==> o < end.value <= |b|
    decreases |b| - o, 1
  {
    if o == |b| then None
    else if b[o] == CHAR_E then Some(o + 1)
    else
      var key := SkipKey(b, o, dictionary);
      if key.None? then None
      else
        var value := Skip(b, key.value, depth + 1);
        if value.None? then None else SkipItems(b, value.value, dictionary, depth)
  }

  // ----- Peer addresses -----

  predicate Usable(a: SocketAddr) {
    && a.port != 0
    && (exists i | 0 <= i < |a.ip.octets| :: a.ip.octets[i] != 0)
    && !(if a.ip.V4? then 224 <= a.ip.octets[0] < 240 else a.ip.octets[0] == 255)
    && a.ip != V4([255, 255, 255, 255])
  }

  /** Takes a peer unless it is unusable, known or beyond the limit. */
  function Admit(peers: seq<SocketAddr>, a: SocketAddr): seq<SocketAddr> {
    if |peers| < MAX_PEERS && Usable(a) && a !in peers then peers + [a] else peers
  }

  function Stride(ipv6: bool): nat {
    if ipv6 then 18 else 6
  }

  function CompactEntry(entry: Bytes, ipv6: bool): SocketAddr
    requires |entry| == Stride(ipv6)
  {
    var n := |entry| - 2;
    SocketAddr(if ipv6 then V6(entry[..n]) else V4(entry[..n]), PortOf(entry[n], entry[n + 1]))
  }

  function CompactInto(peers: seq<SocketAddr>, s: Bytes, ipv6: bool): seq<SocketAddr>
    decreases |s|
  {
    if |s| < Stride(ipv6) || |peers| == MAX_PEERS then peers
    else CompactInto(Admit(peers, CompactEntry(s[..Stride(ipv6)], ipv6)), s[Stride(ipv6)..], ipv6)
  }

  function Compact(s: Bytes, ipv6: bool): Option<seq<SocketAddr>> {
    if |s| % Stride(ipv6) != 0 then None else Some(CompactInto([], s, ipv6))
  }

  datatype PeerFields = PeerFields(ip: Option<IpAddr>, port: Option<u16>)

  const KEY_IP: Bytes := [105, 112]
  const KEY_PORT: Bytes := [112, 111, 114, 116]

  /** One key and value of a peer dictionary. */
  function ParsePeerField(c: TextCodec, b: Bytes, o: nat, fields: PeerFields): (r: Option<Parsed<PeerFields>>)
    requires o <= |b|
    ensures r.Some? ==> o < r.value.end <= |b|
  {
    var key := ParseString(b, o);
    if key.None? then None
    else if key.value.value == KEY_IP then
      var text := ParseString(b, key.value.end);
      if text.None? then None
      else
        var ip := c.parseIp(text.value.value);
        if ip.None? then None else Some(Parsed(fields.(ip := ip), text.value.end))
    else if key.value.value == KEY_PORT then
      var n := ParseInteger(b, key.value.end);
      if n.None? || !(0 <= n.value.value < 0x1_0000) then None
      else Some(Parsed(fields.(port := Some(n.value.value)), n.value.end))
    else
      var n := Skip(b, key.value.end, 1);
      if n.None? then None else Some(Parsed(fields, n.value))
  }

  function ParsePeerFields(c: TextCodec, b: Bytes, o: nat, fields: PeerFields): (r: Option<Parsed<PeerFields>>)
    requires o <= |b|
    ensures r.Some? ==> o < r.value.end <= |b|
    decreases |b| - o
  {
    if o == |b| then None
    else if b[o] == CHAR_E then Some(Parsed(fields, o + 1))
    else
      var field := ParsePeerField(c, b, o, fields);
      if field.None? then None else ParsePeerFields(c, b, field.value.end, field.value.value)
  }

  /** One peer dictionary, which must name an address and a port. */
  function ParsePeer(c: TextCodec, b: Bytes, o: nat): (r: Option<Parsed<SocketAddr>>)
    requires o <= |b|
    ensures r.Some? ==> o < r.value.end <= |b|
  {
    if o == |b| || b[o] != CHAR_D then None
    else
      var f := ParsePeerFields(c, b, o + 1, PeerFields(None, None));
      if f.None? || f.value.value.ip.None? || f.value.value.port.None? then None
      else Some(Parsed(SocketAddr(f.value.value.ip.value, f.value.value.port.value), f.value.end))
  }

  function ParsePeerList(c: TextCodec, b: Bytes, o: nat, peers: seq<SocketAddr>): (r: Option<Parsed<seq<SocketAddr>>>)
    requires o <= |b|
    ensures r.Some? ==> o < r.value.end <= |b|
    decreases |b| - o
  {
    if o == |b| then None
    else if b[o] == CHAR_E then Some(Parsed(peers, o + 1))
    else
      var peer := ParsePeer(c, b, o);
      if peer.None? then None else ParsePeerList(c, b, peer.value.end, Admit(peers, peer.value.value))
  }

  /** Peers come as a compact string or as a list of dictionaries. */
  function ParsePeers(c: TextCodec, b: Bytes, o: nat): (r: Option<Parsed<seq<SocketAddr>>>)
    requires o <= |b|
    ensures r.Some? ==> o < r.value.end <= |b|
  {
    if o == |b| then None
    else if b[o] != CHAR_L then ParseCompact(b, o, false)
    else ParsePeerList(c, b, o + 1, [])
  }

  function ParseCompact(b: Bytes, o: nat, ipv6: bool): (r: Option<Parsed<seq<SocketAddr>>>)
    requires o <= |b|
    ensures r.Some? ==> o < r.value.end <= |b|
  {
    var text := ParseString(b, o);
    if text.None? then None
    else
      var peers := Compact(text.value.value, ipv6);
      if peers.None? then None else Some(Parsed(peers.value, text.value.end))
  }

  // ----- The response dictionary -----

  datatype Fields = Fields(interval: Option<u32>, minimum: u32, addresses: seq<SocketAddr>, observed: Option<SocketAddr>)

  const KEY_FAILURE: Bytes := [102, 97, 105, 108, 117, 114, 101, 32, 114, 101, 97, 115, 111, 110]
  const KEY_INTERVAL: Bytes := [105, 110, 116, 101, 114, 118, 97, 108]
  const KEY_MIN_INTERVAL: Bytes := [109, 105, 110, 32, 105, 110, 116, 101, 114, 118, 97, 108]
  const KEY_PEERS: Bytes := [112, 101, 101, 114, 115]
  const KEY_PEERS6: Bytes := [112, 101, 101, 114, 115, 54]
  const KEY_OBSERVED: Bytes := [108, 116, 95, 111, 98, 115, 101, 114, 118, 101, 100]

  function ParseU32(b: Bytes, o: nat): (r: Option<Parsed<u32>>)
    requires o <= |b|
    ensures r.Some? ==> o < r.value.end <= |b|
  {
    var n := ParseInteger(b, o);
    if n.None? || !(0 <= n.value.value < 0x1_0000_0000) then None else Some(Parsed(n.value.value, n.value.end))
  }

  /** The value of a key, applied to the fields; a failure reason is an error. */
  function ParseValue(c: TextCodec, key: Bytes, b: Bytes, o: nat, f: Fields): (r: Option<Parsed<Fields>>)
    requires o <= |b|
    ensures r.Some? ==> o < r.value.end <= |b|
  {
    if key == KEY_FAILURE then None
    else if key == KEY_INTERVAL then
      var n := ParseU32(b, o);
      if n.None? then None else Some(Parsed(f.(interval := Some(n.value.value)), n.value.end))
    else if key == KEY_MIN_INTERVAL then
      var n := ParseU32(b, o);
      if n.None? then None else Some(Parsed(f.(minimum := n.value.value), n.value.end))
    else if key == KEY_PEERS then
      var peers := ParsePeers(c, b, o);
      if peers.None? then None else Some(Parsed(f.(addresses := f.addresses + peers.value.value), peers.value.end))
    else if key == KEY_PEERS6 then
      var peers := ParseCompact(b, o, true);
      if peers.None? then None else Some(Parsed(f.(addresses := f.addresses + peers.value.value), peers.value.end))
    else if key == KEY_OBSERVED then
      var text := ParseString(b, o);
      if text.None? then None
      else
        var a := c.parseSocket(text.value.value);
        if a.None? then None else Some(Parsed(f.(observed := a), text.value.end))
    else
      var n := Skip(b, o, 0);
      if n.None? then None else Some(Parsed(f, n.value))
  }

  function ParseField(c: TextCodec, b: Bytes, o: nat, f: Fields): (r: Option<Parsed<Fields>>)
    requires o <= |b|
    ensures r.Some? ==> o < r.value.end <= |b|
  {
    var key := ParseString(b, o);
    if key.None? then None else ParseValue(c, key.value.value, b, key.value.end, f)
  }

  function ParseFields(c: TextCodec, b: Bytes, o: nat, f: Fields): (r: Option<Parsed<Fields>>)
    requires o <= |b|
    ensures r.Some? ==> o < r.value.end <= |b|
    decreases |b| - o
  {
    if o == |b| then None
    else if b[o] == CHAR_E then Some(Parsed(f, o + 1))
    else
      var field := ParseField(c, b, o, f);
      if field.None? then None else ParseFields(c, b, field.value.end, field.value.value)
  }

  datatype Peers = Peers(interval: u32, addresses: seq<SocketAddr>, observed: Option<SocketAddr>)

  const NO_FIELDS: Fields := Fields(None, 0, [], None)

  function Truncated(s: seq<SocketAddr>): seq<SocketAddr> {
    if |s| <= MAX_PEERS then s else s[..MAX_PEERS]
  }

  /** The interval must be present and positive; addresses are sorted, deduplicated and cut off. */
  function Finish(f: Fields): Option<Peers> {
    if f.interval.None? || f.interval.value == 0 then None
    else
      var interval := if f.interval.value < f.minimum then f.minimum else f.interval.value;
      Some(Peers(interval, Truncated(Dedup(Sort(f.addresses))), f.observed))
  }

  /** The whole body: one dictionary and nothing after it. */
  function ParseResponse(c: TextCodec, b: Bytes): Option<Peers> {
    if |b| > MAX_RESPONSE || b == [] || b[0] != CHAR_D then None
    else
      var r := ParseFields(c, b, 1, NO_FIELDS);
      if r.None? || r.value.end != |b| then None else Finish(r.value.value)
  }
}
