/** The bencode reader in the program's own form: an object that advances an offset. */
module BencodeReader {
  import opened Prelude
  import opened Decimal
  import opened Net
  import opened Bencode

  /** The peers of a compact string. */
  method ReadCompact(bytes: Bytes, ipv6: bool) returns (r: Option<seq<SocketAddr>>)
    ensures r == Compact(bytes, ipv6)
  {
    var stride := if ipv6 then 18 else 6;
    if |bytes| % stride != 0 {
      return None;
    }
    var peers: seq<SocketAddr> := [];
    var i := 0;
    while i + stride <= |bytes|
      invariant i <= |bytes| && |peers| < MAX_PEERS
      invariant CompactInto([], bytes, ipv6) == CompactInto(peers, bytes[i..], ipv6)
      decreases |bytes| - i
    {
      var entry := bytes[i..i + stride];
      assert entry == bytes[i..][..stride] && bytes[i + stride..] == bytes[i..][stride..];
      i := i + stride;
      var n := stride - 2;
      var ip: IpAddr := if ipv6 then V6(entry[..n]) else V4(entry[..n]);
      var address := SocketAddr(ip, PortOf(entry[n], entry[n + 1]));
      if !Usable(address) {
        continue;
      }
      if address !in peers {
        peers := peers + [address];
      }
      if |peers| == MAX_PEERS {
        break;
      }
    }
    return Some(peers);
  }

  lemma PeersAreListed(c: TextCodec, b: Bytes, o: nat, m: nat)
    requires o < |b| && b[o] == CHAR_L && m == o + 1
    ensures ParsePeers(c, b, o) == ParsePeerList(c, b, m, [])
  {
  }

  class Reader {
    const bytes: Bytes
    var offset: nat

    ghost predicate Valid()
      reads this
    {
      offset <= |bytes|
    }

    constructor (bytes: Bytes)
      ensures Valid() && this.bytes == bytes && offset == 0
    {
      this.bytes := bytes;
      offset := 0;
    }

    method Peek() returns (r: Option<byte>)
      requires Valid()
      ensures r == if offset < |bytes| then Some(bytes[offset]) else None
    {
      r := if offset < |bytes| then Some(bytes[offset]) else None;
    }

    method String() returns (r: Option<Bytes>)
      requires Valid()
      modifies this
      ensures Valid() && r.Some? == ParseString(bytes, old(offset)).Some?
      ensures r.Some? ==> ParseString(bytes, old(offset)).value == Parsed(r.value, offset)
    {
      var start := offset;
      var next := Peek();
      while next.Some? && IsDigit(next.value)
        invariant start <= offset <= |bytes|
        invariant next == if offset < |bytes| then Some(bytes[offset]) else None
        invariant DigitsEnd(bytes, start) == DigitsEnd(bytes, offset)
        decreases |bytes| - offset
      {
        offset := offset + 1;
        next := Peek();
      }
      if next.None? || next.value != CHAR_COLON || offset == start {
        return None;
      }
      var length := ParseDigits(bytes[start..offset], 0x1_0000_0000_0000_0000);
      if length.None? {
        return None;
      }
      offset := offset + 1;
      var end := offset + length.value;
      if end > |bytes| {
        return None;
      }
      r := Some(bytes[offset..end]);
      offset := end;
    }

    method Integer() returns (r: Option<int>)
      requires Valid()
      modifies this
      ensures Valid() && r.Some? == ParseInteger(bytes, old(offset)).Some?
      ensures r.Some? ==> ParseInteger(bytes, old(offset)).value == Parsed(r.value, offset)
    {
      var next := Peek();
      if next != Some(CHAR_I) {
        return None;
      }
      offset := offset + 1;
      var start := offset;
      next := Peek();
      while next.Some? && next.value != CHAR_E
        invariant start <= offset <= |bytes|
        invariant next == if offset < |bytes| then Some(bytes[offset]) else None
        invariant NextE(bytes, start) == NextE(bytes, offset)
        decreases |bytes| - offset
      {
        offset := offset + 1;
        next := Peek();
      }
      if next.None? {
        return None;
      }
      r := ParseI64(bytes[start..offset]);
      offset := offset + 1;
    }

    /** Steps over one value of any kind; recursion and loop end because every turn consumes a byte. */
    method SkipValue(depth: nat) returns (ok: bool)
      requires Valid()
      modifies this
      ensures Valid() && ok == Skip(bytes, old(offset), depth).Some?
      ensures ok ==> Skip(bytes, old(offset), depth) == Some(offset)
      decreases |bytes| - offset, 0
    {
      if depth > MAX_DEPTH {
        return false;
      }
      var next := Peek();
      if next.None? {
        return false;
      } else if next.value == CHAR_I {
        var n := Integer();
        return n.Some?;
      } else if IsDigit(next.value) {
        var s := String();
        return s.Some?;
      } else if next.value == CHAR_L || next.value == CHAR_D {
        offset := offset + 1;
        ok := SkipContainer(next.value == CHAR_D, depth);
        return;
      }
      return false;
    }

    /** Steps over the items of a list or dictionary and its closing byte. */
    method SkipContainer(dictionary: bool, depth: nat) returns (ok: bool)
      requires Valid()
      modifies this
      ensures Valid() && ok == SkipItems(bytes, old(offset), dictionary, depth).Some?
      ensures ok ==> SkipItems(bytes, old(offset), dictionary, depth) == Some(offset)
      decreases |bytes| - offset, 1
    {
      var next := Peek();
      while next.Some? && next.value != CHAR_E
        invariant old(offset) <= offset <= |bytes|
        invariant next == if offset < |bytes| then Some(bytes[offset]) else None
        invariant SkipItems(bytes, old(offset), dictionary, depth) == SkipItems(bytes, offset, dictionary, depth)
        decreases |bytes| - offset
      {
        if dictionary {
          var key := String();
          if key.None? {
            return false;
          }
        }
        var skipped := SkipValue(depth + 1);
        if !skipped {
          return false;
        }
        next := Peek();
      }
      if next.None? {
        return false;
      }
      offset := offset + 1;
      return true;
    }

    /** The keys and values of one peer dictionary, up to its end. */
    method PeerDictionary(c: TextCodec) returns (r: Option<PeerFields>)
      requires Valid()
      modifies this
      ensures Valid() && r.Some? == ParsePeerFields(c, bytes, old(offset), PeerFields(None, None)).Some?
      ensures r.Some? ==> ParsePeerFields(c, bytes, old(offset), PeerFields(None, None)).value == Parsed(r.value, offset)
    {
      var fields := PeerFields(None, None);
      var next := Peek();
      while next.Some? && next.value != CHAR_E
        invariant old(offset) <= offset <= |bytes|
        invariant next == if offset < |bytes| then Some(bytes[offset]) else None
        invariant ParsePeerFields(c, bytes, old(offset), PeerFields(None, None)) == ParsePeerFields(c, bytes, offset, fields)
        decreases |bytes| - offset
      {
        var key := String();
        if key.None? {
          return None;
        } else if key.value == KEY_IP {
          var text := String();
          if text.None? {
            return None;
          }
          var ip := c.parseIp(text.value);
          if ip.None? {
            return None;
          }
          fields := fields.(ip := ip);
        } else if key.value == KEY_PORT {
          var n := Integer();
          if n.None? || !(0 <= n.value < 0x1_0000) {
            return None;
          }
          fields := fields.(port := Some(n.value));
        } else {
          var skipped := SkipValue(1);
          if !skipped {
            return None;
          }
        }
        next := Peek();
      }
      if next.None? {
        return None;
      }
      offset := offset + 1;
      return Some(fields);
    }

    method CompactPeers(ipv6: bool) returns (r: Option<seq<SocketAddr>>)
      requires Valid()
      modifies this
      ensures Valid() && r.Some? == ParseCompact(bytes, old(offset), ipv6).Some?
      ensures r.Some? ==> ParseCompact(bytes, old(offset), ipv6).value == Parsed(r.value, offset)
    {
      var text := String();
      if text.None? {
        return None;
      }
      r := ReadCompact(text.value, ipv6);
    }

    method Peer(c: TextCodec) returns (r: Option<SocketAddr>)
      requires Valid()
      modifies this
      ensures Valid() && r.Some? == ParsePeer(c, bytes, old(offset)).Some?
      ensures r.Some? ==> ParsePeer(c, bytes, old(offset)).value == Parsed(r.value, offset)
    {
      var next := Peek();
      if next != Some(CHAR_D) {
        return None;
      }
      offset := offset + 1;
      ghost var parsed := ParsePeerFields(c, bytes, old(offset) + 1, PeerFields(None, None));
      var f := PeerDictionary(c);
      assert f.Some? == parsed.Some? && (f.Some? ==> parsed.value == Parsed(f.value, offset));
      if f.None? || f.value.ip.None? || f.value.port.None? {
        return None;
      }
      return Some(SocketAddr(f.value.ip.value, f.value.port.value));
    }

    /** The dictionaries of a peer list, up to its end. */
    method PeerList(c: TextCodec) returns (r: Option<seq<SocketAddr>>)
      requires Valid()
      modifies this
      ensures Valid() && r.Some? == ParsePeerList(c, bytes, old(offset), []).Some?
      ensures r.Some? ==> ParsePeerList(c, bytes, old(offset), []).value == Parsed(r.value, offset)
    {
      ghost var start := offset;
      var peers: seq<SocketAddr> := [];
      var next := Peek();
      while next.Some? && next.value != CHAR_E
        invariant start <= offset <= |bytes|
        invariant next == if offset < |bytes| then Some(bytes[offset]) else None
        invariant ParsePeerList(c, bytes, start, []) == ParsePeerList(c, bytes, offset, peers)
        decreases |bytes| - offset
      {
        var peer := Peer(c);
        if peer.None? {
          return None;
        }
        if |peers| < MAX_PEERS && Usable(peer.value) && peer.value !in peers {
          peers := peers + [peer.value];
        }
        next := Peek();
      }
      if next.None? {
        return None;
      }
      offset := offset + 1;
      return Some(peers);
    }

    method Peers(c: TextCodec) returns (r: Option<seq<SocketAddr>>)
      requires Valid()
      modifies this
      ensures Valid() && r.Some? == ParsePeers(c, bytes, old(offset)).Some?
      ensures r.Some? ==> ParsePeers(c, bytes, old(offset)).value == Parsed(r.value, offset)
    {
      var next := Peek();
      if next.None? {
        return None;
      } else if next.value != CHAR_L {
        r := CompactPeers(false);
      } else {
        offset := offset + 1;
        ghost var parsed := ParsePeerList(c, bytes, old(offset) + 1, []);
        PeersAreListed(c, bytes, old(offset), offset);
        r := PeerList(c);
        assert r.Some? == parsed.Some? && (r.Some? ==> parsed.value == Parsed(r.value, offset));
      }
    }

    method U32() returns (r: Option<u32>)
      requires Valid()
      modifies this
      ensures Valid() && r.Some? == ParseU32(bytes, old(offset)).Some?
      ensures r.Some? ==> ParseU32(bytes, old(offset)).value == Parsed(r.value, offset)
    {
      var n := Integer();
      if n.None? || !(0 <= n.value < 0x1_0000_0000) {
        return None;
      }
      return Some(n.value);
    }

    /** One key of the response and its value. */
    method Field(c: TextCodec, f: Fields) returns (r: Option<Fields>)
      requires Valid()
      modifies this
      ensures Valid() && r.Some? == ParseField(c, bytes, old(offset), f).Some?
      ensures r.Some? ==> ParseField(c, bytes, old(offset), f).value == Parsed(r.value, offset)
    {
      var key := String();
      if key.None? || key.value == KEY_FAILURE {
        return None;
      }
      ghost var k := offset;
      if key.value == KEY_INTERVAL {
        var n := U32();
        r := if n.None? then None else Some(f.(interval := n));
      } else if key.value == KEY_MIN_INTERVAL {
        var n := U32();
        r := if n.None? then None else Some(f.(minimum := n.value));
      } else if key.value == KEY_PEERS {
        var peers := Peers(c);
        r := if peers.None? then None else Some(f.(addresses := f.addresses + peers.value));
      } else if key.value == KEY_PEERS6 {
        var peers := CompactPeers(true);
        r := if peers.None? then None else Some(f.(addresses := f.addresses + peers.value));
      } else if key.value == KEY_OBSERVED {
        var text := String();
        if text.None? {
          return None;
        }
        var a := c.parseSocket(text.value);
        r := if a.None? then None else Some(f.(observed := a));
      } else {
        var skipped := SkipValue(0);
        r := if skipped then Some(f) else None;
      }
      assert r.Some? == ParseValue(c, key.value, bytes, k, f).Some?;
    }
  }

  method HttpResponse(c: TextCodec, bytes: Bytes) returns (r: Option<Bencode.Peers>)
    ensures r == ParseResponse(c, bytes)
  {
    if |bytes| > MAX_RESPONSE {
      return None;
    }
    var parser := new Reader(bytes);
    var next := parser.Peek();
    if next != Some(CHAR_D) {
      return None;
    }
    parser.offset := parser.offset + 1;
    var f := NO_FIELDS;
    next := parser.Peek();
    while next.Some? && next.value != CHAR_E
      invariant parser.Valid() && parser.offset >= 1
      invariant next == if parser.offset < |bytes| then Some(bytes[parser.offset]) else None
      invariant ParseFields(c, bytes, 1, NO_FIELDS) == ParseFields(c, bytes, parser.offset, f)
      decreases |bytes| - parser.offset
    {
      var field := parser.Field(c, f);
      if field.None? {
        return None;
      }
      f := field.value;
      next := parser.Peek();
    }
    if next.None? {
      return None;
    }
    parser.offset := parser.offset + 1;
    if parser.offset != |bytes| {
      return None;
    }
    r := Finish(f);
  }
}
