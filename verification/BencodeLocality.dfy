/**
 Every reader depends only on the bytes it consumes: where two bodies agree on those, up to a shift of the
 offset, both readings succeed with one value. So a reader that accepts fails on every cut.
 */
module BencodeLocality {
  import opened Prelude
  import opened Decimal
  import opened Net
  import opened Bencode

  /** The bytes of `b` from `lo` up to `hi` stand in `t` as well, `d` places further on. */
  ghost predicate Same(b: Bytes, t: Bytes, d: int, lo: nat, hi: nat) {
    && lo <= hi <= |b| && 0 <= lo + d && hi + d <= |t|
    && forall i {:trigger b[i]} :: lo <= i < hi ==> b[i] == t[i + d]
  }

  /** The reading from `o` to `e` in the one body corresponds to that from `p` to `q` in the other. */
  ghost predicate Twin(b: Bytes, t: Bytes, d: int, o: nat, e: nat, p: nat, q: nat) {
    o <= e && p == o + d && q == e + d && Same(b, t, d, o, e)
  }

  lemma {:induction false} DigitsEndIsLocal(b: Bytes, t: Bytes, d: int, o: nat, e: nat, p: nat, q: nat)
    requires Twin(b, t, d, o, e, p, q) && DigitsEnd(b, o) < e
    ensures DigitsEnd(t, p) == DigitsEnd(b, o) + d
    decreases e - o
  {
    if IsDigit(b[o]) {
      DigitsEndIsLocal(b, t, d, o + 1, e, p + 1, q);
    }
  }

  lemma {:induction false} NextEIsLocal(b: Bytes, t: Bytes, d: int, o: nat, e: nat, p: nat, q: nat)
    requires Twin(b, t, d, o, e, p, q) && NextE(b, o) < e
    ensures NextE(t, p) == NextE(b, o) + d
    decreases e - o
  {
    if b[o] != CHAR_E {
      NextEIsLocal(b, t, d, o + 1, e, p + 1, q);
    }
  }

  lemma StringIsLocal(b: Bytes, t: Bytes, d: int, o: nat, e: nat, p: nat, q: nat, s: Bytes)
    requires Twin(b, t, d, o, e, p, q) && ParseString(b, o) == Some(Parsed(s, e))
    ensures ParseString(t, p) == Some(Parsed(s, q))
  {
    var k := DigitsEnd(b, o);
    DigitsEndIsLocal(b, t, d, o, e, p, q);
    assert b[k] == CHAR_COLON;
    assert b[o..k] == t[p..k + d];
    assert b[k + 1..e] == t[k + 1 + d..q];
  }

  lemma IntegerIsLocal(b: Bytes, t: Bytes, d: int, o: nat, e: nat, p: nat, q: nat, v: int)
    requires Twin(b, t, d, o, e, p, q) && ParseInteger(b, o) == Some(Parsed(v, e))
    ensures ParseInteger(t, p) == Some(Parsed(v, q))
  {
    NextEIsLocal(b, t, d, o + 1, e, p + 1, q);
    assert b[o] == CHAR_I;
    assert b[o + 1..e - 1] == t[p + 1..q - 1];
  }

  lemma {:induction false} SkipIsLocal(b: Bytes, t: Bytes, d: int, o: nat, e: nat, p: nat, q: nat, depth: nat)
    requires Twin(b, t, d, o, e, p, q) && Skip(b, o, depth) == Some(e)
    ensures Skip(t, p, depth) == Some(q)
    decreases |b| - o, 0
  {
    if b[o] == CHAR_I {
      IntegerIsLocal(b, t, d, o, e, p, q, ParseInteger(b, o).value.value);
    } else if IsDigit(b[o]) {
      StringIsLocal(b, t, d, o, e, p, q, ParseString(b, o).value.value);
    } else {
      SkipItemsIsLocal(b, t, d, o + 1, e, p + 1, q, b[o] == CHAR_D, depth);
    }
  }

  lemma SkipKeyIsLocal(b: Bytes, t: Bytes, d: int, o: nat, e: nat, p: nat, q: nat, dictionary: bool)
    requires Twin(b, t, d, o, e, p, q) && SkipKey(b, o, dictionary) == Some(e)
    ensures SkipKey(t, p, dictionary) == Some(q)
  {
    if dictionary {
      StringIsLocal(b, t, d, o, e, p, q, ParseString(b, o).value.value);
    }
  }

  lemma {:induction false} SkipItemsIsLocal(b: Bytes, t: Bytes, d: int, o: nat, e: nat, p: nat, q: nat, dictionary: bool, depth: nat)
    requires Twin(b, t, d, o, e, p, q) && SkipItems(b, o, dictionary, depth) == Some(e)
    ensures SkipItems(t, p, dictionary, depth) == Some(q)
    decreases |b| - o, 1
  {
    if b[o] != CHAR_E {
      var k := SkipKey(b, o, dictionary).value;
      var v := Skip(b, k, depth + 1).value;
      var k', v' := k + d, v + d;
      SkipKeyIsLocal(b, t, d, o, k, p, k', dictionary);
      SkipIsLocal(b, t, d, k, v, k', v', depth + 1);
      SkipItemsIsLocal(b, t, d, v, e, v', q, dictionary, depth);
    }
  }

  lemma PeerFieldIsLocal(c: TextCodec, b: Bytes, t: Bytes, d: int, o: nat, e: nat, p: nat, q: nat, f: PeerFields, g: PeerFields)
    requires Twin(b, t, d, o, e, p, q) && ParsePeerField(c, b, o, f) == Some(Parsed(g, e))
    ensures ParsePeerField(c, t, p, f) == Some(Parsed(g, q))
  {
    var Parsed(key, k) := ParseString(b, o).value;
    var k' := k + d;
    StringIsLocal(b, t, d, o, k, p, k', key);
    if key == KEY_IP {
      StringIsLocal(b, t, d, k, e, k', q, ParseString(b, k).value.value);
    } else if key == KEY_PORT {
      IntegerIsLocal(b, t, d, k, e, k', q, ParseInteger(b, k).value.value);
    } else {
      SkipIsLocal(b, t, d, k, e, k', q, 1);
    }
  }

  lemma {:induction false} PeerFieldsIsLocal(c: TextCodec, b: Bytes, t: Bytes, d: int, o: nat, e: nat, p: nat, q: nat, f: PeerFields, g: PeerFields)
    requires Twin(b, t, d, o, e, p, q) && ParsePeerFields(c, b, o, f) == Some(Parsed(g, e))
    ensures ParsePeerFields(c, t, p, f) == Some(Parsed(g, q))
    decreases |b| - o
  {
    if b[o] != CHAR_E {
      var Parsed(h, k) := ParsePeerField(c, b, o, f).value;
      var k' := k + d;
      PeerFieldIsLocal(c, b, t, d, o, k, p, k', f, h);
      PeerFieldsIsLocal(c, b, t, d, k, e, k', q, h, g);
    }
  }

  lemma PeerIsLocal(c: TextCodec, b: Bytes, t: Bytes, d: int, o: nat, e: nat, p: nat, q: nat, a: SocketAddr)
    requires Twin(b, t, d, o, e, p, q) && ParsePeer(c, b, o) == Some(Parsed(a, e))
    ensures ParsePeer(c, t, p) == Some(Parsed(a, q))
  {
    assert b[o] == t[p] == CHAR_D;
    var k, k' := o + 1, p + 1;
    var f := ParsePeerFields(c, b, k, PeerFields(None, None)).value.value;
    PeerFieldsIsLocal(c, b, t, d, k, e, k', q, PeerFields(None, None), f);
  }

  lemma {:induction false} PeerListIsLocal(c: TextCodec, b: Bytes, t: Bytes, d: int, o: nat, e: nat, p: nat, q: nat,
                                           a: seq<SocketAddr>, r: seq<SocketAddr>)
    requires Twin(b, t, d, o, e, p, q) && ParsePeerList(c, b, o, a) == Some(Parsed(r, e))
    ensures ParsePeerList(c, t, p, a) == Some(Parsed(r, q))
    decreases |b| - o
  {
    if b[o] != CHAR_E {
      var Parsed(peer, k) := ParsePeer(c, b, o).value;
      var k' := k + d;
      PeerIsLocal(c, b, t, d, o, k, p, k', peer);
      PeerListIsLocal(c, b, t, d, k, e, k', q, Admit(a, peer), r);
    }
  }

  lemma CompactIsLocal(b: Bytes, t: Bytes, d: int, o: nat, e: nat, p: nat, q: nat, ipv6: bool, r: seq<SocketAddr>)
    requires Twin(b, t, d, o, e, p, q) && ParseCompact(b, o, ipv6) == Some(Parsed(r, e))
    ensures ParseCompact(t, p, ipv6) == Some(Parsed(r, q))
  {
    StringIsLocal(b, t, d, o, e, p, q, ParseString(b, o).value.value);
  }

  lemma PeersIsLocal(c: TextCodec, b: Bytes, t: Bytes, d: int, o: nat, e: nat, p: nat, q: nat, r: seq<SocketAddr>)
    requires Twin(b, t, d, o, e, p, q) && ParsePeers(c, b, o) == Some(Parsed(r, e))
    ensures ParsePeers(c, t, p) == Some(Parsed(r, q))
  {
    if b[o] == CHAR_L {
      PeerListIsLocal(c, b, t, d, o + 1, e, p + 1, q, [], r);
    } else {
      CompactIsLocal(b, t, d, o, e, p, q, false, r);
    }
  }

  lemma ValueIsLocal(c: TextCodec, key: Bytes, b: Bytes, t: Bytes, d: int, o: nat, e: nat, p: nat, q: nat, f: Fields, g: Fields)
    requires Twin(b, t, d, o, e, p, q) && ParseValue(c, key, b, o, f) == Some(Parsed(g, e))
    ensures ParseValue(c, key, t, p, f) == Some(Parsed(g, q))
  {
    if key == KEY_INTERVAL || key == KEY_MIN_INTERVAL {
      IntegerIsLocal(b, t, d, o, e, p, q, ParseInteger(b, o).value.value);
    } else if key == KEY_PEERS {
      PeersIsLocal(c, b, t, d, o, e, p, q, ParsePeers(c, b, o).value.value);
    } else if key == KEY_PEERS6 {
      CompactIsLocal(b, t, d, o, e, p, q, true, ParseCompact(b, o, true).value.value);
    } else if key == KEY_OBSERVED {
      StringIsLocal(b, t, d, o, e, p, q, ParseString(b, o).value.value);
    } else {
      SkipIsLocal(b, t, d, o, e, p, q, 0);
    }
  }

  lemma FieldIsLocal(c: TextCodec, b: Bytes, t: Bytes, d: int, o: nat, e: nat, p: nat, q: nat, f: Fields, g: Fields)
    requires Twin(b, t, d, o, e, p, q) && ParseField(c, b, o, f) == Some(Parsed(g, e))
    ensures ParseField(c, t, p, f) == Some(Parsed(g, q))
  {
    var Parsed(key, k) := ParseString(b, o).value;
    var k' := k + d;
    StringIsLocal(b, t, d, o, k, p, k', key);
    ValueIsLocal(c, key, b, t, d, k, e, k', q, f, g);
  }

  lemma {:induction false} FieldsIsLocal(c: TextCodec, b: Bytes, t: Bytes, d: int, o: nat, e: nat, p: nat, q: nat, f: Fields, g: Fields)
    requires Twin(b, t, d, o, e, p, q) && ParseFields(c, b, o, f) == Some(Parsed(g, e))
    ensures ParseFields(c, t, p, f) == Some(Parsed(g, q))
    decreases |b| - o
  {
    if b[o] != CHAR_E {
      var Parsed(h, k) := ParseField(c, b, o, f).value;
      var k' := k + d;
      FieldIsLocal(c, b, t, d, o, k, p, k', f, h);
      FieldsIsLocal(c, b, t, d, k, e, k', q, h, g);
    }
  }

  /** Accepted responses are prefix-free: cutting an accepted body anywhere makes it an error. */
  lemma AcceptedIsPrefixFree(c: TextCodec, b: Bytes, cut: nat)
    requires ParseResponse(c, b).Some? && cut < |b|
    ensures ParseResponse(c, b[..cut]).None?
  {
    var s := b[..cut];
    if ParseResponse(c, s).Some? {
      FieldsIsLocal(c, s, b, 0, 1, cut, 1, cut, NO_FIELDS, ParseFields(c, s, 1, NO_FIELDS).value.value);
    }
  }
}
