/**
 The STUN Binding responder of the tracker and its Python twin. Bit operations are written out on numbers:
 clearing and testing the bit of value 2, rounding up to a word, and exclusive or.
 */
module Binding {
  import opened Prelude
  import opened Net

  const MAGIC: Bytes := [0x21, 0x12, 0xa4, 0x42]
  const COOKIE: u32 := 0x2112_a442
  const COOKIE_HIGH: u16 := COOKIE / 0x1_0000
  const BYTE_BITS: nat := 8
  const WORD_BITS: nat := 16
  const HEADER: nat := 20
  const MAX_BODY: nat := 512
  const MAX_MESSAGE: nat := HEADER + MAX_BODY
  const CHANGE_REQUEST: u16 := 3
  const PADDING: u16 := 0x26
  const OPTIONAL: u16 := 0x8000

  // ----- Words and bits -----

  function Word16(p: Bytes, o: nat): u16
    requires o + 2 <= |p|
  {
    PortOf(p[o], p[o + 1])
  }

  function Word32(p: Bytes, o: nat): u32
    requires o + 4 <= |p|
  {
    Word16(p, o) * 0x1_0000 + Word16(p, o + 2)
  }

  /** Whether the bit of value 2 is set. */
  predicate HasTwo(n: nat) {
    n / 2 % 2 == 1
  }

  /** The number with the bit of value 2 cleared. */
  function WithoutTwo(n: nat): nat {
    if HasTwo(n) then n - 2 else n
  }

  /** The next multiple of four. */
  function Aligned(n: nat): nat {
    (n + 3) / 4 * 4
  }

  /** Exclusive or of the lowest `k` bits. */
  function XorBits(a: nat, b: nat, k: nat): (r: nat)
    ensures r < Pow2(k)
  {
    if k == 0 then 0 else (if a % 2 == b % 2 then 0 else 1) + 2 * XorBits(a / 2, b / 2, k - 1)
  }

  lemma {:induction false} XorCancels(a: nat, b: nat, k: nat)
    requires a < Pow2(k)
    ensures XorBits(XorBits(a, b, k), b, k) == a
  {
    if k > 0 {
      var r := XorBits(a / 2, b / 2, k - 1);
      XorCancels(a / 2, b / 2, k - 1);
      assert XorBits(a, b, k) / 2 == r;
    }
  }

  function XorByte(a: byte, b: byte): byte {
    assert Pow2(8) == 256;
    XorBits(a, b, BYTE_BITS)
  }

  function XorWord(a: u16, b: u16): u16 {
    assert Pow2(8) == 256 && Pow2(16) == 0x1_0000;
    XorBits(a, b, WORD_BITS)
  }

  /** The first string masked by the second, as far as both reach. */
  function Masked(s: Bytes, mask: Bytes): (r: Bytes)
    ensures |r| == if |s| < |mask| then |s| else |mask|
    ensures forall i :: 0 <= i < |r| ==> r[i] == XorByte(s[i], mask[i])
  {
    if s == [] || mask == [] then [] else [XorByte(s[0], mask[0])] + Masked(s[1..], mask[1..])
  }

  lemma MaskedTwice(s: Bytes, mask: Bytes)
    requires |s| <= |mask|
    ensures Masked(Masked(s, mask), mask) == s
  {
    forall i | 0 <= i < |s|
      ensures XorByte(XorByte(s[i], mask[i]), mask[i]) == s[i]
    {
      assert Pow2(8) == 256;
      XorCancels(s[i], mask[i], BYTE_BITS);
    }
  }

  // ----- The Rust responder -----

  predicate HeaderOk(p: Bytes) {
    && HEADER <= |p| <= MAX_MESSAGE && p[..2] == [0, 1] && p[4..8] == MAGIC
    && Word16(p, 2) == |p| - HEADER && (|p| - HEADER) % 4 == 0
  }

  datatype Scanned = Scanned(end: nat, changePort: bool)

  /** The loop over attributes from offset `o` on. */
  function Scan(p: Bytes, alternate: bool, o: nat, changePort: bool): Option<Scanned>
    decreases |p| - o
  {
    if o >= |p| then Some(Scanned(o, changePort))
    else if o + 4 > |p| || o + 4 + Word16(p, o + 2) > |p| then None
    else
      var kind, length := Word16(p, o), Word16(p, o + 2);
      var next := Aligned(o + 4 + length);
      if kind == CHANGE_REQUEST then
        if length != 4 then None
        else
          var flags := Word32(p, o + 4);
          if WithoutTwo(flags) != 0 || (flags != 0 && !alternate) then None
          else Scan(p, alternate, next, flags == 2)
      else if kind < OPTIONAL && kind != PADDING then None
      else Scan(p, alternate, next, changePort)
  }

  datatype Answer = Answer(reply: Bytes, changePort: bool)

  /** The header of a success response with a body of `length` bytes. */
  function ReplyHeader(p: Bytes, length: u16): (r: Bytes)
    requires |p| >= HEADER
    ensures |r| == HEADER
  {
    [1, 1] + PortBytes(length) + p[4..20]
  }

  /** XOR-MAPPED-ADDRESS. */
  function Attribute(p: Bytes, source: SocketAddr): (r: Bytes)
    requires |p| >= HEADER
    ensures |r| == 8 + |source.ip.octets|
  {
    [0, 0x20, 0, 4 + |source.ip.octets|, 0, if source.ip.V4? then 1 else 2]
    + PortBytes(XorWord(source.port, COOKIE_HIGH)) + Masked(source.ip.octets, p[4..20])
  }

  function Reply(p: Bytes, source: SocketAddr): Bytes
    requires |p| >= HEADER
  {
    ReplyHeader(p, 8 + |source.ip.octets|) + Attribute(p, source)
  }

  function Response(p: Bytes, source: SocketAddr, alternate: bool): Option<Answer> {
    if !HeaderOk(p) then None
    else
      var s := Scan(p, alternate, HEADER, false);
      if s.None? || s.value.end != |p| || source.port == 0 then None
      else Some(Answer(Reply(p, source), s.value.changePort))
  }

  method Respond(packet: Bytes, source: SocketAddr, alternate: bool) returns (r: Option<Answer>)
    ensures r == Response(packet, source, alternate)
  {
    if |packet| < HEADER || |packet| > MAX_MESSAGE || packet[..2] != [0, 1] || packet[4..8] != MAGIC
       || Word16(packet, 2) != |packet| - HEADER || (|packet| - HEADER) % 4 != 0 {
      return None;
    }
    var offset, changePort := HEADER, false;
    while offset < |packet|
      invariant Scan(packet, alternate, HEADER, false) == Scan(packet, alternate, offset, changePort)
      decreases |packet| - offset
    {
      if offset + 2 > |packet| {
        return None;
      }
      var kind := Word16(packet, offset);
      if offset + 4 > |packet| {
        return None;
      }
      var length := Word16(packet, offset + 2);
      if offset + 4 + length > |packet| {
        return None;
      }
      if kind == CHANGE_REQUEST {
        if length != 4 {
          return None;
        }
        var flags := Word32(packet, offset + 4);
        if WithoutTwo(flags) != 0 || (flags != 0 && !alternate) {
          return None;
        }
        changePort := flags == 2;
      } else if kind < OPTIONAL && kind != PADDING {
        return None;
      }
      offset := Aligned(offset + 4 + length);
    }
    if offset != |packet| || source.port == 0 {
      return None;
    }
    var reply := BuildReply(packet, source);
    return Some(Answer(reply, changePort));
  }

  /** The reply starts as a copy of the request's header, which is then edited in place. */
  method BuildReply(packet: Bytes, source: SocketAddr) returns (reply: Bytes)
    requires |packet| >= HEADER
    ensures reply == Reply(packet, source)
  {
    reply := packet[..20];
    reply := reply[0 := 1][1 := 1];
    var address := source.ip.octets;
    var length := 4 + |address|;
    var size := PortBytes(length + 4);
    reply := reply[2 := size[0]][3 := size[1]];
    assert reply == ReplyHeader(packet, length + 4);
    reply := reply + [0, 0x20, 0, length, 0, if source.ip.V4? then 1 else 2];
    reply := reply + PortBytes(XorWord(source.port, COOKIE_HIGH));
    reply := reply + Masked(address, packet[4..20]);
    assert reply == ReplyHeader(packet, length + 4) + Attribute(packet, source);
  }

  // ----- The Python twin -----

  function PythonScan(p: Bytes, o: nat, changePort: bool): Option<Scanned>
    decreases |p| - o
  {
    if o >= |p| then Some(Scanned(o, changePort))
    else if o + 4 > |p| then None
    else
      var kind, length := Word16(p, o), Word16(p, o + 2);
      var end := o + 4 + length;
      if end > |p| then None
      else if kind == CHANGE_REQUEST then
        if length != 4 || WithoutTwo(Word32(p, o + 4)) != 0 then None
        else PythonScan(p, Aligned(end), HasTwo(Word32(p, o + 4)))
      else if kind < OPTIONAL && kind != PADDING then None
      else PythonScan(p, Aligned(end), changePort)
  }

  function PythonReply(p: Bytes, address: Bytes, port: u16): Bytes
    requires |p| >= HEADER && |address| == 4
  {
    PortBytes(0x101) + PortBytes(12) + p[4..20] + (PortBytes(0x20) + PortBytes(8))
    + ([0, 1] + PortBytes(XorWord(port, COOKIE_HIGH)) + Masked(address, MAGIC))
  }

  function PythonResponse(p: Bytes, address: Bytes, port: u16): Option<Answer>
    requires |address| == 4
  {
    if |p| < HEADER then None
    else
      var kind, size, cookie := Word16(p, 0), Word16(p, 2), Word32(p, 4);
      if kind != 1 || cookie != COOKIE || size > MAX_BODY || size % 4 != 0 || |p| != HEADER + size then None
      else
        var s := PythonScan(p, HEADER, false);
        if s.None? || s.value.end != |p| || port == 0 then None
        else Some(Answer(PythonReply(p, address, port), s.value.changePort))
  }

  method PythonRespond(data: Bytes, address: Bytes, port: u16) returns (r: Option<Answer>)
    requires |address| == 4
    ensures r == PythonResponse(data, address, port)
  {
    if |data| < HEADER {
      return None;
    }
    var kind, size, cookie := Word16(data, 0), Word16(data, 2), Word32(data, 4);
    if kind != 1 || cookie != COOKIE || size > MAX_BODY || size % 4 != 0 || |data| != HEADER + size {
      return None;
    }
    var changePort, offset := false, HEADER;
    while offset < |data|
      invariant PythonScan(data, HEADER, false) == PythonScan(data, offset, changePort)
      decreases |data| - offset
    {
      if offset + 4 > |data| {
        return None;
      }
      var attribute, length := Word16(data, offset), Word16(data, offset + 2);
      var end := offset + 4 + length;
      if end > |data| {
        return None;
      }
      if attribute == CHANGE_REQUEST {
        if length != 4 {
          return None;
        }
        var flags := Word32(data, offset + 4);
        if WithoutTwo(flags) != 0 {
          return None;
        }
        changePort := HasTwo(flags);
      } else if attribute < OPTIONAL && attribute != PADDING {
        return None;
      }
      offset := Aligned(end);
    }
    if offset != |data| || port == 0 {
      return None;
    }
    return Some(Answer(PythonReply(data, address, port), changePort));
  }

  // ----- The twins agree -----

  lemma HeadersAgree(p: Bytes)
    requires |p| >= HEADER
    ensures HeaderOk(p) <==>
      Word16(p, 0) == 1 && Word32(p, 4) == COOKIE && Word16(p, 2) <= MAX_BODY && Word16(p, 2) % 4 == 0
      && |p| == HEADER + Word16(p, 2)
  {
    assert p[..2] == [p[0], p[1]] && p[4..8] == [p[4], p[5], p[6], p[7]];
  }

  lemma {:induction false} ScansAgree(p: Bytes, o: nat, changePort: bool)
    ensures Scan(p, true, o, changePort) == PythonScan(p, o, changePort)
    decreases |p| - o
  {
    if o + 4 <= |p| && o + 4 + Word16(p, o + 2) <= |p| {
      var kind, length := Word16(p, o), Word16(p, o + 2);
      var next := Aligned(o + 4 + length);
      if kind != CHANGE_REQUEST {
        ScansAgree(p, next, changePort);
      } else if length == 4 {
        ScansAgree(p, next, Word32(p, o + 4) == 2);
      }
    }
  }

  lemma RepliesAgree(p: Bytes, address: Bytes, port: u16)
    requires HeaderOk(p) && |address| == 4
    ensures Reply(p, SocketAddr(V4(address), port)) == PythonReply(p, address, port)
  {
    assert p[4..20][..4] == MAGIC;
    assert Masked(address, p[4..20]) == Masked(address, MAGIC);
  }

  /** For every packet and every IPv4 source the twins answer alike, byte for byte, or both stay silent. */
  lemma TwinsAgree(p: Bytes, address: Bytes, port: u16)
    requires |address| == 4
    ensures Response(p, SocketAddr(V4(address), port), true) == PythonResponse(p, address, port)
  {
    if |p| >= HEADER {
      HeadersAgree(p);
      if HeaderOk(p) {
        ScansAgree(p, HEADER, false);
        RepliesAgree(p, address, port);
      }
    }
  }

  /** An attribute within an aligned packet is followed by an aligned offset within it. */
  lemma NextStaysAligned(o: nat, end: nat, n: nat)
    requires n % 4 == 0 && o < end <= n
    ensures Aligned(end) % 4 == 0 && o < Aligned(end) <= n
  {
  }

  /** On a word-aligned packet the loop can only end exactly at the end. */
  lemma {:induction false} ScanEndsExactly(p: Bytes, alternate: bool, o: nat, changePort: bool)
    requires |p| % 4 == 0 && o % 4 == 0 && o <= |p| && Scan(p, alternate, o, changePort).Some?
    ensures Scan(p, alternate, o, changePort).value.end == |p|
    decreases |p| - o
  {
    if o < |p| {
      var next := Aligned(o + 4 + Word16(p, o + 2));
      NextStaysAligned(o, o + 4 + Word16(p, o + 2), |p|);
      if Word16(p, o) == CHANGE_REQUEST {
        ScanEndsExactly(p, alternate, next, Word32(p, o + 4) == 2);
      } else {
        ScanEndsExactly(p, alternate, next, changePort);
      }
    }
  }

  /** So the final comparison of the offset never decides anything. */
  lemma FinalCheckIsRedundant(p: Bytes, source: SocketAddr, alternate: bool)
    ensures Response(p, source, alternate).Some?
       <==> HeaderOk(p) && Scan(p, alternate, HEADER, false).Some? && source.port != 0
  {
    if HeaderOk(p) && Scan(p, alternate, HEADER, false).Some? {
      ScanEndsExactly(p, alternate, HEADER, false);
    }
  }

  // ----- The client's side -----

  /** Section 14.2 of RFC 8489: the mapped address of a success response, unmasked with its own header. */
  function MappedAddress(m: Bytes): Option<SocketAddr> {
    if |m| < 28 || m[..2] != [1, 1] || Word16(m, 2) != |m| - HEADER || m[4..8] != MAGIC || Word16(m, 20) != 0x20 then None
    else if |m| == 32 && Word16(m, 22) == 8 && m[25] == 1 then
      Some(SocketAddr(V4(Masked(m[28..32], m[4..8])), XorWord(Word16(m, 26), COOKIE_HIGH)))
    else if |m| == 44 && Word16(m, 22) == 20 && m[25] == 2 then
      Some(SocketAddr(V6(Masked(m[28..44], m[4..20])), XorWord(Word16(m, 26), COOKIE_HIGH)))
    else None
  }

  lemma HeaderLayout(p: Bytes, m: Bytes, length: u16, a: Bytes)
    requires HeaderOk(p) && m == ReplyHeader(p, length) + a
    ensures m[..2] == [1, 1] && Word16(m, 2) == length && m[4..20] == p[4..20] && m[4..8] == MAGIC && m[20..] == a
  {
    var h := ReplyHeader(p, length);
    assert m[..20] == h;
    assert h[..2] == [1, 1] && Word16(h, 2) == length && h[4..20] == p[4..20];
    assert m[4..8] == m[4..20][..4] == p[4..20][..4] == p[4..8];
  }

  lemma AttributeLayout(a: Bytes, n: byte, family: byte, port: u16, octets: Bytes)
    requires a == [0, 0x20, 0, n, 0, family] + PortBytes(port) + octets
    ensures Word16(a, 0) == 0x20 && Word16(a, 2) == n && a[5] == family && Word16(a, 6) == port && a[8..] == octets
  {
  }

  lemma PortUnmasked(port: u16)
    ensures XorWord(XorWord(port, COOKIE_HIGH), COOKIE_HIGH) == port
  {
    assert Pow2(8) == 256 && Pow2(16) == 0x1_0000;
    XorCancels(port, COOKIE_HIGH, WORD_BITS);
  }

  lemma Unmasked(ip: IpAddr, mask: Bytes)
    requires |mask| == 16
    ensures Masked(Masked(ip.octets, mask), if ip.V4? then mask[..4] else mask) == ip.octets
  {
    MaskedTwice(ip.octets, mask);
    if ip.V4? {
      var s := Masked(ip.octets, mask);
      assert Masked(s, mask[..4]) == Masked(s, mask);
    }
  }

  /** The words of the attribute as they stand in the message. */
  lemma Embedded(m: Bytes, a: Bytes)
    requires |m| == HEADER + |a| && |a| >= 8 && m[20..] == a
    ensures Word16(m, 20) == Word16(a, 0) && Word16(m, 22) == Word16(a, 2) && m[25] == a[5]
    ensures Word16(m, 26) == Word16(a, 6) && m[28..|m|] == a[8..]
  {
    assert forall i {:trigger a[i]} :: 0 <= i < |a| ==> a[i] == m[20 + i];
  }

  lemma ReplyDecodes(m: Bytes, a: Bytes, source: SocketAddr)
    requires |m| == HEADER + |a| && |a| == 8 + |source.ip.octets| && m[20..] == a
    requires m[..2] == [1, 1] && Word16(m, 2) == |a| && m[4..8] == MAGIC
    requires Word16(a, 0) == 0x20 && Word16(a, 2) == |a| - 4 && a[5] == (if source.ip.V4? then 1 else 2)
    requires Word16(a, 6) == XorWord(source.port, COOKIE_HIGH) && a[8..] == Masked(source.ip.octets, m[4..20])
    ensures MappedAddress(m) == Some(source)
  {
    Embedded(m, a);
    PortUnmasked(source.port);
    Unmasked(source.ip, m[4..20]);
    assert m[4..20][..4] == m[4..8];
  }

  /** The client recovers the source from every reply, for both address families. */
  lemma SourceIsRecovered(p: Bytes, source: SocketAddr, alternate: bool)
    requires Response(p, source, alternate).Some?
    ensures MappedAddress(Response(p, source, alternate).value.reply) == Some(source)
  {
    var m, a := Reply(p, source), Attribute(p, source);
    HeaderLayout(p, m, |a|, a);
    AttributeLayout(a, 4 + |source.ip.octets|, if source.ip.V4? then 1 else 2,
                    XorWord(source.port, COOKIE_HIGH), Masked(source.ip.octets, p[4..20]));
    ReplyDecodes(m, a, source);
  }

  function Request(transaction: Bytes): Bytes
    requires |transaction| == 12
  {
    [0, 1, 0, 0] + MAGIC + transaction
  }

  lemma RequestLayout(transaction: Bytes)
    requires |transaction| == 12
    ensures var p := Request(transaction); |p| == HEADER && HeaderOk(p) && p[8..20] == transaction
  {
    var p := Request(transaction);
    assert p[..2] == [0, 1] && p[4..8] == MAGIC;
  }

  /** A plain request is always answered on the same port, with its own transaction. */
  lemma RequestIsAnswered(transaction: Bytes, source: SocketAddr, alternate: bool)
    requires |transaction| == 12 && source.port != 0
    ensures var r := Response(Request(transaction), source, alternate);
      r.Some? && !r.value.changePort && r.value.reply[8..20] == transaction
  {
    var p := Request(transaction);
    RequestLayout(transaction);
    var m, a := Reply(p, source), Attribute(p, source);
    HeaderLayout(p, m, |a|, a);
    assert m[8..20] == m[4..20][4..] == p[4..20][4..] == p[8..20];
  }
}
