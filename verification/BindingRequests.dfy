/** What the STUN responders answer to a request built of any list of attributes (section 14 of RFC 8489). */
module BindingRequests {
  import opened Prelude
  import opened Net
  import opened Binding

  /** An attribute and the bytes that pad it to a word. */
  datatype Attr = Attr(kind: u16, value: Bytes, padding: Bytes)

  predicate Padded(a: Attr) {
    |a.value| < 0x1_0000 && |a.padding| < 4 && (|a.value| + |a.padding|) % 4 == 0
  }

  predicate AllPadded(attrs: seq<Attr>) {
    forall i :: 0 <= i < |attrs| ==> Padded(attrs[i])
  }

  function EncodeAttr(a: Attr): Bytes
    requires Padded(a)
  {
    PortBytes(a.kind) + PortBytes(|a.value|) + a.value + a.padding
  }

  function EncodeAttrs(attrs: seq<Attr>): (r: Bytes)
    requires AllPadded(attrs)
    ensures |r| % 4 == 0
  {
    if attrs == [] then [] else EncodeAttr(attrs[0]) + EncodeAttrs(attrs[1..])
  }

  function Message(transaction: Bytes, attrs: seq<Attr>): Bytes
    requires |transaction| == 12 && AllPadded(attrs) && |EncodeAttrs(attrs)| <= 512
  {
    [0, 1] + PortBytes(|EncodeAttrs(attrs)|) + [0x21, 0x12, 0xa4, 0x42] + transaction + EncodeAttrs(attrs)
  }

  /**
   CHANGE-REQUEST may ask for nothing, or for another port if there is one; PADDING and everything in the
   comprehension-optional half are passed over; any other attribute silences the responder.
   */
  predicate Acceptable(a: Attr, alternate: bool) {
    if a.kind == 0x0003 then a.value == [0, 0, 0, 0] || (alternate && a.value == [0, 0, 0, 2])
    else a.kind == 0x0026 || a.kind >= 0x8000
  }

  predicate AllAcceptable(attrs: seq<Attr>, alternate: bool) {
    forall i :: 0 <= i < |attrs| ==> Acceptable(attrs[i], alternate)
  }

  /** The last CHANGE-REQUEST counts. */
  function Asked(attrs: seq<Attr>, before: bool): bool
    decreases |attrs|
  {
    if attrs == [] then before
    else Asked(attrs[1..], if attrs[0].kind == 0x0003 then attrs[0].value == [0, 0, 0, 2] else before)
  }

  lemma {:induction false} AskedIsLast(attrs: seq<Attr>, before: bool)
    ensures (forall j :: 0 <= j < |attrs| ==> attrs[j].kind != 0x0003) ==> Asked(attrs, before) == before
    ensures forall i :: 0 <= i < |attrs| && attrs[i].kind == 0x0003 && (forall j :: i < j < |attrs| ==> attrs[j].kind != 0x0003) ==>
      Asked(attrs, before) == (attrs[i].value == [0, 0, 0, 2])
    decreases |attrs|
  {
    if attrs != [] {
      var rest := attrs[1..];
      assert forall j :: 0 <= j < |rest| ==> rest[j] == attrs[j + 1];
      assert forall j :: 0 < j < |attrs| ==> attrs[j] == rest[j - 1];
      AskedIsLast(rest, if attrs[0].kind == 0x0003 then attrs[0].value == [0, 0, 0, 2] else before);
    }
  }

  // ----- Reading the attributes back -----

  lemma HeadOfAttr(p: Bytes, o: nat, e: nat, a: Attr)
    requires o <= e <= |p| && Padded(a) && p[o..e] == EncodeAttr(a)
    ensures e == o + 4 + |a.value| + |a.padding|
    ensures Word16(p, o) == a.kind && Word16(p, o + 2) == |a.value| && p[o + 4..o + 4 + |a.value|] == a.value
  {
    var s := EncodeAttr(a);
    assert s[0] == p[o] && s[1] == p[o + 1] && s[2] == p[o + 2] && s[3] == p[o + 3];
    var v := p[o + 4..o + 4 + |a.value|];
    forall i | 0 <= i < |v|
      ensures v[i] == a.value[i]
    {
      assert v[i] == p[o + (4 + i)] == s[4 + i];
    }
  }

  lemma AlignedEnd(o: nat, n: nat, pad: nat)
    requires o % 4 == 0 && pad < 4 && (n + pad) % 4 == 0
    ensures Aligned(o + 4 + n) == o + 4 + n + pad && (o + 4 + n + pad) % 4 == 0
  {
  }

  /** The flags of a change request by its four bytes. */
  lemma FlagsOf(p: Bytes, o: nat, value: Bytes)
    requires o + 4 <= |p| && p[o..o + 4] == value
    ensures Word32(p, o) == 0 <==> value == [0, 0, 0, 0]
    ensures Word32(p, o) == 2 <==> value == [0, 0, 0, 2]
  {
    assert value == [p[o], p[o + 1], p[o + 2], p[o + 3]];
  }

  lemma OnlyTwo(flags: nat)
    ensures WithoutTwo(flags) == 0 <==> flags == 0 || flags == 2
  {
  }

  /** One round of the loop over the head of an attribute with `n` bytes that ends at `e`. */
  lemma RoundOfScan(p: Bytes, alternate: bool, o: nat, e: nat, kind: u16, n: nat, before: bool)
    requires o + 4 + n <= |p| && Word16(p, o) == kind && Word16(p, o + 2) == n && Aligned(o + 4 + n) == e
    ensures kind == 0x0003 && n == 4 ==>
      var flags := Word32(p, o + 4);
      Scan(p, alternate, o, before) == if flags == 0 || (flags == 2 && alternate) then Scan(p, alternate, e, flags == 2) else None
    ensures kind == 0x0003 && n != 4 ==> Scan(p, alternate, o, before).None?
    ensures kind != 0x0003 ==>
      Scan(p, alternate, o, before) == if kind >= 0x8000 || kind == 0x0026 then Scan(p, alternate, e, before) else None
  {
    if kind == 0x0003 && n == 4 {
      OnlyTwo(Word32(p, o + 4));
    }
  }

  lemma StepOfScan(p: Bytes, alternate: bool, o: nat, e: nat, a: Attr, before: bool, after: bool)
    requires o <= e <= |p| && o % 4 == 0 && Padded(a) && p[o..e] == EncodeAttr(a)
    requires after == if a.kind == 0x0003 then a.value == [0, 0, 0, 2] else before
    ensures e % 4 == 0
    ensures Scan(p, alternate, o, before) == if Acceptable(a, alternate) then Scan(p, alternate, e, after) else None
  {
    HeadOfAttr(p, o, e, a);
    AlignedEnd(o, |a.value|, |a.padding|);
    RoundOfScan(p, alternate, o, e, a.kind, |a.value|, before);
    if a.kind == 0x0003 && |a.value| == 4 {
      FlagsOf(p, o + 4, a.value);
    }
  }

  lemma AcceptableOfCons(attrs: seq<Attr>, alternate: bool)
    requires attrs != []
    ensures AllAcceptable(attrs, alternate) <==> Acceptable(attrs[0], alternate) && AllAcceptable(attrs[1..], alternate)
  {
    assert forall i :: 0 < i < |attrs| ==> attrs[i] == attrs[1..][i - 1];
  }

  lemma {:induction false} ScanReads(p: Bytes, alternate: bool, o: nat, attrs: seq<Attr>, before: bool)
    requires o <= |p| && o % 4 == 0 && AllPadded(attrs) && p[o..] == EncodeAttrs(attrs)
    ensures Scan(p, alternate, o, before) ==
            if AllAcceptable(attrs, alternate) then Some(Scanned(|p|, Asked(attrs, before))) else None
    decreases |attrs|
  {
    if attrs != [] {
      var a := attrs[0];
      var e := o + |EncodeAttr(a)|;
      assert p[o..e] == p[o..][..|EncodeAttr(a)|] == EncodeAttr(a);
      assert p[e..] == p[o..][|EncodeAttr(a)|..] == EncodeAttrs(attrs[1..]);
      var after := if a.kind == 0x0003 then a.value == [0, 0, 0, 2] else before;
      StepOfScan(p, alternate, o, e, a, before, after);
      AcceptableOfCons(attrs, alternate);
      ScanReads(p, alternate, e, attrs[1..], after);
    }
  }

  lemma MessageLayout(transaction: Bytes, attrs: seq<Attr>, p: Bytes)
    requires |transaction| == 12 && AllPadded(attrs) && |EncodeAttrs(attrs)| <= 512 && p == Message(transaction, attrs)
    ensures HeaderOk(p) && p[20..] == EncodeAttrs(attrs) && p[8..20] == transaction
  {
    var body := EncodeAttrs(attrs);
    assert p[..2] == [0, 1] && p[4..8] == [0x21, 0x12, 0xa4, 0x42] && p[2..4] == PortBytes(|body|);
    assert p[2] == PortBytes(|body|)[0] && p[3] == PortBytes(|body|)[1];
  }

  /**
   A request with a body of at most 512 bytes is answered exactly if the source has a port and every attribute
   is acceptable, and from the other port exactly if the last CHANGE-REQUEST asks for it.
   */
  lemma RequestsAreAnswered(transaction: Bytes, attrs: seq<Attr>, source: SocketAddr, alternate: bool)
    requires |transaction| == 12 && AllPadded(attrs) && |EncodeAttrs(attrs)| <= 512
    ensures var r := Response(Message(transaction, attrs), source, alternate);
            && (r.Some? <==> source.port != 0 && AllAcceptable(attrs, alternate))
            && (r.Some? ==> r.value.changePort == Asked(attrs, false) && MappedAddress(r.value.reply) == Some(source))
  {
    var p := Message(transaction, attrs);
    MessageLayout(transaction, attrs, p);
    ScanReads(p, alternate, HEADER, attrs, false);
    if source.port != 0 && AllAcceptable(attrs, alternate) {
      SourceIsRecovered(p, source, alternate);
    }
  }

  lemma ReadPadding(o: nat, n: nat, k: nat, e: nat, size: nat)
    requires size % 4 == 0 && o % 4 == 0 && k == o + 4 + n <= size && e == Aligned(k)
    ensures k <= e <= size && e % 4 == 0 && e - k < 4 && (n + (e - k)) % 4 == 0
  {
    NextStaysAligned(o, k, size);
  }

  /** The attribute that the loop reads at `o`. */
  lemma ReadAttr(p: Bytes, o: nat, n: nat, k: nat, e: nat) returns (a: Attr)
    requires k == o + 4 + n <= |p| && n == Word16(p, o + 2) && k <= e <= |p| && e - k < 4 && (n + (e - k)) % 4 == 0
    ensures Padded(a) && p[o..e] == EncodeAttr(a)
  {
    var value, padding := p[o + 4..k], p[k..e];
    a := Attr(Word16(p, o), value, padding);
    WordSplits(p[o], p[o + 1]);
    WordSplits(p[o + 2], p[o + 3]);
    assert p[o..e] == [p[o], p[o + 1]] + [p[o + 2], p[o + 3]] + value + padding;
  }

  lemma FirstRound(p: Bytes, alternate: bool, o: nat, before: bool) returns (a: Attr, e: nat)
    requires o < |p| && |p| % 4 == 0 && o % 4 == 0 && Scan(p, alternate, o, before).Some?
    ensures o < e <= |p| && e % 4 == 0 && Padded(a) && p[o..e] == EncodeAttr(a)
  {
    var n := Word16(p, o + 2);
    var k := o + 4 + n;
    e := Aligned(k);
    ReadPadding(o, n, k, e, |p|);
    a := ReadAttr(p, o, n, k, e);
  }

  lemma Splice(p: Bytes, o: nat, e: nat, x: Bytes, y: Bytes)
    requires o <= e <= |p| && p[o..e] == x && p[e..] == y
    ensures p[o..] == x + y
  {
  }

  lemma EncodeOfCons(a: Attr, rest: seq<Attr>)
    requires Padded(a) && AllPadded(rest)
    ensures AllPadded([a] + rest) && EncodeAttrs([a] + rest) == EncodeAttr(a) + EncodeAttrs(rest)
  {
    assert ([a] + rest)[1..] == rest;
  }

  /** Whatever the loop gets through is a list of attributes. */
  lemma {:induction false} ScannedIsEncoded(p: Bytes, alternate: bool, o: nat, before: bool) returns (attrs: seq<Attr>)
    requires o <= |p| && |p| % 4 == 0 && o % 4 == 0 && Scan(p, alternate, o, before).Some?
    ensures AllPadded(attrs) && p[o..] == EncodeAttrs(attrs)
    decreases |p| - o
  {
    if o == |p| {
      attrs := [];
    } else {
      var a, e := FirstRound(p, alternate, o, before);
      var after := if a.kind == 0x0003 then a.value == [0, 0, 0, 2] else before;
      StepOfScan(p, alternate, o, e, a, before, after);
      var rest := ScannedIsEncoded(p, alternate, e, after);
      EncodeOfCons(a, rest);
      attrs := [a] + rest;
      Splice(p, o, e, EncodeAttr(a), EncodeAttrs(rest));
    }
  }

  lemma HeaderIsMessage(p: Bytes, attrs: seq<Attr>)
    requires HeaderOk(p) && AllPadded(attrs) && p[20..] == EncodeAttrs(attrs)
    ensures |EncodeAttrs(attrs)| <= 512 && p == Message(p[8..20], attrs)
  {
    var body := EncodeAttrs(attrs);
    LengthBytes(p, |body|);
    Assembled(p, [0, 1], PortBytes(|body|), [0x21, 0x12, 0xa4, 0x42], p[8..20], body);
  }

  lemma LengthBytes(p: Bytes, n: u16)
    requires |p| >= 4 && Word16(p, 2) == n
    ensures p[2..4] == PortBytes(n)
  {
    WordSplits(p[2], p[3]);
    assert p[2..4] == [p[2], p[3]];
  }

  lemma WordSplits(high: byte, low: byte)
    ensures PortBytes(PortOf(high, low)) == [high, low]
  {
    var n := PortOf(high, low);
    assert n / 256 == high;
    assert n % 256 == low;
  }

  lemma Assembled(p: Bytes, kind: Bytes, length: Bytes, magic: Bytes, transaction: Bytes, body: Bytes)
    requires |p| >= 20 && p[..2] == kind && p[2..4] == length && p[4..8] == magic && p[8..20] == transaction && p[20..] == body
    ensures p == kind + length + magic + transaction + body
  {
  }

  /** Nothing else is answered: an answered packet is a request with acceptable attributes only. */
  lemma AnsweredIsARequest(p: Bytes, source: SocketAddr, alternate: bool) returns (transaction: Bytes, attrs: seq<Attr>)
    requires Response(p, source, alternate).Some?
    ensures |transaction| == 12 && AllPadded(attrs) && |EncodeAttrs(attrs)| <= 512 && p == Message(transaction, attrs)
    ensures source.port != 0 && AllAcceptable(attrs, alternate)
  {
    AnsweredScans(p, source, alternate);
    HeaderIsAligned(p);
    transaction := p[8..20];
    attrs := ScannedIsEncoded(p, alternate, 20, false);
    HeaderIsMessage(p, attrs);
    ScanReads(p, alternate, 20, attrs, false);
  }

  lemma AnsweredScans(p: Bytes, source: SocketAddr, alternate: bool)
    requires Response(p, source, alternate).Some?
    ensures HeaderOk(p) && Scan(p, alternate, 20, false).Some? && source.port != 0
  {
    FinalCheckIsRedundant(p, source, alternate);
  }

  lemma HeaderIsAligned(p: Bytes)
    requires HeaderOk(p)
    ensures |p| % 4 == 0
  {
  }

  /** The Python twin answers the same requests from the same port. */
  lemma PythonAnswersAlike(transaction: Bytes, attrs: seq<Attr>, address: Bytes, port: u16)
    requires |transaction| == 12 && AllPadded(attrs) && |EncodeAttrs(attrs)| <= 512 && |address| == 4
    ensures var r := PythonResponse(Message(transaction, attrs), address, port);
            && (r.Some? <==> port != 0 && AllAcceptable(attrs, true))
            && (r.Some? ==> r.value.changePort == Asked(attrs, false))
  {
    TwinsAgree(Message(transaction, attrs), address, port);
    RequestsAreAnswered(transaction, attrs, SocketAddr(V4(address), port), true);
  }
}
