/**
 What the client reads from any response built of well-formed pairs: peers as compact strings or as lists of
 dictionaries, intervals, an observed address, a failure, and pairs it does not know, in any order.
 */
module HttpResponses {
  import opened Prelude
  import opened Decimal
  import opened Net
  import opened Bencode
  import opened BencodeInsert
  import opened HttpReply

  // ----- Peer dictionaries -----

  /** A pair of a peer dictionary. */
  datatype Detail = Ip(text: Bytes) | Port(n: int) | Extra(key: Bytes, value: Value)

  function EncodeDetail(d: Detail): Bytes {
    match d
    case Ip(text) => TextPair(KEY_IP, text)
    case Port(n) => EncodeString(KEY_PORT) + EncodeNumber(n)
    case Extra(key, value) => EncodeString(key) + Encode(value)
  }

  function EncodeDetails(ds: seq<Detail>): Bytes {
    if ds == [] then [] else EncodeDetail(ds[0]) + EncodeDetails(ds[1..])
  }

  function EncodeDict(ds: seq<Detail>): Bytes {
    [CHAR_D] + EncodeDetails(ds) + [CHAR_E]
  }

  function EncodeDicts(dicts: seq<seq<Detail>>): Bytes {
    if dicts == [] then [] else EncodeDict(dicts[0]) + EncodeDicts(dicts[1..])
  }

  /** An extra pair does not use a key with a meaning of its own. */
  predicate Keyed(ds: seq<Detail>) {
    forall i :: 0 <= i < |ds| && ds[i].Extra? ==> ds[i].key != KEY_IP && ds[i].key != KEY_PORT
  }

  /** The pair can be read by itself. */
  predicate DetailOk(c: TextCodec, d: Detail) {
    match d
    case Ip(text) => c.parseIp(text).Some?
    case Port(n) => 0 <= n < 0x1_0000
    case Extra(_, value) => Skippable(value, 1)
  }

  predicate DetailsOk(c: TextCodec, ds: seq<Detail>) {
    forall i :: 0 <= i < |ds| ==> DetailOk(c, ds[i])
  }

  predicate HasIp(ds: seq<Detail>) {
    exists i | 0 <= i < |ds| :: ds[i].Ip?
  }

  predicate HasPort(ds: seq<Detail>) {
    exists i | 0 <= i < |ds| :: ds[i].Port?
  }

  /** The fields after the pairs, a later pair overriding an earlier one. */
  function Later(c: TextCodec, ds: seq<Detail>, f: PeerFields): PeerFields
    requires DetailsOk(c, ds)
    decreases |ds|
  {
    if ds == [] then f
    else
      var g := match ds[0]
               case Ip(text) => f.(ip := c.parseIp(text))
               case Port(n) => f.(port := Some(n))
               case Extra(_, _) => f;
      Later(c, ds[1..], g)
  }

  lemma DetailParses(c: TextCodec, b: Bytes, o: nat, e: nat, d: Detail, f: PeerFields)
    requires At(b, o, e, EncodeDetail(d)) && Keyed([d])
    ensures o < |b| && b[o] != CHAR_E
    ensures ParsePeerField(c, b, o, f) == if DetailOk(c, d) then Some(Parsed(Later(c, [d], f), e)) else None
  {
    assert [d][0] == d && [d][1..] == [];
    match d
    case Ip(text) =>
      TextAt(b, o, o + |EncodeString(KEY_IP)|, e, KEY_IP, text);
    case Port(n) =>
      var k := o + |EncodeString(KEY_PORT)|;
      AtSplit(b, o, k, e, EncodeString(KEY_PORT), EncodeNumber(n));
      StringAt(b, o, k, KEY_PORT);
      NumberAt(b, k, e, n);
    case Extra(key, value) =>
      var k := o + |EncodeString(key)|;
      AtSplit(b, o, k, e, EncodeString(key), Encode(value));
      StringAt(b, o, k, key);
      SkipsExactly(b, k, e, value, 1);
  }

  lemma LaterOfCons(c: TextCodec, ds: seq<Detail>, f: PeerFields)
    requires ds != [] && DetailsOk(c, ds)
    ensures DetailsOk(c, [ds[0]]) && DetailsOk(c, ds[1..])
    ensures Later(c, ds, f) == Later(c, ds[1..], Later(c, [ds[0]], f))
  {
    assert [ds[0]][1..] == [];
  }

  lemma DetailsOkOfCons(c: TextCodec, ds: seq<Detail>)
    requires ds != []
    ensures DetailsOk(c, ds) <==> DetailOk(c, ds[0]) && DetailsOk(c, ds[1..])
  {
    assert forall i :: 0 < i < |ds| ==> ds[i] == ds[1..][i - 1];
  }

  lemma {:induction false} DetailsParse(c: TextCodec, b: Bytes, o: nat, k: nat, e: nat, ds: seq<Detail>, f: PeerFields)
    requires At(b, o, k, EncodeDetails(ds)) && e == k + 1 <= |b| && b[k] == CHAR_E && Keyed(ds)
    ensures ParsePeerFields(c, b, o, f) == if DetailsOk(c, ds) then Some(Parsed(Later(c, ds, f), e)) else None
    decreases |ds|
  {
    if ds != [] {
      var m := o + |EncodeDetail(ds[0])|;
      AtSplit(b, o, m, k, EncodeDetail(ds[0]), EncodeDetails(ds[1..]));
      DetailParses(c, b, o, m, ds[0], f);
      DetailsOkOfCons(c, ds);
      if DetailOk(c, ds[0]) {
        DetailsParse(c, b, m, k, e, ds[1..], Later(c, [ds[0]], f));
        if DetailsOk(c, ds) {
          LaterOfCons(c, ds, f);
        }
      }
    }
  }

  /** Both keys are there and every pair can be read. */
  predicate DictOk(c: TextCodec, ds: seq<Detail>) {
    DetailsOk(c, ds) && HasIp(ds) && HasPort(ds)
  }

  lemma {:induction false} LaterIsNamed(c: TextCodec, ds: seq<Detail>, f: PeerFields)
    requires DetailsOk(c, ds)
    ensures Later(c, ds, f).ip.Some? <==> f.ip.Some? || HasIp(ds)
    ensures Later(c, ds, f).port.Some? <==> f.port.Some? || HasPort(ds)
    decreases |ds|
  {
    if ds != [] {
      var rest, g := ds[1..], Later(c, [ds[0]], f);
      LaterOfCons(c, ds, f);
      assert [ds[0]][1..] == [];
      LaterIsNamed(c, rest, g);
      assert HasIp(ds) <==> ds[0].Ip? || HasIp(rest) by {
        assert forall i :: 0 < i < |ds| ==> ds[i] == rest[i - 1];
        assert forall i :: 0 <= i < |rest| ==> rest[i] == ds[i + 1];
      }
      assert HasPort(ds) <==> ds[0].Port? || HasPort(rest) by {
        assert forall i :: 0 < i < |ds| ==> ds[i] == rest[i - 1];
        assert forall i :: 0 <= i < |rest| ==> rest[i] == ds[i + 1];
      }
    }
  }

  /** The address a dictionary names. */
  function Named(c: TextCodec, ds: seq<Detail>): SocketAddr
    requires DictOk(c, ds)
  {
    var f := Later(c, ds, PeerFields(None, None));
    LaterIsNamed(c, ds, PeerFields(None, None));
    SocketAddr(f.ip.value, f.port.value)
  }

  lemma DictCloses(c: TextCodec, b: Bytes, o: nat, m: nat, e: nat, ds: seq<Detail>, f: PeerFields)
    requires o < |b| && b[o] == CHAR_D && m == o + 1 && f == PeerFields(None, None)
    requires ParsePeerFields(c, b, m, f) == if DetailsOk(c, ds) then Some(Parsed(Later(c, ds, f), e)) else None
    ensures ParsePeer(c, b, o) == if DictOk(c, ds) then Some(Parsed(Named(c, ds), e)) else None
  {
    if DetailsOk(c, ds) {
      LaterIsNamed(c, ds, f);
    }
  }

  /** A dictionary is read as the address it names, and is an error if it lacks either key. */
  lemma DictParses(c: TextCodec, b: Bytes, o: nat, e: nat, ds: seq<Detail>)
    requires At(b, o, e, EncodeDict(ds)) && Keyed(ds)
    ensures o < |b| && b[o] != CHAR_E
    ensures ParsePeer(c, b, o) == if DictOk(c, ds) then Some(Parsed(Named(c, ds), e)) else None
  {
    var s, m, k, f := EncodeDetails(ds), o + 1, e - 1, PeerFields(None, None);
    Bracketed(b, o, e, CHAR_D, s);
    assert At(b, m, k, s) && e == k + 1;
    DetailsParse(c, b, m, k, e, ds, f);
    DictCloses(c, b, o, m, e, ds, f);
  }

  // ----- Lists of dictionaries -----

  predicate AllKeyed(dicts: seq<seq<Detail>>) {
    forall i :: 0 <= i < |dicts| ==> Keyed(dicts[i])
  }

  predicate DictsOk(c: TextCodec, dicts: seq<seq<Detail>>) {
    forall i :: 0 <= i < |dicts| ==> DictOk(c, dicts[i])
  }

  function AllNamed(c: TextCodec, dicts: seq<seq<Detail>>): seq<SocketAddr>
    requires DictsOk(c, dicts)
  {
    seq(|dicts|, i requires 0 <= i < |dicts| => Named(c, dicts[i]))
  }

  lemma DictsOkOfCons(c: TextCodec, dicts: seq<seq<Detail>>)
    requires dicts != []
    ensures DictsOk(c, dicts) <==> DictOk(c, dicts[0]) && DictsOk(c, dicts[1..])
    ensures DictsOk(c, dicts) ==> AllNamed(c, dicts) == [Named(c, dicts[0])] + AllNamed(c, dicts[1..])
  {
    assert forall i :: 0 < i < |dicts| ==> dicts[i] == dicts[1..][i - 1];
  }

  lemma AdmitFirst(taken: seq<SocketAddr>, a: SocketAddr, rest: seq<SocketAddr>)
    ensures AdmitAll(taken, [a] + rest) == AdmitAll(Admit(taken, a), rest)
  {
    assert ([a] + rest)[1..] == rest;
  }

  lemma {:induction false} DictsParse(c: TextCodec, b: Bytes, o: nat, k: nat, e: nat, dicts: seq<seq<Detail>>, taken: seq<SocketAddr>)
    requires At(b, o, k, EncodeDicts(dicts)) && e == k + 1 <= |b| && b[k] == CHAR_E && AllKeyed(dicts)
    ensures ParsePeerList(c, b, o, taken) ==
            if DictsOk(c, dicts) then Some(Parsed(AdmitAll(taken, AllNamed(c, dicts)), e)) else None
    decreases |dicts|
  {
    if dicts == [] {
      assert AllNamed(c, dicts) == [];
    } else {
      var m := o + |EncodeDict(dicts[0])|;
      AtSplit(b, o, m, k, EncodeDict(dicts[0]), EncodeDicts(dicts[1..]));
      DictParses(c, b, o, m, dicts[0]);
      DictsOkOfCons(c, dicts);
      if DictOk(c, dicts[0]) {
        DictsParse(c, b, m, k, e, dicts[1..], Admit(taken, Named(c, dicts[0])));
        if DictsOk(c, dicts) {
          AdmitFirst(taken, Named(c, dicts[0]), AllNamed(c, dicts[1..]));
        }
      }
    }
  }

  // ----- Pairs of a response -----

  datatype Part =
    | Failure(reason: Value)
    | Interval(n: int)
    | MinInterval(n: int)
    | CompactPeers(text: Bytes, ipv6: bool)
    | ListedPeers(dicts: seq<seq<Detail>>)
    | Observed(text: Bytes)
    | Unknown(key: Bytes, value: Value)

  function KeyOf(part: Part): Bytes {
    match part
    case Failure(_) => KEY_FAILURE
    case Interval(_) => KEY_INTERVAL
    case MinInterval(_) => KEY_MIN_INTERVAL
    case CompactPeers(_, ipv6) => if ipv6 then KEY_PEERS6 else KEY_PEERS
    case ListedPeers(_) => KEY_PEERS
    case Observed(_) => KEY_OBSERVED
    case Unknown(key, _) => key
  }

  function EncodeValue(part: Part): Bytes {
    match part
    case Failure(reason) => Encode(reason)
    case Interval(n) => EncodeNumber(n)
    case MinInterval(n) => EncodeNumber(n)
    case CompactPeers(text, _) => EncodeString(text)
    case ListedPeers(dicts) => [CHAR_L] + EncodeDicts(dicts) + [CHAR_E]
    case Observed(text) => EncodeString(text)
    case Unknown(_, value) => Encode(value)
  }

  function EncodeParts(parts: seq<Part>): Bytes {
    if parts == [] then [] else EncodeString(KeyOf(parts[0])) + EncodeValue(parts[0]) + EncodeParts(parts[1..])
  }

  function Response(parts: seq<Part>): Bytes {
    [CHAR_D] + EncodeParts(parts) + [CHAR_E]
  }

  /** Unknown pairs do not use a key with a meaning of its own. */
  predicate PartKeyed(part: Part) {
    && (part.Unknown? ==> !Recognised(part.key))
    && (part.ListedPeers? ==> AllKeyed(part.dicts))
  }

  predicate PartsKeyed(parts: seq<Part>) {
    forall i :: 0 <= i < |parts| ==> PartKeyed(parts[i])
  }

  /** The pair can be read; a failure never can. */
  predicate PartOk(c: TextCodec, part: Part) {
    match part
    case Failure(_) => false
    case Interval(n) => 0 <= n < 0x1_0000_0000
    case MinInterval(n) => 0 <= n < 0x1_0000_0000
    case CompactPeers(text, ipv6) => |text| % (if ipv6 then 18 else 6) == 0
    case ListedPeers(dicts) => DictsOk(c, dicts)
    case Observed(text) => c.parseSocket(text).Some?
    case Unknown(_, value) => Skippable(value, 0)
  }

  predicate PartsOk(c: TextCodec, parts: seq<Part>) {
    forall i :: 0 <= i < |parts| ==> PartOk(c, parts[i])
  }

  /** The addresses one pair contributes. */
  function Contributed(c: TextCodec, part: Part): seq<SocketAddr>
    requires PartOk(c, part)
  {
    match part
    case CompactPeers(text, ipv6) => CompactInto([], text, ipv6)
    case ListedPeers(dicts) => AdmitAll([], AllNamed(c, dicts))
    case _ => []
  }

  /** What one pair does to the fields. */
  function Taken(c: TextCodec, part: Part, f: Fields): Fields
    requires PartOk(c, part)
  {
    match part
    case Interval(n) => f.(interval := Some(n))
    case MinInterval(n) => f.(minimum := n)
    case CompactPeers(_, _) => f.(addresses := f.addresses + Contributed(c, part))
    case ListedPeers(_) => f.(addresses := f.addresses + Contributed(c, part))
    case Observed(text) => f.(observed := c.parseSocket(text))
    case _ => f
  }

  function Gathered(c: TextCodec, parts: seq<Part>, f: Fields): Fields
    requires PartsOk(c, parts)
    decreases |parts|
  {
    if parts == [] then f else Gathered(c, parts[1..], Taken(c, parts[0], f))
  }

  lemma NumberParses(b: Bytes, o: nat, e: nat, n: int)
    requires At(b, o, e, EncodeNumber(n))
    ensures ParseU32(b, o) == if 0 <= n < 0x1_0000_0000 then Some(Parsed(n, e)) else None
  {
    NumberAt(b, o, e, n);
  }

  lemma ListOpens(c: TextCodec, b: Bytes, o: nat, m: nat, taken: seq<SocketAddr>)
    requires o < |b| && b[o] == CHAR_L && m == o + 1 && taken == []
    ensures ParsePeers(c, b, o) == ParsePeerList(c, b, m, taken)
  {
  }

  lemma ListedParses(c: TextCodec, b: Bytes, o: nat, e: nat, dicts: seq<seq<Detail>>, taken: seq<SocketAddr>)
    requires At(b, o, e, [CHAR_L] + EncodeDicts(dicts) + [CHAR_E]) && AllKeyed(dicts) && taken == []
    ensures ParsePeers(c, b, o) == if DictsOk(c, dicts) then Some(Parsed(AdmitAll(taken, AllNamed(c, dicts)), e)) else None
  {
    var s, m, k := EncodeDicts(dicts), o + 1, e - 1;
    Bracketed(b, o, e, CHAR_L, s);
    assert At(b, m, k, s) && e == k + 1;
    ListOpens(c, b, o, m, taken);
    DictsParse(c, b, m, k, e, dicts, taken);
  }

  lemma CompactParses(c: TextCodec, b: Bytes, o: nat, e: nat, text: Bytes, ipv6: bool)
    requires At(b, o, e, EncodeString(text))
    ensures var r := if |text| % Stride(ipv6) == 0 then Some(Parsed(CompactInto([], text, ipv6), e)) else None;
            ParseCompact(b, o, ipv6) == r && (!ipv6 ==> ParsePeers(c, b, o) == r)
  {
    StringAt(b, o, e, text);
  }

  lemma ValueParses(c: TextCodec, b: Bytes, o: nat, e: nat, part: Part, f: Fields)
    requires At(b, o, e, EncodeValue(part)) && PartKeyed(part)
    ensures ParseValue(c, KeyOf(part), b, o, f) == if PartOk(c, part) then Some(Parsed(Taken(c, part, f), e)) else None
  {
    match part
    case Failure(_) =>
    case Interval(n) => NumberParses(b, o, e, n);
    case MinInterval(n) => NumberParses(b, o, e, n);
    case CompactPeers(text, ipv6) => CompactParses(c, b, o, e, text, ipv6);
    case ListedPeers(dicts) => ListedParses(c, b, o, e, dicts, []);
    case Observed(text) => StringAt(b, o, e, text);
    case Unknown(_, value) => SkipsExactly(b, o, e, value, 0);
  }

  lemma PartsOkOfCons(c: TextCodec, parts: seq<Part>)
    requires parts != []
    ensures PartsOk(c, parts) <==> PartOk(c, parts[0]) && PartsOk(c, parts[1..])
  {
    assert forall i :: 0 < i < |parts| ==> parts[i] == parts[1..][i - 1];
  }

  lemma {:induction false} PartsParse(c: TextCodec, b: Bytes, o: nat, k: nat, e: nat, parts: seq<Part>, f: Fields)
    requires At(b, o, k, EncodeParts(parts)) && e == k + 1 <= |b| && b[k] == CHAR_E && PartsKeyed(parts)
    ensures ParseFields(c, b, o, f) == if PartsOk(c, parts) then Some(Parsed(Gathered(c, parts, f), e)) else None
    decreases |parts|
  {
    if parts != [] {
      var part := parts[0];
      var key, value := EncodeString(KeyOf(part)), EncodeValue(part);
      var m, l := o + |key|, o + |key| + |value|;
      AtSplit(b, o, l, k, key + value, EncodeParts(parts[1..]));
      AtSplit(b, o, m, l, key, value);
      StringAt(b, o, m, KeyOf(part));
      ValueParses(c, b, m, l, part, f);
      PartsOkOfCons(c, parts);
      if PartOk(c, part) {
        PartsParse(c, b, l, k, e, parts[1..], Taken(c, part, f));
      }
    }
  }

  /** The dictionary of a response is read to its end, whatever follows. */
  lemma ResponseParses(c: TextCodec, parts: seq<Part>, b: Bytes, n: nat, rest: Bytes)
    requires PartsKeyed(parts) && b == Response(parts) + rest && n == |Response(parts)| && |b| <= 16_384
    ensures b != [] && b[0] == CHAR_D
    ensures ParseFields(c, b, 1, NO_FIELDS) == if PartsOk(c, parts) then Some(Parsed(Gathered(c, parts, NO_FIELDS), n)) else None
  {
    var s, k := EncodeParts(parts), n - 1;
    assert b[0..n] == Response(parts);
    Bracketed(b, 0, n, CHAR_D, s);
    assert At(b, 1, k, s) && n == k + 1;
    PartsParse(c, b, 1, k, n, parts, NO_FIELDS);
  }

  /** A response of well-formed pairs is read pair by pair, and is an error if it is too long or one pair is. */
  lemma ResponseReads(c: TextCodec, parts: seq<Part>)
    requires PartsKeyed(parts)
    ensures ParseResponse(c, Response(parts)) ==
            if |Response(parts)| <= 16_384 && PartsOk(c, parts) then Finish(Gathered(c, parts, NO_FIELDS)) else None
  {
    var b := Response(parts);
    if |b| <= 16_384 {
      assert b == b + [];
      ResponseParses(c, parts, b, |b|, []);
    }
  }

  /** Bytes after the dictionary make the response an error. */
  lemma TrailingBytesAreAnError(c: TextCodec, parts: seq<Part>, rest: Bytes)
    requires PartsKeyed(parts) && rest != []
    ensures ParseResponse(c, Response(parts) + rest).None?
  {
    var b, n := Response(parts) + rest, |Response(parts)|;
    if |b| <= 16_384 {
      ResponseParses(c, parts, b, n, rest);
    }
  }

  lemma FieldsAdvance(c: TextCodec, b: Bytes, o: nat, f: Fields, r: Parsed<Fields>) returns (m: nat, g: Fields)
    requires o < |b| && b[o] != CHAR_E && ParseFields(c, b, o, f) == Some(r)
    ensures o < m <= |b| && ParseFields(c, b, m, g) == Some(r)
  {
    var field := ParseField(c, b, o, f).value;
    m, g := field.end, field.value;
  }

  lemma {:induction false} FieldsEndTheDictionary(c: TextCodec, b: Bytes, o: nat, f: Fields, r: Parsed<Fields>)
    requires o <= |b| && ParseFields(c, b, o, f) == Some(r)
    ensures o < r.end <= |b| && (r.end == |b| ==> b[|b| - 1] == 101)
    decreases |b| - o
  {
    if b[o] != CHAR_E {
      var m, g := FieldsAdvance(c, b, o, f, r);
      FieldsEndTheDictionary(c, b, m, g, r);
    }
  }

  /** Only a bracketed dictionary of at most 16 KiB is ever read. */
  lemma AcceptedIsADictionary(c: TextCodec, b: Bytes)
    requires ParseResponse(c, b).Some?
    ensures 2 <= |b| <= 16_384 && b[0] == 100 && b[|b| - 1] == 101
  {
    FieldsEndTheDictionary(c, b, 1, NO_FIELDS, ParseFields(c, b, 1, NO_FIELDS).value);
  }

  // ----- What the result holds -----

  datatype Topic = OfInterval | OfMinimum | OfPeers | OfObserved | OfNothing

  function About(part: Part): Topic {
    match part
    case Interval(_) => OfInterval
    case MinInterval(_) => OfMinimum
    case CompactPeers(_, _) => OfPeers
    case ListedPeers(_) => OfPeers
    case Observed(_) => OfObserved
    case _ => OfNothing
  }

  predicate Absent(parts: seq<Part>, topic: Topic) {
    forall i :: 0 <= i < |parts| ==> About(parts[i]) != topic
  }

  /** Part `i` is the last one about its topic. */
  predicate IsLast(parts: seq<Part>, i: nat) {
    i < |parts| && forall j :: i < j < |parts| ==> About(parts[j]) != About(parts[i])
  }

  lemma LastOfTail(parts: seq<Part>, i: nat)
    requires IsLast(parts, i)
    ensures i > 0 ==> IsLast(parts[1..], i - 1) && parts[1..][i - 1] == parts[i]
    ensures i == 0 ==> Absent(parts[1..], About(parts[0]))
  {
  }

  lemma {:induction false} AbsentIsKept(c: TextCodec, parts: seq<Part>, f: Fields)
    requires PartsOk(c, parts)
    ensures Absent(parts, OfInterval) ==> Gathered(c, parts, f).interval == f.interval
    ensures Absent(parts, OfMinimum) ==> Gathered(c, parts, f).minimum == f.minimum
    ensures Absent(parts, OfPeers) ==> Gathered(c, parts, f).addresses == f.addresses
    ensures Absent(parts, OfObserved) ==> Gathered(c, parts, f).observed == f.observed
    decreases |parts|
  {
    if parts != [] {
      AbsentIsKept(c, parts[1..], Taken(c, parts[0], f));
    }
  }

  lemma {:induction false} LastIsTaken(c: TextCodec, parts: seq<Part>, f: Fields, i: nat)
    requires PartsOk(c, parts) && IsLast(parts, i)
    ensures var g, part := Gathered(c, parts, f), parts[i];
            && (part.Interval? ==> g.interval == Some(part.n))
            && (part.MinInterval? ==> g.minimum == part.n)
            && (part.Observed? ==> g.observed == c.parseSocket(part.text))
    decreases |parts|
  {
    LastOfTail(parts, i);
    if i > 0 {
      LastIsTaken(c, parts[1..], Taken(c, parts[0], f), i - 1);
    } else {
      AbsentIsKept(c, parts[1..], Taken(c, parts[0], f));
    }
  }

  /** Part `i` is the only one about peers. */
  predicate OnlyPeers(parts: seq<Part>, i: nat) {
    && i < |parts| && About(parts[i]) == OfPeers
    && forall j :: 0 <= j < |parts| && About(parts[j]) == OfPeers ==> j == i
  }

  lemma {:induction false} OnlyPeersAreTaken(c: TextCodec, parts: seq<Part>, f: Fields, i: nat)
    requires PartsOk(c, parts) && OnlyPeers(parts, i)
    ensures Gathered(c, parts, f).addresses == f.addresses + Contributed(c, parts[i])
    decreases |parts|
  {
    var rest := parts[1..];
    assert forall j :: 0 <= j < |rest| ==> rest[j] == parts[j + 1];
    if i > 0 {
      assert About(parts[0]) != OfPeers;
      assert forall j :: 0 <= j < |rest| && About(rest[j]) == OfPeers ==> j + 1 == i;
      OnlyPeersAreTaken(c, rest, Taken(c, parts[0], f), i - 1);
    } else {
      AbsentIsKept(c, rest, Taken(c, parts[0], f));
    }
  }

  /** A failure reason makes the whole response an error, whatever else it holds. */
  lemma FailureIsAnError(c: TextCodec, parts: seq<Part>, i: nat)
    requires PartsKeyed(parts) && i < |parts| && parts[i].Failure?
    ensures ParseResponse(c, Response(parts)).None?
  {
    ResponseReads(c, parts);
    assert !PartOk(c, parts[i]);
  }

  /** A peer dictionary that lacks its address or its port makes the whole response an error. */
  lemma MissingKeyIsAnError(c: TextCodec, parts: seq<Part>, i: nat, j: nat)
    requires PartsKeyed(parts) && i < |parts| && parts[i].ListedPeers?
    requires j < |parts[i].dicts| && (!HasIp(parts[i].dicts[j]) || !HasPort(parts[i].dicts[j]))
    ensures ParseResponse(c, Response(parts)).None?
  {
    ResponseReads(c, parts);
    assert !DictOk(c, parts[i].dicts[j]);
    assert !PartOk(c, parts[i]);
  }

  lemma NoIntervalIsAnError(c: TextCodec, parts: seq<Part>)
    requires PartsKeyed(parts) && Absent(parts, OfInterval)
    ensures ParseResponse(c, Response(parts)).None?
  {
    ResponseReads(c, parts);
    if PartsOk(c, parts) {
      AbsentIsKept(c, parts, NO_FIELDS);
    }
  }

  /** The last interval counts, and must be positive. */
  lemma IntervalIsRead(c: TextCodec, parts: seq<Part>, i: nat)
    requires PartsKeyed(parts) && |Response(parts)| <= 16_384 && PartsOk(c, parts)
    requires IsLast(parts, i) && parts[i].Interval? && Absent(parts, OfMinimum)
    ensures var r := ParseResponse(c, Response(parts));
            if parts[i].n > 0 then r.Some? && r.value.interval == parts[i].n else r.None?
  {
    ResponseReads(c, parts);
    AbsentIsKept(c, parts, NO_FIELDS);
    LastIsTaken(c, parts, NO_FIELDS, i);
  }

  /** The last minimum raises a positive interval, and never makes up for a missing one. */
  lemma MinimumRaisesInterval(c: TextCodec, parts: seq<Part>, i: nat, k: nat)
    requires PartsKeyed(parts) && |Response(parts)| <= 16_384 && PartsOk(c, parts)
    requires IsLast(parts, i) && parts[i].Interval? && IsLast(parts, k) && parts[k].MinInterval?
    ensures var r, n, m := ParseResponse(c, Response(parts)), parts[i].n, parts[k].n;
            if n > 0 then r.Some? && r.value.interval == (if m > n then m else n) else r.None?
  {
    ResponseReads(c, parts);
    LastIsTaken(c, parts, NO_FIELDS, i);
    LastIsTaken(c, parts, NO_FIELDS, k);
  }

  // ----- Listed peers -----

  /** The dictionary names the address once or more, in any order, with any skippable pairs in between. */
  predicate Describes(c: TextCodec, ds: seq<Detail>, a: SocketAddr) {
    && HasIp(ds) && HasPort(ds)
    && forall i :: 0 <= i < |ds| ==>
         match ds[i]
         case Ip(text) => c.parseIp(text) == Some(a.ip)
         case Port(n) => n == a.port
         case Extra(_, value) => Skippable(value, 1)
  }

  lemma {:induction false} LaterIsDescribed(c: TextCodec, ds: seq<Detail>, f: PeerFields, a: SocketAddr)
    requires DetailsOk(c, ds)
    requires forall i :: 0 <= i < |ds| && ds[i].Ip? ==> c.parseIp(ds[i].text) == Some(a.ip)
    requires forall i :: 0 <= i < |ds| && ds[i].Port? ==> ds[i].n == a.port
    ensures Later(c, ds, f).ip == f.ip || Later(c, ds, f).ip == Some(a.ip)
    ensures Later(c, ds, f).port == f.port || Later(c, ds, f).port == Some(a.port)
    decreases |ds|
  {
    if ds != [] {
      assert [ds[0]][1..] == [];
      LaterOfCons(c, ds, f);
      LaterIsDescribed(c, ds[1..], Later(c, [ds[0]], f), a);
    }
  }

  lemma DescribedIsNamed(c: TextCodec, ds: seq<Detail>, a: SocketAddr)
    requires Describes(c, ds, a)
    ensures DictOk(c, ds) && Named(c, ds) == a
  {
    LaterIsNamed(c, ds, PeerFields(None, None));
    LaterIsDescribed(c, ds, PeerFields(None, None), a);
  }

  lemma AllAreNamed(c: TextCodec, dicts: seq<seq<Detail>>, peers: seq<SocketAddr>)
    requires |dicts| == |peers| && forall i :: 0 <= i < |dicts| ==> Describes(c, dicts[i], peers[i])
    ensures DictsOk(c, dicts) && AllNamed(c, dicts) == peers
  {
    forall i | 0 <= i < |dicts|
      ensures DictOk(c, dicts[i]) && Named(c, dicts[i]) == peers[i]
    {
      DescribedIsNamed(c, dicts[i], peers[i]);
    }
  }

  /**
   A response that lists at most 16 peers as dictionaries gives back exactly the usable ones, in order and once
   each, whatever other readable pairs surround the list and whatever skippable pairs the dictionaries hold.
   */
  lemma ListedPeersReadBack(c: TextCodec, parts: seq<Part>, i: nat, k: nat, peers: seq<SocketAddr>)
    requires PartsKeyed(parts) && |Response(parts)| <= 16_384
    requires forall j :: 0 <= j < |parts| && j != i ==> PartOk(c, parts[j])
    requires OnlyPeers(parts, i) && parts[i].ListedPeers? && |parts[i].dicts| == |peers| <= 16
    requires forall j :: 0 <= j < |peers| ==> Describes(c, parts[i].dicts[j], peers[j])
    requires IsLast(parts, k) && parts[k].Interval? && parts[k].n > 0
    ensures var r := ParseResponse(c, Response(parts));
            && r.Some? && StrictlySorted(r.value.addresses)
            && forall a :: a in r.value.addresses <==> a in peers && Usable(a)
  {
    AllAreNamed(c, parts[i].dicts, peers);
    assert PartOk(c, parts[i]);
    ResponseReads(c, parts);
    LastIsTaken(c, parts, NO_FIELDS, k);
    OnlyPeersAreTaken(c, parts, NO_FIELDS, i);
    AdmitAllOk([], peers);
    var f := Gathered(c, parts, NO_FIELDS);
    assert f.addresses == AdmitAll([], peers);
    FinishOk(f);
  }

  // ----- Constants of the format -----

  function Ascii(s: string): Bytes
    requires forall i :: 0 <= i < |s| ==> s[i] as int < 128
  {
    seq(|s|, i requires 0 <= i < |s| => s[i] as int)
  }

  lemma KeysAreSpelled()
    ensures KEY_INTERVAL == Ascii("interval") && KEY_MIN_INTERVAL == Ascii("min interval")
    ensures KEY_FAILURE == Ascii("failure reason") && KEY_OBSERVED == Ascii("lt_observed")
    ensures KEY_PEERS == Ascii("peers") && KEY_PEERS6 == Ascii("peers6")
    ensures KEY_IP == Ascii("ip") && KEY_PORT == Ascii("port")
    ensures [CHAR_I, CHAR_L, CHAR_D, CHAR_E, CHAR_COLON] == Ascii("ilde:")
  {
  }

  /** The usable addresses by their octets: a port, and neither unspecified, multicast nor broadcast. */
  lemma UsableByOctets(a: SocketAddr)
    ensures a.ip.V4? ==> (Usable(a) <==>
            && a.port != 0 && a.ip.octets != [0, 0, 0, 0] && a.ip.octets != [255, 255, 255, 255]
            && !(224 <= a.ip.octets[0] <= 239))
    ensures a.ip.V6? ==> (Usable(a) <==>
            a.port != 0 && a.ip.octets != [0, 0, 0, 0, 0, 0, 0, 0, 0, 0, 0, 0, 0, 0, 0, 0] && a.ip.octets[0] != 255)
  {
  }
}
