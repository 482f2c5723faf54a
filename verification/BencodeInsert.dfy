/**
 Skipping consumes exactly one encoded value, and a pair with an unrecognised key can stand between any two
 pairs of a response without changing its meaning.
 */
module BencodeInsert {
  import opened Prelude
  import opened Decimal
  import opened Net
  import opened Bencode
  import opened BencodeLocality

  // ----- Encoding (BEP 3) -----

  datatype Value = Number(n: int) | Str(s: Bytes) | List(items: Items) | Dict(entries: Entries)

  datatype Items = NoItems | Item(head: Value, rest: Items)

  datatype Entries = NoEntries | Entry(key: Bytes, value: Value, others: Entries)

  function EncodeString(s: Bytes): (r: Bytes)
    ensures |r| > 0 && IsDigit(r[0])
  {
    Print(|s|) + [CHAR_COLON] + s
  }

  function EncodeNumber(n: int): Bytes {
    [CHAR_I] + PrintInt(n) + [CHAR_E]
  }

  function Encode(v: Value): (r: Bytes)
    ensures |r| > 0 && r[0] != CHAR_E
  {
    match v
    case Number(n) => EncodeNumber(n)
    case Str(s) => EncodeString(s)
    case List(items) => [CHAR_L] + EncodeItems(items) + [CHAR_E]
    case Dict(entries) => [CHAR_D] + EncodeEntries(entries) + [CHAR_E]
  }

  function EncodeItems(items: Items): Bytes {
    match items
    case NoItems => []
    case Item(v, rest) => Encode(v) + EncodeItems(rest)
  }

  function EncodeEntries(entries: Entries): Bytes {
    match entries
    case NoEntries => []
    case Entry(key, v, rest) => EncodeString(key) + Encode(v) + EncodeEntries(rest)
  }

  /** Every part lies within the nesting limit and every number fits in 64 bits. */
  predicate Skippable(v: Value, depth: nat) {
    && depth <= 8
    && match v
       case Number(n) => -0x8000_0000_0000_0000 <= n < 0x8000_0000_0000_0000
       case Str(_) => true
       case List(items) => ItemsSkippable(items, depth + 1)
       case Dict(entries) => EntriesSkippable(entries, depth + 1)
  }

  predicate ItemsSkippable(items: Items, depth: nat) {
    items.Item? ==> Skippable(items.head, depth) && ItemsSkippable(items.rest, depth)
  }

  predicate EntriesSkippable(entries: Entries, depth: nat) {
    entries.Entry? ==> Skippable(entries.value, depth) && EntriesSkippable(entries.others, depth)
  }

  // ----- Reading an encoding back -----

  /** The bytes from `o` up to `e` are `s`; lengths fit in a machine word. */
  predicate At(b: Bytes, o: nat, e: nat, s: Bytes) {
    o <= e <= |b| < 0x1_0000_0000_0000_0000 && b[o..e] == s
  }

  lemma AtSplit(b: Bytes, o: nat, k: nat, e: nat, s: Bytes, t: Bytes)
    requires At(b, o, e, s + t) && k == o + |s|
    ensures At(b, o, k, s) && At(b, k, e, t)
  {
    assert b[o..k] == b[o..e][..|s|] && b[k..e] == b[o..e][|s|..];
  }

  lemma {:induction false} DigitsEndAt(b: Bytes, o: nat, k: nat)
    requires o <= k < |b| && (forall i :: o <= i < k ==> IsDigit(b[i])) && !IsDigit(b[k])
    ensures DigitsEnd(b, o) == k
    decreases k - o
  {
    if o < k {
      DigitsEndAt(b, o + 1, k);
    }
  }

  lemma {:induction false} NextEAt(b: Bytes, o: nat, k: nat)
    requires o <= k < |b| && (forall i :: o <= i < k ==> b[i] != CHAR_E) && b[k] == CHAR_E
    ensures NextE(b, o) == k
    decreases k - o
  {
    if o < k {
      NextEAt(b, o + 1, k);
    }
  }

  lemma StringAt(b: Bytes, o: nat, e: nat, s: Bytes)
    requires At(b, o, e, EncodeString(s))
    ensures ParseString(b, o) == Some(Parsed(s, e)) && o < |b| && IsDigit(b[o])
  {
    var digits: Bytes := Print(|s|);
    var k := o + |digits|;
    assert EncodeString(s) == digits + ([CHAR_COLON] + s);
    AtSplit(b, o, k, e, digits, [CHAR_COLON] + s);
    AtSplit(b, k, k + 1, e, [CHAR_COLON], s);
    assert b[k..k + 1][0] == b[k];
    forall i | o <= i < k
      ensures IsDigit(b[i])
    {
      assert b[i] == digits[i - o];
    }
    DigitsEndAt(b, o, k);
    ParseOfPrint(|s|, 0x1_0000_0000_0000_0000);
  }

  lemma PrintIntHasNoE(n: int)
    ensures forall i :: 0 <= i < |PrintInt(n)| ==> PrintInt(n)[i] < CHAR_E
  {
    forall i | 0 <= i < |PrintInt(n)|
      ensures PrintInt(n)[i] < CHAR_E
    {
      var digits := Print(if n < 0 then -n else n);
      assert n < 0 && i > 0 ==> IsDigit(digits[i - 1]);
      assert n >= 0 ==> IsDigit(digits[i]);
    }
  }

  lemma NumberEnds(b: Bytes, o: nat, k: nat, n: int)
    requires At(b, o, k, PrintInt(n)) && k < |b| && b[k] == CHAR_E
    ensures NextE(b, o) == k
  {
    PrintIntHasNoE(n);
    forall i | o <= i < k
      ensures b[i] != CHAR_E
    {
      assert b[i] == b[o..k][i - o];
    }
    NextEAt(b, o, k);
  }

  lemma NumberAt(b: Bytes, o: nat, e: nat, n: int)
    requires At(b, o, e, EncodeNumber(n))
    ensures o < |b| && b[o] == CHAR_I
    ensures ParseInteger(b, o) == if Skippable(Number(n), 0) then Some(Parsed(n, e)) else None
  {
    PrintIntHasNoE(n);
    Bracketed(b, o, e, CHAR_I, PrintInt(n));
    NumberEnds(b, o + 1, e - 1, n);
    ParseI64OfPrint(n);
  }

  /** Skipping an encoded value ends exactly where the encoding ends, or fails if a limit is exceeded. */
  lemma {:induction false} SkipsExactly(b: Bytes, o: nat, e: nat, v: Value, depth: nat)
    requires At(b, o, e, Encode(v))
    ensures Skip(b, o, depth) == if Skippable(v, depth) then Some(e) else None
    decreases v
  {
    match v
    case Number(n) => NumberAt(b, o, e, n);
    case Str(s) => StringAt(b, o, e, s);
    case List(items) =>
      Bracketed(b, o, e, CHAR_L, EncodeItems(items));
      SkipsItems(b, o + 1, e - 1, e, items, depth);
    case Dict(entries) =>
      Bracketed(b, o, e, CHAR_D, EncodeEntries(entries));
      SkipsEntries(b, o + 1, e - 1, e, entries, depth);
  }

  lemma Bracketed(b: Bytes, o: nat, e: nat, open: byte, s: Bytes)
    requires At(b, o, e, [open] + s + [CHAR_E])
    ensures o + 2 <= e && b[o] == open && b[e - 1] == CHAR_E && At(b, o + 1, e - 1, s)
  {
    assert [open] + s + [CHAR_E] == [open] + (s + [CHAR_E]);
    AtSplit(b, o, o + 1, e, [open], s + [CHAR_E]);
    AtSplit(b, o + 1, e - 1, e, s, [CHAR_E]);
    assert b[o..o + 1][0] == b[o] && b[e - 1..e][0] == b[e - 1];
  }

  lemma {:induction false} SkipsItems(b: Bytes, o: nat, k: nat, e: nat, items: Items, depth: nat)
    requires At(b, o, k, EncodeItems(items)) && e == k + 1 <= |b| && b[k] == CHAR_E
    ensures SkipItems(b, o, false, depth) == if ItemsSkippable(items, depth + 1) then Some(e) else None
    decreases items
  {
    if items.Item? {
      var m := o + |Encode(items.head)|;
      AtSplit(b, o, m, k, Encode(items.head), EncodeItems(items.rest));
      assert b[o] == Encode(items.head)[0];
      SkipsExactly(b, o, m, items.head, depth + 1);
      SkipsItems(b, m, k, e, items.rest, depth);
    }
  }

  lemma {:induction false} SkipsEntries(b: Bytes, o: nat, k: nat, e: nat, entries: Entries, depth: nat)
    requires At(b, o, k, EncodeEntries(entries)) && e == k + 1 <= |b| && b[k] == CHAR_E
    ensures SkipItems(b, o, true, depth) == if EntriesSkippable(entries, depth + 1) then Some(e) else None
    decreases entries
  {
    if entries.Entry? {
      var key, value := EncodeString(entries.key), Encode(entries.value);
      var m, l := o + |key|, o + |key| + |value|;
      AtSplit(b, o, l, k, key + value, EncodeEntries(entries.others));
      AtSplit(b, o, m, l, key, value);
      StringAt(b, o, m, entries.key);
      SkipsExactly(b, m, l, entries.value, depth + 1);
      SkipsEntries(b, l, k, e, entries.others, depth);
    }
  }

  // ----- Inserting a pair -----

  /** From `o` with fields `f`, whole pairs lead to offset `k` with fields `g`. */
  predicate Reaches(c: TextCodec, b: Bytes, o: nat, f: Fields, k: nat, g: Fields)
    decreases |b| - o
  {
    && o <= k <= |b|
    && if o == k then f == g
       else
         && b[o] != CHAR_E
         && var r := ParseField(c, b, o, f);
            r.Some? && Reaches(c, b, r.value.end, r.value.value, k, g)
  }

  lemma {:induction false} ReachesSkipsAhead(c: TextCodec, b: Bytes, o: nat, f: Fields, k: nat, g: Fields)
    requires Reaches(c, b, o, f, k, g)
    ensures ParseFields(c, b, o, f) == ParseFields(c, b, k, g)
    decreases |b| - o
  {
    if o < k {
      var r := ParseField(c, b, o, f).value;
      ReachesSkipsAhead(c, b, r.end, r.value, k, g);
    }
  }

  lemma {:induction false} ReachesIsLocal(c: TextCodec, b: Bytes, t: Bytes, o: nat, f: Fields, k: nat, g: Fields)
    requires Reaches(c, b, o, f, k, g) && Same(b, t, 0, o, k)
    ensures Reaches(c, t, o, f, k, g)
    decreases |b| - o
  {
    if o < k {
      var r := ParseField(c, b, o, f).value;
      FieldIsLocal(c, b, t, 0, o, r.end, o, r.end, f, r.value);
      ReachesIsLocal(c, b, t, r.end, r.value, k, g);
    }
  }

  function Insert(b: Bytes, k: nat, key: Bytes, v: Value): Bytes
    requires k <= |b|
  {
    b[..k] + (EncodeString(key) + Encode(v)) + b[k..]
  }

  predicate Recognised(key: Bytes) {
    key in {KEY_FAILURE, KEY_INTERVAL, KEY_MIN_INTERVAL, KEY_PEERS, KEY_PEERS6, KEY_OBSERVED}
  }

  /** The rest of the response reads the same, `d` places further on. */
  lemma TailMoves(c: TextCodec, b: Bytes, t: Bytes, k: nat, p: nat, f: Fields)
    requires k <= |b| && p <= |t| && b[k..] == t[p..]
    ensures ParseFields(c, b, k, f).Some? == ParseFields(c, t, p, f).Some?
    ensures ParseFields(c, b, k, f).Some? ==>
      var r, s := ParseFields(c, b, k, f).value, ParseFields(c, t, p, f).value;
      s.value == r.value && s.end == r.end + (p - k)
  {
    assert forall i {:trigger b[i]} :: k <= i < |b| ==> b[i] == b[k..][i - k] == t[i + (p - k)];
    assert forall i {:trigger t[i]} :: p <= i < |t| ==> t[i] == t[p..][i - p] == b[i + (k - p)];
    if ParseFields(c, b, k, f).Some? {
      var r := ParseFields(c, b, k, f).value;
      FieldsIsLocal(c, b, t, p - k, k, r.end, p, r.end + (p - k), f, r.value);
    }
    if ParseFields(c, t, p, f).Some? {
      var s := ParseFields(c, t, p, f).value;
      FieldsIsLocal(c, t, b, k - p, p, s.end, k, s.end + (k - p), f, s.value);
    }
  }

  /** The inserted pair is passed over, or ends the reading if it exceeds a limit. */
  lemma InsertedIsSkipped(c: TextCodec, t: Bytes, k: nat, p: nat, key: Bytes, v: Value, f: Fields)
    requires At(t, k, p, EncodeString(key) + Encode(v)) && !Recognised(key)
    ensures ParseFields(c, t, k, f) == if Skippable(v, 0) then ParseFields(c, t, p, f) else None
  {
    var m := k + |EncodeString(key)|;
    AtSplit(t, k, m, p, EncodeString(key), Encode(v));
    StringAt(t, k, m, key);
    SkipsExactly(t, m, p, v, 0);
  }

  /**
   Inserting a pair with an unrecognised key before any pair, or before the end, leaves the parsed response
   as it was if the value can be skipped, and makes it an error otherwise.
   */
  lemma InsertionIsInvisible(c: TextCodec, b: Bytes, k: nat, g: Fields, key: Bytes, v: Value)
    requires b != [] && b[0] == CHAR_D && 1 <= k && Reaches(c, b, 1, NO_FIELDS, k, g)
    requires !Recognised(key) && |Insert(b, k, key, v)| <= MAX_RESPONSE
    ensures ParseResponse(c, Insert(b, k, key, v)) == if Skippable(v, 0) then ParseResponse(c, b) else None
  {
    var t, pair := Insert(b, k, key, v), EncodeString(key) + Encode(v);
    var p := k + |pair|;
    assert t[k..p] == pair && t[p..] == b[k..];
    ReachesSkipsAhead(c, b, 1, NO_FIELDS, k, g);
    ReachesIsLocal(c, b, t, 1, NO_FIELDS, k, g);
    ReachesSkipsAhead(c, t, 1, NO_FIELDS, k, g);
    InsertedIsSkipped(c, t, k, p, key, v, g);
    TailMoves(c, b, t, k, p, g);
  }
}
