/** BEP 41 URL data: options after the 98-byte announce request. */
module UrlData {
  import opened Prelude
  import opened Net

  const ANNOUNCE_BYTES: nat := 98
  const MAX_URL: nat := 1024
  const CHUNK: nat := 255
  const END_OPTION: byte := 0
  const NOP_OPTION: byte := 1
  const URL_OPTION: byte := 2

  // ----- Writing -----

  /** The target in chunks of at most 255 bytes, each with its kind and length. */
  function Options(target: Bytes): Bytes
    decreases |target|
  {
    if target == [] then []
    else
      var n := if |target| < CHUNK then |target| else CHUNK;
      [URL_OPTION, n] + target[..n] + Options(target[n..])
  }

  method AppendUrlData(packet: Bytes, target: Bytes) returns (r: Option<Bytes>)
    ensures r == if |target| <= MAX_URL then Some(packet + Options(target)) else None
  {
    if |target| > MAX_URL {
      return None;
    }
    var bytes: Bytes, rest: Bytes := packet, target;
    while rest != []
      invariant bytes + Options(rest) == packet + Options(target)
      decreases |rest|
    {
      var n := if |rest| < CHUNK then |rest| else CHUNK;
      ghost var was := bytes;
      bytes := bytes + [URL_OPTION, n];
      bytes := bytes + rest[..n];
      assert bytes + Options(rest[n..]) == was + ([URL_OPTION, n] + rest[..n] + Options(rest[n..]));
      rest := rest[n..];
    }
    assert bytes + [] == bytes;
    return Some(bytes);
  }

  // ----- Reading -----

  /** The data collected by the end of the options, or None where the program reports an error. */
  function Data(p: Bytes, o: nat, data: Bytes): Option<Bytes>
    decreases |p| - o
  {
    if o >= |p| || p[o] == END_OPTION then Some(data)
    else if p[o] == NOP_OPTION then Data(p, o + 1, data)
    else if o + 1 == |p| || o + 2 + p[o + 1] > |p| then None
    else
      var e := o + 2 + p[o + 1];
      if p[o] != URL_OPTION then Data(p, e, data)
      else if |data| + p[o + 1] > MAX_URL then None
      else Data(p, e, data + p[o + 2..e])
  }

  function Url(utf8: Bytes -> bool, p: Bytes): Option<Bytes> {
    if |p| < ANNOUNCE_BYTES then None
    else
      var data := Data(p, ANNOUNCE_BYTES, []);
      if data.Some? && utf8(data.value) then data else None
  }

  method ReadUrl(utf8: Bytes -> bool, packet: Bytes) returns (r: Option<Bytes>)
    ensures r == Url(utf8, packet)
  {
    if |packet| < ANNOUNCE_BYTES {
      return None;
    }
    var data: Bytes, offset := [], ANNOUNCE_BYTES;
    while offset < |packet|
      invariant ANNOUNCE_BYTES <= offset <= |packet|
      invariant Data(packet, ANNOUNCE_BYTES, []) == Data(packet, offset, data)
      decreases |packet| - offset
    {
      var kind := packet[offset];
      if kind == END_OPTION {
        break;
      }
      offset := offset + 1;
      if kind == NOP_OPTION {
        continue;
      }
      if offset == |packet| {
        return None;
      }
      var length := packet[offset];
      offset := offset + 1;
      if offset + length > |packet| {
        return None;
      }
      if kind == URL_OPTION {
        if |data| + length > MAX_URL {
          return None;
        }
        data := data + packet[offset..offset + length];
      }
      offset := offset + length;
    }
    r := if utf8(data) then Some(data) else None;
  }

  // ----- The round trip -----

  /** The options from `o` on are whole and none of them is the end marker. */
  predicate Open(p: Bytes, o: nat): (open: bool)
    ensures open ==> o <= |p|
    decreases |p| - o
  {
    if o >= |p| then o == |p|
    else if p[o] == NOP_OPTION then Open(p, o + 1)
    else p[o] != END_OPTION && o + 1 < |p| && Open(p, o + 2 + p[o + 1])
  }

  /** The URL data the options from `o` on hold, whatever its length. */
  function Held(p: Bytes, o: nat): Bytes
    requires Open(p, o)
    decreases |p| - o
  {
    if o == |p| then []
    else if p[o] == NOP_OPTION then Held(p, o + 1)
    else
      var e := o + 2 + p[o + 1];
      (if p[o] == URL_OPTION then p[o + 2..e] else []) + Held(p, e)
  }

  /** Reading past whole options collects what they hold, unless that exceeds the limit. */
  lemma {:induction false} ReadsOpen(p: Bytes, t: Bytes, o: nat, data: Bytes)
    requires Open(p, o) && p <= t && |data| <= MAX_URL
    ensures Data(t, o, data)
         == if |data| + |Held(p, o)| <= MAX_URL then Data(t, |p|, data + Held(p, o)) else None
    decreases |p| - o
  {
    if o == |p| {
      assert data + [] == data;
    } else if p[o] == NOP_OPTION {
      ReadsOpen(p, t, o + 1, data);
    } else {
      var e := o + 2 + p[o + 1];
      var value := p[o + 2..e];
      assert t[o] == p[o] && t[o + 1] == p[o + 1] && t[o + 2..e] == value;
      if p[o] != URL_OPTION {
        ReadsOpen(p, t, e, data);
        assert [] + Held(p, e) == Held(p, e);
      } else if |data| + |value| <= MAX_URL {
        ReadsOpen(p, t, e, data + value);
        assert data + value + Held(p, e) == data + (value + Held(p, e));
      }
    }
  }

  lemma FirstOption(t: Bytes, o: nat, e: nat, target: Bytes, n: nat)
    requires o <= |t| && t[o..] == Options(target) && target != []
    requires n == (if |target| < CHUNK then |target| else CHUNK) && e == o + 2 + n
    ensures e <= |t| && t[o] == URL_OPTION && t[o + 1] == n
    ensures t[o + 2..e] == target[..n] && t[e..] == Options(target[n..])
  {
    Pieces(t, o, e, n, target[..n], Options(target[n..]));
  }

  lemma Pieces(t: Bytes, o: nat, e: nat, n: byte, value: Bytes, rest: Bytes)
    requires o <= |t| && t[o..] == [URL_OPTION, n] + value + rest && e == o + 2 + |value|
    ensures e <= |t| && t[o] == URL_OPTION && t[o + 1] == n && t[o + 2..e] == value && t[e..] == rest
  {
    var tail := t[o..];
    assert tail[0] == t[o] && tail[1] == t[o + 1];
    assert tail[2..|value| + 2] == value && tail[2 + |value|..] == rest;
  }

  /** Reading the options of a target yields the target, unless that exceeds the limit. */
  lemma {:induction false} ReadsOptions(t: Bytes, o: nat, target: Bytes, data: Bytes)
    requires o <= |t| && t[o..] == Options(target) && |data| <= MAX_URL
    ensures Data(t, o, data) == if |data| + |target| <= MAX_URL then Some(data + target) else None
    decreases |target|
  {
    if target == [] {
      assert data + [] == data;
    } else {
      var n := if |target| < CHUNK then |target| else CHUNK;
      var value, rest := target[..n], target[n..];
      var e := o + 2 + n;
      FirstOption(t, o, e, target, n);
      assert target == value + rest;
      if |data| + n <= MAX_URL {
        ReadsOptions(t, e, rest, data + value);
        assert data + value + rest == data + target;
      }
    }
  }

  /**
   Appending a target to a packet with whole options and no end marker makes the reader return the data the
   packet held followed by the target, exactly when together they fit and are valid UTF-8.
   */
  lemma AppendedIsRead(utf8: Bytes -> bool, p: Bytes, target: Bytes)
    requires |p| >= ANNOUNCE_BYTES && Open(p, ANNOUNCE_BYTES)
    ensures
      var url := Held(p, ANNOUNCE_BYTES) + target;
      Url(utf8, p + Options(target)) == if |url| <= MAX_URL && utf8(url) then Some(url) else None
  {
    var t, held := p + Options(target), Held(p, ANNOUNCE_BYTES);
    assert t[|p|..] == Options(target);
    ReadsOpen(p, t, ANNOUNCE_BYTES, []);
    assert [] + held == held;
    if |held| <= MAX_URL {
      ReadsOptions(t, |p|, target, held);
    }
  }

  lemma HeldStep(p: Bytes, o: nat, e: nat, value: Bytes)
    requires o + 1 < |p| && p[o] != NOP_OPTION && p[o] != END_OPTION && e == o + 2 + p[o + 1] && Open(p, e)
    requires value == if p[o] == URL_OPTION then p[o + 2..e] else []
    ensures Open(p, o) && Held(p, o) == value + Held(p, e)
  {
  }

  lemma AppendedStep(p: Bytes, t: Bytes, o: nat, e: nat, target: Bytes)
    requires o + 1 < |p| && p[o] != NOP_OPTION && p[o] != END_OPTION && e == o + 2 + p[o + 1] && p <= t
    requires Open(p, e) && Open(t, e) && Held(t, e) == Held(p, e) + target
    ensures Open(t, o) && Held(t, o) == Held(p, o) + target
  {
    var value: Bytes := if p[o] == URL_OPTION then p[o + 2..e] else [];
    assert t[o + 2..e] == p[o + 2..e];
    HeldStep(p, o, e, value);
    HeldStep(t, o, e, value);
    Regroup(value, Held(p, e), target);
  }

  lemma Regroup(a: Bytes, b: Bytes, c: Bytes)
    ensures a + (b + c) == a + b + c
  {
  }

  /** What is appended is itself whole and open, so targets can be appended one after another. */
  lemma {:induction false} AppendedIsOpen(p: Bytes, t: Bytes, o: nat, target: Bytes)
    requires Open(p, o) && p <= t && t[|p|..] == Options(target)
    ensures Open(t, o) && Held(t, o) == Held(p, o) + target
    decreases |p| - o
  {
    if o == |p| {
      OptionsAreOpen(t, o, target);
    } else if p[o] == NOP_OPTION {
      AppendedIsOpen(p, t, o + 1, target);
    } else {
      var e := o + 2 + p[o + 1];
      AppendedIsOpen(p, t, e, target);
      AppendedStep(p, t, o, e, target);
    }
  }

  lemma {:induction false} OptionsAreOpen(t: Bytes, o: nat, target: Bytes)
    requires o <= |t| && t[o..] == Options(target)
    ensures Open(t, o) && Held(t, o) == target
    decreases |target|
  {
    if target != [] {
      var n := if |target| < CHUNK then |target| else CHUNK;
      var e := o + 2 + n;
      FirstOption(t, o, e, target, n);
      OptionsAreOpen(t, e, target[n..]);
      assert target == target[..n] + target[n..];
    }
  }

  /** A short target is one option of kind 2 with its length. */
  lemma ShortTarget(target: Bytes)
    requires 0 < |target| <= 255
    ensures Options(target) == [2, |target|] + target
  {
    assert target[..|target|] == target && target[|target|..] == [];
  }

  /** An end marker hides whatever follows it. */
  lemma EndMarkerStops(utf8: Bytes -> bool, p: Bytes, rest: Bytes)
    requires |p| >= 98 && Open(p, 98)
    ensures var url := Held(p, 98);
      Url(utf8, p + [0] + rest) == if |url| <= 1024 && utf8(url) then Some(url) else None
  {
    var t := p + [0] + rest;
    assert p <= t && t[|p|] == 0;
    ReadsOpen(p, t, 98, []);
    assert [] + Held(p, 98) == Held(p, 98);
  }

  /** An option that is cut off is an error: a lone kind byte, or fewer bytes than its length. */
  lemma CutOptionIsAnError(utf8: Bytes -> bool, p: Bytes, cut: Bytes)
    requires |p| >= 98 && Open(p, 98)
    requires cut != [] && cut[0] != 0 && cut[0] != 1 && (|cut| == 1 || |cut| - 2 < cut[1])
    ensures Url(utf8, p + cut).None?
  {
    var t := p + cut;
    assert p <= t && t[|p|..] == cut && t[|p|] == cut[0];
    assert |cut| > 1 ==> t[|p| + 1] == cut[1];
    ReadsOpen(p, t, 98, []);
  }
}
