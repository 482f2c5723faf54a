/** IP and socket addresses as octet strings, and the order in which addresses are sorted. */
module Net {
  import opened Prelude

  datatype RawIp = V4(octets: seq<byte>) | V6(octets: seq<byte>)

  type IpAddr = a: RawIp | |a.octets| == (if a.V4? then 4 else 16) witness V4([0, 0, 0, 0])

  datatype SocketAddr = SocketAddr(ip: IpAddr, port: u16)

  type Bytes = seq<byte>

  /** The big-endian value of an octet string. */
  function BigEndian(octets: Bytes): nat {
    if octets == [] then 0 else BigEndian(octets[..|octets| - 1]) * 256 + octets[|octets| - 1]
  }

  function Pow2(n: nat): (r: nat)
    ensures r > 0
  {
    if n == 0 then 1 else 2 * Pow2(n - 1)
  }

  function PortBytes(port: u16): Bytes {
    [port / 256, port % 256]
  }

  function PortOf(hi: byte, lo: byte): u16 {
    hi * 256 + lo
  }

  // ----- Order -----

  predicate LexLess(x: seq<int>, y: seq<int>) {
    if x == [] || y == [] then x == [] && y != []
    else x[0] < y[0] || (x[0] == y[0] && LexLess(x[1..], y[1..]))
  }

  /** Family first, then the octets, then the port. */
  function SortKey(a: SocketAddr): seq<int> {
    [if a.ip.V4? then 4 else 6] + a.ip.octets + [a.port]
  }

  predicate Less(a: SocketAddr, b: SocketAddr) {
    LexLess(SortKey(a), SortKey(b))
  }

  /** Strings of one length compare by the first place where they differ. */
  lemma {:induction false} LexByFirstDifference(x: seq<int>, y: seq<int>)
    requires |x| == |y|
    ensures LexLess(x, y) <==> exists i | 0 <= i < |x| :: x[..i] == y[..i] && x[i] < y[i]
  {
    if x != [] {
      LexByFirstDifference(x[1..], y[1..]);
      if i :| 0 <= i < |x| && x[..i] == y[..i] && x[i] < y[i] {
        if i > 0 {
          assert x[..i][0] == y[..i][0];
          assert x[1..][..i - 1] == x[..i][1..] == y[..i][1..] == y[1..][..i - 1] && x[1..][i - 1] < y[1..][i - 1];
        }
      }
      if x[0] == y[0] && LexLess(x[1..], y[1..]) {
        var i :| 0 <= i < |x[1..]| && x[1..][..i] == y[1..][..i] && x[1..][i] < y[1..][i];
        assert x[..i + 1] == [x[0]] + x[1..][..i] == y[..i + 1] && x[i + 1] < y[i + 1];
      }
      if x[0] < y[0] {
        assert x[..0] == y[..0];
      }
    }
  }

  /** The first octet in which two strings of one length differ is smaller in the first. */
  predicate OctetsLess(x: Bytes, y: Bytes)
    requires |x| == |y|
  {
    exists i | 0 <= i < |x| :: x[..i] == y[..i] && x[i] < y[i]
  }

  lemma {:induction false} LexOfSnoc(x: seq<int>, y: seq<int>, p: int, q: int)
    requires |x| == |y|
    ensures LexLess(x + [p], y + [q]) <==> LexLess(x, y) || (x == y && p < q)
  {
    if x != [] {
      LexOfSnoc(x[1..], y[1..], p, q);
      assert (x + [p])[1..] == x[1..] + [p] && (y + [q])[1..] == y[1..] + [q];
      assert x == [x[0]] + x[1..] && y == [y[0]] + y[1..];
    }
  }

  lemma LexOfCons(f: int, x: seq<int>, g: int, y: seq<int>)
    ensures LexLess([f] + x, [g] + y) <==> f < g || (f == g && LexLess(x, y))
  {
    assert ([f] + x)[1..] == x && ([g] + y)[1..] == y;
  }

  /** IPv4 comes before IPv6; within a family the first different octet decides, and then the port. */
  lemma LessMeans(a: SocketAddr, b: SocketAddr)
    ensures Less(a, b) <==>
            || (a.ip.V4? && b.ip.V6?)
            || (a.ip.V4? == b.ip.V4? && OctetsLess(a.ip.octets, b.ip.octets))
            || (a.ip == b.ip && a.port < b.port)
  {
    var f, g := if a.ip.V4? then 4 else 6, if b.ip.V4? then 4 else 6;
    var x, y := a.ip.octets, b.ip.octets;
    assert SortKey(a) == [f] + (x + [a.port]) && SortKey(b) == [g] + (y + [b.port]);
    LexOfCons(f, x + [a.port], g, y + [b.port]);
    if f == g {
      LexOfSnoc(x, y, a.port, b.port);
      LexByFirstDifference(x, y);
    }
  }

  lemma {:induction false} LexIsTotal(x: seq<int>, y: seq<int>)
    ensures LexLess(x, y) || LexLess(y, x) || x == y
    ensures !(LexLess(x, y) && LexLess(y, x))
    ensures LexLess(x, y) ==> x != y
  {
    if x != [] && y != [] {
      LexIsTotal(x[1..], y[1..]);
      assert x == [x[0]] + x[1..] && y == [y[0]] + y[1..];
    }
  }

  lemma {:induction false} LexIsTransitive(x: seq<int>, y: seq<int>, z: seq<int>)
    requires LexLess(x, y) && LexLess(y, z)
    ensures LexLess(x, z)
  {
    if x != [] && x[0] == y[0] && y[0] == z[0] {
      LexIsTransitive(x[1..], y[1..], z[1..]);
    }
  }

  lemma SortKeyIsInjective(a: SocketAddr, b: SocketAddr)
    requires SortKey(a) == SortKey(b)
    ensures a == b
  {
    var n := |a.ip.octets|;
    assert SortKey(a)[0] == SortKey(b)[0];
    assert SortKey(a)[1..n + 1] == a.ip.octets && SortKey(b)[1..n + 1] == b.ip.octets;
    assert SortKey(a)[n + 1] == a.port && SortKey(b)[n + 1] == b.port;
  }

  /** Exactly one of before, equal and after holds of any two addresses. */
  lemma LessIsTotal(a: SocketAddr, b: SocketAddr)
    ensures Less(a, b) || Less(b, a) || a == b
    ensures !(Less(a, b) && Less(b, a))
    ensures !Less(a, a)
  {
    LexIsTotal(SortKey(a), SortKey(b));
    LexIsTotal(SortKey(a), SortKey(a));
    if SortKey(a) == SortKey(b) {
      SortKeyIsInjective(a, b);
    }
  }

  lemma LessIsTransitive(a: SocketAddr, b: SocketAddr, c: SocketAddr)
    requires Less(a, b) && Less(b, c)
    ensures Less(a, c)
  {
    LexIsTransitive(SortKey(a), SortKey(b), SortKey(c));
  }

  // ----- Sorting -----

  ghost predicate Sorted(s: seq<SocketAddr>) {
    forall i, j :: 0 <= i < j < |s| ==> !Less(s[j], s[i])
  }

  ghost predicate StrictlySorted(s: seq<SocketAddr>) {
    forall i, j :: 0 <= i < j < |s| ==> Less(s[i], s[j])
  }

  function InsertSorted(a: SocketAddr, s: seq<SocketAddr>): seq<SocketAddr> {
    if s == [] || !Less(s[0], a) then [a] + s else [s[0]] + InsertSorted(a, s[1..])
  }

  function Sort(s: seq<SocketAddr>): seq<SocketAddr> {
    if s == [] then [] else InsertSorted(s[0], Sort(s[1..]))
  }

  lemma {:induction false} InsertSortedOk(a: SocketAddr, s: seq<SocketAddr>)
    requires Sorted(s)
    ensures Sorted(InsertSorted(a, s)) && multiset(InsertSorted(a, s)) == multiset([a]) + multiset(s)
  {
    if s == [] {
    } else if !Less(s[0], a) {
      var r := [a] + s;
      forall i, j | 0 <= i < j < |r|
        ensures !Less(r[j], r[i])
      {
        if i == 0 && j > 1 {
          LessIsTotal(s[j - 1], a);
          LessIsTotal(s[0], a);
          LessIsTotal(s[j - 1], s[0]);
          if Less(s[j - 1], a) && Less(a, s[0]) {
            LessIsTransitive(s[j - 1], a, s[0]);
          }
        }
      }
    } else {
      var tail := InsertSorted(a, s[1..]);
      InsertSortedOk(a, s[1..]);
      assert s == [s[0]] + s[1..];
      LessIsTotal(s[0], a);
      forall j | 0 <= j < |tail|
        ensures !Less(tail[j], s[0])
      {
        assert tail[j] in multiset(tail);
        assert tail[j] == a || tail[j] in s[1..];
      }
    }
  }

  /** Sorting yields an ordered permutation. */
  lemma {:induction false} SortOk(s: seq<SocketAddr>)
    ensures Sorted(Sort(s)) && multiset(Sort(s)) == multiset(s)
  {
    if s != [] {
      SortOk(s[1..]);
      InsertSortedOk(s[0], Sort(s[1..]));
      assert s == [s[0]] + s[1..];
    }
  }

  lemma FirstIsLeast(s: seq<SocketAddr>, a: SocketAddr)
    requires Sorted(s) && a in s
    ensures !Less(a, s[0])
  {
    var i :| 0 <= i < |s| && s[i] == a;
    LessIsTotal(a, a);
  }

  lemma TailElements(s: seq<SocketAddr>)
    requires s != []
    ensures multiset(s[1..]) == multiset(s) - multiset{s[0]}
  {
    assert s == [s[0]] + s[1..];
  }

  lemma FirstsAgree(s: seq<SocketAddr>, t: seq<SocketAddr>)
    requires Sorted(s) && Sorted(t) && multiset(s) == multiset(t) && s != []
    ensures t != [] && s[0] == t[0]
  {
    assert s[0] in multiset(t);
    assert t[0] in multiset(s);
    FirstIsLeast(s, t[0]);
    FirstIsLeast(t, s[0]);
    LessIsTotal(s[0], t[0]);
  }

  /** A sorted list is determined by the multiset of its elements. */
  lemma {:induction false} SortedIsUnique(s: seq<SocketAddr>, t: seq<SocketAddr>)
    requires Sorted(s) && Sorted(t) && multiset(s) == multiset(t)
    ensures s == t
  {
    if s == [] {
      assert |multiset(s)| == |multiset(t)|;
    } else {
      FirstsAgree(s, t);
      TailElements(s);
      TailElements(t);
      SortedIsUnique(s[1..], t[1..]);
      assert s == [s[0]] + s[1..] && t == [t[0]] + t[1..];
    }
  }

  /** Drops every element that equals its successor. */
  function Dedup(s: seq<SocketAddr>): seq<SocketAddr> {
    if |s| < 2 then s
    else if s[0] == s[1] then Dedup(s[1..])
    else [s[0]] + Dedup(s[1..])
  }

  /** On a sorted list, removing equal neighbours removes every duplicate and nothing else. */
  lemma {:induction false} DedupOk(s: seq<SocketAddr>)
    requires Sorted(s)
    ensures StrictlySorted(Dedup(s)) && (forall a :: a in Dedup(s) <==> a in s)
  {
    if |s| >= 2 {
      var rest := s[1..];
      assert s == [s[0]] + rest;
      DedupOk(rest);
      if s[0] != s[1] {
        var d := Dedup(rest);
        forall j | 0 <= j < |d|
          ensures Less(s[0], d[j])
        {
          assert d[j] in rest;
          var k :| 0 <= k < |rest| && rest[k] == d[j];
          LessIsTotal(s[0], s[1]);
          LessIsTotal(s[0], d[j]);
          LessIsTotal(s[1], rest[k]);
          if k > 0 && d[j] == s[0] {
            assert !Less(rest[k], s[1]);
          }
        }
      }
    }
  }

  /** A strictly sorted list is determined by its elements. */
  lemma {:induction false} StrictlySortedIsUnique(s: seq<SocketAddr>, t: seq<SocketAddr>)
    requires StrictlySorted(s) && StrictlySorted(t) && forall a :: a in s <==> a in t
    ensures s == t
  {
    if t != [] {
      assert t[0] in t;
      assert t[0] in s;
    }
    if s != [] {
      assert s[0] in t && t != [];
      assert t[0] in s;
      var i :| 0 <= i < |s| && s[i] == t[0];
      var j :| 0 <= j < |t| && t[j] == s[0];
      LessIsTotal(s[0], t[0]);
      assert s[0] == t[0];
      forall a
        ensures a in s[1..] <==> a in t[1..]
      {
        LessIsTotal(s[0], s[0]);
        assert a in s[1..] ==> a in s && a != s[0];
        assert a in t[1..] ==> a in t && a != t[0];
        assert a in s && a != s[0] ==> a in s[1..];
        assert a in t && a != t[0] ==> a in t[1..];
      }
      StrictlySortedIsUnique(s[1..], t[1..]);
    }
  }
}
