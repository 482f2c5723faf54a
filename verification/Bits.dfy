/** Networks by their leading bits. */
module Bits {
  import opened Prelude
  import opened Net

  /** The eight bits of an octet, the most significant first. */
  function OctetBits(o: byte): (b: seq<nat>)
    ensures |b| == 8
  {
    [o / 128 % 2, o / 64 % 2, o / 32 % 2, o / 16 % 2, o / 8 % 2, o / 4 % 2, o / 2 % 2, o % 2]
  }

  /** All bits of an octet string, in order. */
  function BitsOf(octets: Bytes): (b: seq<nat>)
    ensures |b| == 8 * |octets| && Binary(b)
  {
    if octets == [] then [] else BitsOf(octets[..|octets| - 1]) + OctetBits(octets[|octets| - 1])
  }

  predicate Binary(b: seq<nat>) {
    forall i :: 0 <= i < |b| ==> b[i] < 2
  }

  function BinaryValue(b: seq<nat>): nat {
    if b == [] then 0 else 2 * BinaryValue(b[..|b| - 1]) + b[|b| - 1]
  }

  lemma ValueOfSnoc(b: seq<nat>, x: nat)
    ensures BinaryValue(b + [x]) == 2 * BinaryValue(b) + x
  {
    assert (b + [x])[..|b|] == b;
  }

  lemma Halves(o: byte, d: nat, e: nat)
    requires d in {1, 2, 4, 8, 16, 32, 64} && e == 2 * d
    ensures o / d == 2 * (o / e) + o / d % 2
  {
    DivideAgain(o, d);
  }

  lemma OctetIsItsBits(o: byte)
    ensures var b := OctetBits(o);
      o == 2 * (2 * (2 * (2 * (2 * (2 * (2 * b[0] + b[1]) + b[2]) + b[3]) + b[4]) + b[5]) + b[6]) + b[7]
  {
    Halves(o, 64, 128);
    Halves(o, 32, 64);
    Halves(o, 16, 32);
    Halves(o, 8, 16);
    Halves(o, 4, 8);
    Halves(o, 2, 4);
    Halves(o, 1, 2);
    assert o / 128 % 2 == o / 128;
  }

  lemma ValueOfOctet(b: seq<nat>, o: byte)
    ensures BinaryValue(b + OctetBits(o)) == 256 * BinaryValue(b) + o
  {
    var c := OctetBits(o);
    var b1 := b + [c[0]];
    var b2 := b1 + [c[1]];
    var b3 := b2 + [c[2]];
    var b4 := b3 + [c[3]];
    var b5 := b4 + [c[4]];
    var b6 := b5 + [c[5]];
    var b7 := b6 + [c[6]];
    assert b + c == b7 + [c[7]];
    ValueOfSnoc(b, c[0]);
    ValueOfSnoc(b1, c[1]);
    ValueOfSnoc(b2, c[2]);
    ValueOfSnoc(b3, c[3]);
    ValueOfSnoc(b4, c[4]);
    ValueOfSnoc(b5, c[5]);
    ValueOfSnoc(b6, c[6]);
    ValueOfSnoc(b7, c[7]);
    OctetIsItsBits(o);
  }

  lemma {:induction false} ValueOfBits(octets: Bytes)
    ensures BinaryValue(BitsOf(octets)) == BigEndian(octets)
  {
    if octets != [] {
      ValueOfBits(octets[..|octets| - 1]);
      ValueOfOctet(BitsOf(octets[..|octets| - 1]), octets[|octets| - 1]);
    }
  }

  lemma DivideTwice(n: nat, m: nat)
    requires m > 0
    ensures n / (2 * m) == n / 2 / m
  {
    var q, r := n / 2 / m, n / 2 % m;
    assert n / 2 == m * q + r;
    assert n == (2 * m) * q + (2 * r + n % 2);
    QuotientIs(n, 2 * m, q, 2 * r + n % 2);
  }

  lemma DivideAgain(n: nat, m: nat)
    requires m > 0
    ensures n / (2 * m) == n / m / 2
  {
    var q, r := n / m / 2, n / m % 2;
    assert n / m == 2 * q + r;
    assert n == m * (2 * q + r) + n % m;
    assert m * (2 * q + r) == (2 * m) * q + m * r;
    QuotientIs(n, 2 * m, q, m * r + n % m);
  }

  lemma QuotientIs(n: nat, d: nat, q: nat, r: nat)
    requires 0 <= r < d && n == d * q + r
    ensures n / d == q
  {
    var k := n / d - q;
    assert d * k == d * (n / d) - d * q == r - n % d;
    assert k > 0 ==> d * k >= d;
    assert k < 0 ==> d * k + d <= 0;
  }

  /** Dividing by a power of two drops that many trailing bits. */
  lemma {:induction false} DivisionDropsBits(b: seq<nat>, k: nat)
    requires Binary(b) && k <= |b|
    ensures BinaryValue(b) / Pow2(k) == BinaryValue(b[..|b| - k])
    decreases k
  {
    if k == 0 {
      assert b[..|b|] == b;
    } else {
      var n, init := BinaryValue(b), b[..|b| - 1];
      DivisionDropsBits(init, k - 1);
      DivideTwice(n, Pow2(k - 1));
      assert n / 2 == BinaryValue(init);
      assert init[..|init| - (k - 1)] == b[..|b| - k];
    }
  }

  lemma {:induction false} ValueIsInjective(a: seq<nat>, b: seq<nat>)
    requires Binary(a) && Binary(b) && |a| == |b|
    ensures BinaryValue(a) == BinaryValue(b) <==> a == b
  {
    if a != [] {
      var n := |a| - 1;
      ValueIsInjective(a[..n], b[..n]);
      assert a == a[..n] + [a[n]] && b == b[..n] + [b[n]];
      if BinaryValue(a) == BinaryValue(b) {
        assert BinaryValue(a) % 2 == a[n] && BinaryValue(b) % 2 == b[n];
      }
    }
  }

  lemma LeadingValue(x: Bytes, host: nat, length: nat)
    requires host + length == 8 * |x|
    ensures BigEndian(x) / Pow2(host) == BinaryValue(BitsOf(x)[..length])
  {
    ValueOfBits(x);
    DivisionDropsBits(BitsOf(x), host);
  }

  /** Two octet strings agree after division exactly if their leading bits agree. */
  lemma LeadingBits(x: Bytes, y: Bytes, host: nat, length: nat)
    requires |x| == |y| && host + length == 8 * |x|
    ensures BigEndian(x) / Pow2(host) == BigEndian(y) / Pow2(host) <==> BitsOf(x)[..length] == BitsOf(y)[..length]
  {
    LeadingValue(x, host, length);
    LeadingValue(y, host, length);
    ValueIsInjective(BitsOf(x)[..length], BitsOf(y)[..length]);
  }
}
