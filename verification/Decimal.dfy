/** Decimal numerals as the Rust standard library prints and parses them, over code points. */
module Decimal {
  import opened Prelude

  type Text = seq<nat>

  const PLUS: nat := 43
  const MINUS: nat := 45
  const ZERO: nat := 48

  predicate IsDigit(c: nat) {
    ZERO <= c <= ZERO + 9
  }

  predicate AllDigits(s: Text) {
    forall i :: 0 <= i < |s| ==> IsDigit(s[i])
  }

  function Value(s: Text): nat
    requires AllDigits(s)
  {
    if s == [] then 0 else Value(s[..|s| - 1]) * 10 + (s[|s| - 1] - ZERO)
  }

  /** A nonempty run of digits below `bound`. */
  function ParseDigits(s: Text, bound: nat): Option<nat> {
    if s != [] && AllDigits(s) && Value(s) < bound then Some(Value(s)) else None
  }

  /** Unsigned parsing accepts a leading plus sign and leading zeros. */
  function ParseUnsigned(s: Text, bound: nat): Option<nat> {
    if s != [] && s[0] == PLUS then ParseDigits(s[1..], bound) else ParseDigits(s, bound)
  }

  /** Signed parsing of a 64-bit integer. */
  function ParseI64(s: Text): Option<int> {
    if s != [] && s[0] == MINUS then
      var n := ParseDigits(s[1..], 0x8000_0000_0000_0001);
      if n.None? then None else (var v: int := n.value; Some(0 - v))
    else
      var n := ParseUnsigned(s, 0x8000_0000_0000_0000);
      if n.None? then None else (var v: int := n.value; Some(v))
  }

  function Print(n: nat): (s: Text)
    ensures |s| > 0 && AllDigits(s)
  {
    if n < 10 then [ZERO + n] else Print(n / 10) + [ZERO + n % 10]
  }

  function PrintInt(n: int): Text {
    if n < 0 then [MINUS] + Print(-n) else Print(n)
  }

  lemma {:induction false} ValueOfPrint(n: nat)
    ensures Value(Print(n)) == n
  {
    if n < 10 {
      assert Print(n)[..0] == [];
    } else {
      ValueOfPrint(n / 10);
      assert Print(n)[..|Print(n)| - 1] == Print(n / 10);
    }
  }

  /** Parsing undoes printing for every number in range, and rejects every number out of range. */
  lemma ParseOfPrint(n: nat, bound: nat)
    ensures ParseUnsigned(Print(n), bound) == if n < bound then Some(n) else None
    ensures ParseDigits(Print(n), bound) == if n < bound then Some(n) else None
  {
    ValueOfPrint(n);
    assert IsDigit(Print(n)[0]);
  }

  lemma ParseI64OfPrint(n: int)
    ensures ParseI64(PrintInt(n)) == if -0x8000_0000_0000_0000 <= n < 0x8000_0000_0000_0000 then Some(n) else None
  {
    if n < 0 {
      ParseOfPrint(-n, 0x8000_0000_0000_0001);
      assert PrintInt(n)[1..] == Print(-n);
    } else {
      ParseOfPrint(n, 0x8000_0000_0000_0000);
      assert IsDigit(Print(n)[0]);
    }
  }
}
