/** The bounded, rotating page of a sorted list, and its fairness. */
module Rotation {

  /** The list rotated left by the time, cut to the limit. */
  function Page<T>(list: seq<T>, limit: nat, time: nat): seq<T> {
    if list == [] || limit == 0 then []
    else
      var offset := time % |list|;
      var rotated := list[offset..] + list[..offset];
      if |rotated| <= limit then rotated else rotated[..limit]
  }

  function Min(a: nat, b: nat): nat {
    if a < b then a else b
  }

  lemma Residue(time: nat, i: nat, n: nat)
    requires i < n
    ensures (time + i) % n == if time % n + i < n then time % n + i else time % n + i - n
  {
    var q, r := time / n, time % n;
    assert time == n * q + r;
    if r + i < n {
      Remainder(time + i, n, q, r + i);
    } else {
      assert n * (q + 1) == n * q + n;
      Remainder(time + i, n, q + 1, r + i - n);
    }
  }

  lemma Remainder(x: int, n: nat, q: int, r: nat)
    requires r < n && x == n * q + r
    ensures x % n == r
  {
    var k := x / n - q;
    assert n * k == n * (x / n) - n * q == r - x % n;
    MultipleIsFar(n, k);
  }

  lemma MultipleIsFar(n: nat, k: int)
    requires n > 0
    ensures k == 0 || n * k >= n || n * k <= 0 - n
  {
    if k > 0 {
      assert n * k >= n * 1;
    } else if k < 0 {
      assert n * k <= n * -1;
    }
  }

  /** The `i`-th element of a page is the list element `i` places after the time, counted cyclically. */
  lemma PageAt<T>(list: seq<T>, limit: nat, time: nat)
    requires list != []
    ensures |Page(list, limit, time)| == Min(limit, |list|)
    ensures forall i :: 0 <= i < Min(limit, |list|) ==> Page(list, limit, time)[i] == list[(time + i) % |list|]
  {
    forall i | 0 <= i < Min(limit, |list|)
      ensures Page(list, limit, time)[i] == list[(time + i) % |list|]
    {
      Residue(time, i, |list|);
    }
  }

  /** Position `j` of a list of `n` is among the first `m` from the time on. */
  predicate Shows(j: nat, n: nat, m: nat, time: nat)
    requires n > 0
  {
    exists i :: 0 <= i < m && Position(time, i, n) == j
  }

  function Position(time: nat, i: nat, n: nat): nat
    requires n > 0
  {
    (time + i) % n
  }

  /** In how many of the `k` seconds from `time` on position `j` is shown. */
  function Showings(j: nat, n: nat, m: nat, time: nat, k: nat): nat
    requires n > 0
  {
    if k == 0 then 0 else Showings(j, n, m, time, k - 1) + if Shows(j, n, m, time + (k - 1)) then 1 else 0
  }

  /** In how many of the `k` seconds from `time` on position `j` is exactly the `i`-th shown. */
  function Turns(j: nat, n: nat, i: nat, time: nat, k: nat): nat
    requires n > 0
  {
    if k == 0 then 0 else Turns(j, n, i, time, k - 1) + if Position(time + (k - 1), i, n) == j then 1 else 0
  }

  lemma PositionsDiffer(time: nat, i: nat, i': nat, n: nat)
    requires i < i' < n
    ensures Position(time, i, n) != Position(time, i', n)
  {
    Residue(time, i, n);
    Residue(time, i', n);
  }

  lemma OneMore(j: nat, n: nat, m: nat, time: nat)
    requires 0 < m <= n
    ensures Shows(j, n, m, time) <==> Shows(j, n, m - 1, time) || Position(time, m - 1, n) == j
    ensures !(Shows(j, n, m - 1, time) && Position(time, m - 1, n) == j)
  {
    if Shows(j, n, m - 1, time) {
      var i :| 0 <= i < m - 1 && Position(time, i, n) == j;
      PositionsDiffer(time, i, m - 1, n);
      assert 0 <= i < m;
    }
    if Shows(j, n, m, time) {
      var i :| 0 <= i < m && Position(time, i, n) == j;
      assert i < m - 1 || i == m - 1;
    }
  }

  lemma {:induction false} ShowingsSplit(j: nat, n: nat, m: nat, time: nat, k: nat)
    requires 0 < m <= n
    ensures Showings(j, n, m, time, k) == Showings(j, n, m - 1, time, k) + Turns(j, n, m - 1, time, k)
  {
    if k > 0 {
      OneMore(j, n, m, time + (k - 1));
      ShowingsSplit(j, n, m, time, k - 1);
    }
  }

  /** Position `j` comes up as the `i`-th exactly at the times congruent to one residue. */
  function Due(j: nat, n: nat, i: nat): nat
    requires j < n && i < n
  {
    if i <= j then j - i else j - i + n
  }

  lemma DueIsExact(j: nat, n: nat, i: nat, time: nat)
    requires j < n && i < n
    ensures Position(time, i, n) == j <==> time % n == Due(j, n, i)
  {
    Residue(time, i, n);
  }

  /** Within less than one round from residue `r`, the due time has come up once or not yet. */
  lemma {:induction false} TurnsSoFar(j: nat, n: nat, i: nat, time: nat, k: nat)
    requires j < n && i < n && k <= n
    ensures var r, d := time % n, Due(j, n, i);
      Turns(j, n, i, time, k) == if r <= d then (if d < r + k then 1 else 0) else (if d + n < r + k then 1 else 0)
  {
    if k > 0 {
      TurnsSoFar(j, n, i, time, k - 1);
      DueIsExact(j, n, i, time + (k - 1));
      Residue(time, k - 1, n);
    }
  }

  lemma {:induction false} ShowingsOverARound(j: nat, n: nat, m: nat, time: nat)
    requires j < n && m <= n
    ensures Showings(j, n, m, time, n) == m
  {
    if m == 0 {
      NothingShows(j, n, time, n);
    } else {
      ShowingsSplit(j, n, m, time, n);
      ShowingsOverARound(j, n, m - 1, time);
      TurnsSoFar(j, n, m - 1, time, n);
    }
  }

  lemma {:induction false} NothingShows(j: nat, n: nat, time: nat, k: nat)
    requires n > 0
    ensures Showings(j, n, 0, time, k) == 0
  {
    if k > 0 {
      NothingShows(j, n, time, k - 1);
    }
  }

  // ----- Fairness of replies -----

  /** The positions of a list of `n`. */
  function Positions(n: nat): (p: seq<nat>)
    ensures |p| == n && forall i :: 0 <= i < n ==> p[i] == i
  {
    seq(n, i => i)
  }

  /** A page of a list holds the elements at the positions that the same page of the positions holds. */
  lemma PageHoldsPositions<T>(list: seq<T>, limit: nat, time: nat)
    ensures var positions := Page(Positions(|list|), limit, time);
      && |Page(list, limit, time)| == |positions|
      && forall i :: 0 <= i < |positions| ==> positions[i] < |list| && Page(list, limit, time)[i] == list[positions[i]]
  {
    if list != [] {
      PageAt(list, limit, time);
      PageAt(Positions(|list|), limit, time);
      assert forall i :: 0 <= i < Min(limit, |list|) ==> Position(time, i, |list|) < |list|;
    }
  }

  /** The pages of `k` consecutive seconds that hold a value. */
  function Replies<T(==)>(list: seq<T>, limit: nat, value: T, time: nat, k: nat): nat {
    if k == 0 then 0
    else
      Replies(list, limit, value, time, k - 1) + if value in Page(list, limit, time + (k - 1)) then 1 else 0
  }

  lemma PageShows(n: nat, limit: nat, j: nat, time: nat)
    requires j < n
    ensures j in Page(Positions(n), limit, time) <==> Shows(j, n, Min(limit, n), time)
  {
    var page := Page(Positions(n), limit, time);
    PageAt(Positions(n), limit, time);
    forall i | 0 <= i < |page|
      ensures page[i] == Position(time, i, n)
    {
      assert page[i] == Positions(n)[(time + i) % n];
    }
    if Shows(j, n, Min(limit, n), time) {
      var i :| 0 <= i < Min(limit, n) && Position(time, i, n) == j;
      assert page[i] == j;
    }
  }

  lemma {:induction false} RepliesAreShowings(n: nat, limit: nat, j: nat, time: nat, k: nat)
    requires j < n
    ensures Replies(Positions(n), limit, j, time, k) == Showings(j, n, Min(limit, n), time, k)
  {
    if k > 0 {
      RepliesAreShowings(n, limit, j, time, k - 1);
      PageShows(n, limit, j, time + (k - 1));
    }
  }

  /**
   Fairness: over any `n` consecutive seconds each position of an unchanged list of `n` addresses is held by
   exactly as many replies as a reply has places.
   */
  lemma RotationIsFair(n: nat, limit: nat, j: nat, time: nat)
    requires j < n
    ensures Replies(Positions(n), limit, j, time, n) == Min(limit, n)
  {
    RepliesAreShowings(n, limit, j, time, n);
    ShowingsOverARound(j, n, Min(limit, n), time);
  }

  ghost predicate Distinct<T>(list: seq<T>) {
    forall i, j :: 0 <= i < j < |list| ==> list[i] != list[j]
  }

  lemma DistinctPage<T>(list: seq<T>, limit: nat, j: nat, time: nat)
    requires Distinct(list) && j < |list|
    ensures list[j] in Page(list, limit, time) <==> j in Page(Positions(|list|), limit, time)
  {
    var page, positions := Page(list, limit, time), Page(Positions(|list|), limit, time);
    PageHoldsPositions(list, limit, time);
    if list[j] in page {
      var i :| 0 <= i < |page| && page[i] == list[j];
      assert positions[i] == j;
    }
    if j in positions {
      var i :| 0 <= i < |positions| && positions[i] == j;
      assert page[i] == list[j];
    }
  }

  /** Values that the pages hold at the same times are in equally many replies. */
  lemma {:induction false} SameReplies<T, U>(a: seq<T>, u: T, b: seq<U>, v: U, limit: nat, time: nat, k: nat)
    requires forall t: nat :: u in Page(a, limit, t) <==> v in Page(b, limit, t)
    ensures Replies(a, limit, u, time, k) == Replies(b, limit, v, time, k)
  {
    if k > 0 {
      var last := time + (k - 1);
      assert u in Page(a, limit, last) <==> v in Page(b, limit, last);
      SameReplies(a, u, b, v, limit, time, k - 1);
    }
  }

  /** Of a list without duplicates, each address itself is in exactly that many replies. */
  lemma DistinctRotationIsFair<T>(list: seq<T>, limit: nat, j: nat, time: nat)
    requires Distinct(list) && j < |list|
    ensures Replies(list, limit, list[j], time, |list|) == Min(limit, |list|)
  {
    forall t: nat
      ensures list[j] in Page(list, limit, t) <==> j in Page(Positions(|list|), limit, t)
    {
      DistinctPage(list, limit, j, t);
    }
    SameReplies(list, list[j], Positions(|list|), j, limit, time, |list|);
    RotationIsFair(|list|, limit, j, time);
  }
}
