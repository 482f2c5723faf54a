/**
 Gauss-Jordan elimination with partial pivoting over the reals. A pivot is rejected when it is zero or
 smaller than `epsilon`; `epsilon` 1e-30 gives the test of the program and `epsilon` 0 an exact one.
 */
module LinearSolve {

  type Vec = seq<real>
  type Matrix = seq<seq<real>>

  function Abs(x: real): real {
    if x < 0.0 then -x else x
  }

  /** The first `k` terms of the inner product. */
  function DotTo(a: Vec, b: Vec, k: nat): real
    requires k <= |a| && k <= |b|
  {
    if k == 0 then 0.0 else DotTo(a, b, k - 1) + a[k - 1] * b[k - 1]
  }

  function Dot(a: Vec, b: Vec): real
    requires |a| == |b|
  {
    DotTo(a, b, |a|)
  }

  predicate Square(m: Matrix, n: nat) {
    |m| == n && forall i :: 0 <= i < n ==> |m[i]| == n
  }

  /** `m` times `x` is `b`. */
  ghost predicate Solves(m: Matrix, x: Vec, b: Vec) {
    && |m| == |b| && (forall i :: 0 <= i < |m| ==> |m[i]| == |x|)
    && forall i :: 0 <= i < |m| ==> Dot(m[i], x) == b[i]
  }

  ghost predicate IsNull(m: Matrix, v: Vec) {
    && (forall i :: 0 <= i < |m| ==> |m[i]| == |v|)
    && (exists j :: 0 <= j < |v| && v[j] != 0.0)
    && forall i :: 0 <= i < |m| ==> Dot(m[i], v) == 0.0
  }

  ghost predicate HasNull(m: Matrix) {
    exists v :: IsNull(m, v)
  }

  // ----- Augmented systems -----

  /** `n` rows over `n` unknowns and a right-hand side. */
  predicate Augmented(a: Matrix, n: nat) {
    |a| == n && forall i :: 0 <= i < n ==> |a[i]| == n + 1
  }

  /** The vectors that every row sends to zero: solutions end in -1, null vectors in 0. */
  ghost predicate Kernel(a: Matrix, z: Vec) {
    forall i :: 0 <= i < |a| ==> |a[i]| == |z| && Dot(a[i], z) == 0.0
  }

  ghost predicate SameKernel(a: Matrix, b: Matrix, n: nat) {
    forall z :: |z| == n + 1 ==> (Kernel(a, z) <==> Kernel(b, z))
  }

  /** The first `k` columns are those of the identity. */
  predicate UnitColumns(a: Matrix, n: nat, k: nat)
    requires Augmented(a, n) && k <= n
  {
    forall r, c :: 0 <= r < n && 0 <= c < k ==> a[r][c] == if r == c then 1.0 else 0.0
  }

  // ----- Row operations -----

  function Scaled(row: Vec, scale: real): (r: Vec)
    requires scale != 0.0
    ensures |r| == |row| && forall i :: 0 <= i < |r| ==> r[i] == row[i] / scale
  {
    seq(|row|, i requires 0 <= i < |row| => row[i] / scale)
  }

  function Reduced(row: Vec, factor: real, pivot: Vec): (r: Vec)
    requires |row| == |pivot|
    ensures |r| == |row| && forall i :: 0 <= i < |r| ==> r[i] == row[i] - factor * pivot[i]
  {
    seq(|row|, i requires 0 <= i < |row| => row[i] - factor * pivot[i])
  }

  lemma ScaledTerm(d: real, x: real, z: real, scale: real)
    requires scale != 0.0
    ensures d / scale + x / scale * z == (d + x * z) / scale
  {
    var q, p := x / scale, d / scale;
    assert q * scale == x && p * scale == d;
    assert (p + q * z) * scale == p * scale + q * scale * z;
  }

  lemma {:induction false} DotScaled(row: Vec, scale: real, z: Vec, k: nat)
    requires |row| == |z| && scale != 0.0 && k <= |row|
    ensures DotTo(Scaled(row, scale), z, k) == DotTo(row, z, k) / scale
  {
    if k > 0 {
      DotScaled(row, scale, z, k - 1);
      ScaledTerm(DotTo(row, z, k - 1), row[k - 1], z[k - 1], scale);
    }
  }

  lemma ReducedTerm(d: real, e: real, f: real, r: real, p: real, z: real)
    ensures (d - f * e) + (r - f * p) * z == (d + r * z) - f * (e + p * z)
  {
    assert (r - f * p) * z == r * z - f * p * z;
    assert f * (e + p * z) == f * e + f * (p * z);
    assert f * (p * z) == f * p * z;
  }

  lemma {:induction false} DotReduced(row: Vec, factor: real, pivot: Vec, z: Vec, k: nat)
    requires |row| == |pivot| == |z| && k <= |row|
    ensures DotTo(Reduced(row, factor, pivot), z, k) == DotTo(row, z, k) - factor * DotTo(pivot, z, k)
  {
    if k > 0 {
      DotReduced(row, factor, pivot, z, k - 1);
      ReducedTerm(DotTo(row, z, k - 1), DotTo(pivot, z, k - 1), factor, row[k - 1], pivot[k - 1], z[k - 1]);
    }
  }

  function Swapped(a: Matrix, i: nat, j: nat): Matrix
    requires i < |a| && j < |a|
  {
    a[i := a[j]][j := a[i]]
  }

  /** Row `c` reduces every other row; `done` rows have been treated. */
  function Eliminated(a: Matrix, n: nat, c: nat, done: nat): (e: Matrix)
    requires Augmented(a, n) && c < n && done <= n
    ensures Augmented(e, n)
    ensures forall r :: 0 <= r < n ==> e[r] == if r < done && r != c then Reduced(a[r], a[r][c], a[c]) else a[r]
  {
    seq(n, r requires 0 <= r < n => if r < done && r != c then Reduced(a[r], a[r][c], a[c]) else a[r])
  }

  /** One column of the outer loop: swap, scale, eliminate. */
  function Pivoted(a: Matrix, n: nat, c: nat, pivot: nat): (e: Matrix)
    requires Augmented(a, n) && c <= pivot < n && a[pivot][c] != 0.0
    ensures Augmented(e, n)
  {
    var s := Swapped(a, c, pivot);
    var t := s[c := Scaled(s[c], s[c][c])];
    Eliminated(t, n, c, n)
  }

  lemma SwapKeepsKernel(a: Matrix, i: nat, j: nat, z: Vec)
    requires i < |a| && j < |a|
    ensures Kernel(a, z) <==> Kernel(Swapped(a, i, j), z)
  {
    var s := Swapped(a, i, j);
    assert s[i] == a[j] && s[j] == a[i];
    assert forall r :: 0 <= r < |a| && r != i && r != j ==> s[r] == a[r];
  }

  lemma ScaleKeepsKernel(a: Matrix, c: nat, scale: real, z: Vec)
    requires c < |a| && |a[c]| == |z| && scale != 0.0
    ensures Kernel(a, z) <==> Kernel(a[c := Scaled(a[c], scale)], z)
  {
    DotScaled(a[c], scale, z, |z|);
    assert Dot(a[c], z) / scale * scale == Dot(a[c], z);
    var t := a[c := Scaled(a[c], scale)];
    assert t[c] == Scaled(a[c], scale);
    assert forall r :: 0 <= r < |a| && r != c ==> t[r] == a[r];
  }

  lemma EliminationKeepsKernel(a: Matrix, n: nat, c: nat, z: Vec)
    requires Augmented(a, n) && c < n && |z| == n + 1
    ensures Kernel(a, z) <==> Kernel(Eliminated(a, n, c, n), z)
  {
    var e := Eliminated(a, n, c, n);
    assert e[c] == a[c];
    forall r | 0 <= r < n && r != c
      ensures Dot(e[r], z) == Dot(a[r], z) - a[r][c] * Dot(a[c], z)
    {
      DotReduced(a[r], a[r][c], a[c], z, n + 1);
    }
    if Dot(a[c], z) == 0.0 {
      forall r | 0 <= r < n
        ensures Dot(e[r], z) == Dot(a[r], z)
      {
        assert r != c ==> a[r][c] * Dot(a[c], z) == 0.0;
      }
    }
  }

  /** A pivot step changes neither the solutions nor the null vectors. */
  lemma PivotKeepsKernel(a: Matrix, n: nat, c: nat, pivot: nat)
    requires Augmented(a, n) && c <= pivot < n && a[pivot][c] != 0.0
    ensures SameKernel(a, Pivoted(a, n, c, pivot), n)
  {
    forall z | |z| == n + 1
      ensures Kernel(a, z) <==> Kernel(Pivoted(a, n, c, pivot), z)
    {
      var s := Swapped(a, c, pivot);
      SwapKeepsKernel(a, c, pivot, z);
      ScaleKeepsKernel(s, c, s[c][c], z);
      EliminationKeepsKernel(s[c := Scaled(s[c], s[c][c])], n, c, z);
    }
  }

  /** A pivot step finishes its column and leaves finished columns alone. */
  lemma PivotFinishesColumn(a: Matrix, n: nat, c: nat, pivot: nat)
    requires Augmented(a, n) && c <= pivot < n && a[pivot][c] != 0.0 && UnitColumns(a, n, c)
    ensures UnitColumns(Pivoted(a, n, c, pivot), n, c + 1)
  {
    var s := Swapped(a, c, pivot);
    var t := s[c := Scaled(s[c], s[c][c])];
    assert t[c][c] == 1.0;
    forall k | 0 <= k < c
      ensures t[c][k] == 0.0
    {
      assert s[c][k] == 0.0;
    }
    var e := Eliminated(t, n, c, n);
    forall r, k | 0 <= r < n && 0 <= k <= c
      ensures e[r][k] == if r == k then 1.0 else 0.0
    {
      if r != c {
        assert e[r][k] == t[r][k] - t[r][c] * t[c][k];
      }
    }
  }

  // ----- Reading off the answer -----

  lemma {:induction false} DotOfZeros(a: Vec, b: Vec, k: nat)
    requires k <= |a| && k <= |b| && forall j :: 0 <= j < k ==> a[j] == 0.0 || b[j] == 0.0
    ensures DotTo(a, b, k) == 0.0
  {
    if k > 0 {
      DotOfZeros(a, b, k - 1);
    }
  }

  lemma {:induction false} DotOfOne(a: Vec, b: Vec, p: nat, k: nat)
    requires k <= |a| && k <= |b| && p < k
    requires forall j :: 0 <= j < k && j != p ==> a[j] == 0.0 || b[j] == 0.0
    ensures DotTo(a, b, k) == a[p] * b[p]
  {
    assert DotTo(a, b, k) == DotTo(a, b, k - 1) + a[k - 1] * b[k - 1];
    if k - 1 > p {
      DotOfOne(a, b, p, k - 1);
    } else {
      DotOfZeros(a, b, k - 1);
    }
  }

  lemma {:induction false} DotOfTwo(a: Vec, b: Vec, p: nat, q: nat, k: nat)
    requires k <= |a| && k <= |b| && p < q < k
    requires forall j :: 0 <= j < k && j != p && j != q ==> a[j] == 0.0 || b[j] == 0.0
    ensures DotTo(a, b, k) == a[p] * b[p] + a[q] * b[q]
  {
    if k - 1 > q {
      DotOfTwo(a, b, p, q, k - 1);
    } else {
      DotOfOne(a, b, p, k - 1);
    }
  }

  function Augment(m: Matrix, b: Vec): (a: Matrix)
    requires Square(m, |b|)
    ensures Augmented(a, |b|)
    ensures forall i :: 0 <= i < |b| ==> a[i] == m[i] + [b[i]]
  {
    seq(|b|, i requires 0 <= i < |b| => m[i] + [b[i]])
  }

  lemma {:induction false} DotOfPrefix(a: Vec, b: Vec, a': Vec, b': Vec, k: nat)
    requires k <= |a| && k <= |b| && a <= a' && b <= b'
    ensures DotTo(a', b', k) == DotTo(a, b, k)
  {
    if k > 0 {
      DotOfPrefix(a, b, a', b', k - 1);
    }
  }

  lemma DotOfSnoc(row: Vec, value: real, v: Vec, t: real)
    requires |row| == |v|
    ensures Dot(row + [value], v + [t]) == Dot(row, v) + value * t
  {
    DotOfPrefix(row, v, row + [value], v + [t], |row|);
  }

  /** The kernel vectors that end in -1 are the solutions. */
  lemma SolutionKernel(m: Matrix, b: Vec, x: Vec)
    requires Square(m, |b|) && |x| == |b|
    ensures Kernel(Augment(m, b), x + [-1.0]) <==> Solves(m, x, b)
  {
    forall i | 0 <= i < |b|
      ensures Dot(Augment(m, b)[i], x + [-1.0]) == Dot(m[i], x) - b[i]
    {
      DotOfSnoc(m[i], b[i], x, -1.0);
    }
  }

  ghost predicate Annihilates(m: Matrix, v: Vec) {
    forall i :: 0 <= i < |m| ==> |m[i]| == |v| && Dot(m[i], v) == 0.0
  }

  /** The kernel vectors that end in 0 are those the matrix annihilates. */
  lemma NullKernel(m: Matrix, b: Vec, v: Vec)
    requires Square(m, |b|) && |v| == |b|
    ensures Kernel(Augment(m, b), v + [0.0]) <==> Annihilates(m, v)
  {
    forall i | 0 <= i < |b|
      ensures Dot(Augment(m, b)[i], v + [0.0]) == Dot(m[i], v)
    {
      DotOfSnoc(m[i], b[i], v, 0.0);
    }
  }

  lemma UnitRow(a: Matrix, n: nat, z: Vec, r: nat)
    requires Augmented(a, n) && UnitColumns(a, n, n) && |z| == n + 1 && r < n
    ensures Dot(a[r], z) == z[r] + a[r][n] * z[n]
  {
    DotOfTwo(a[r], z, r, n, n + 1);
  }

  function LastColumn(a: Matrix, n: nat): (x: Vec)
    requires Augmented(a, n)
    ensures |x| == n && forall r :: 0 <= r < n ==> x[r] == a[r][n]
  {
    seq(n, r requires 0 <= r < n => a[r][n])
  }

  /** Once every column is a unit vector, the last column is the solution, and there are no null vectors. */
  lemma FinishedSolves(m: Matrix, b: Vec, a: Matrix)
    requires b != [] && Square(m, |b|) && Augmented(a, |b|) && UnitColumns(a, |b|, |b|) && SameKernel(Augment(m, b), a, |b|)
    ensures Solves(m, LastColumn(a, |b|), b) && !HasNull(m)
  {
    var n := |b|;
    var x := LastColumn(a, n);
    forall r | 0 <= r < n
      ensures Dot(a[r], x + [-1.0]) == 0.0
    {
      UnitRow(a, n, x + [-1.0], r);
    }
    assert Kernel(a, x + [-1.0]);
    SolutionKernel(m, b, x);
    if HasNull(m) {
      var v :| IsNull(m, v);
      assert |m[0]| == |v|;
      FinishedHasNoNull(m, b, a, v);
    }
  }

  lemma FinishedHasNoNull(m: Matrix, b: Vec, a: Matrix, v: Vec)
    requires Square(m, |b|) && Augmented(a, |b|) && UnitColumns(a, |b|, |b|) && SameKernel(Augment(m, b), a, |b|)
    requires |v| == |b|
    ensures !IsNull(m, v)
  {
    if IsNull(m, v) {
      var j :| 0 <= j < |v| && v[j] != 0.0;
      assert Annihilates(m, v);
      NullKernel(m, b, v);
      UnitRow(a, |b|, v + [0.0], j);
    }
  }

  /** The null vector that a column without a pivot leaves behind. */
  function NullVector(a: Matrix, n: nat, c: nat): (v: Vec)
    requires Augmented(a, n) && c < n
    ensures |v| == n && forall j :: 0 <= j < n ==> v[j] == if j < c then -a[j][c] else if j == c then 1.0 else 0.0
  {
    seq(n, j requires 0 <= j < n => if j < c then -a[j][c] else if j == c then 1.0 else 0.0)
  }

  lemma NullRow(a: Matrix, n: nat, c: nat, r: nat)
    requires Augmented(a, n) && c < n && r < n && UnitColumns(a, n, c)
    requires forall k :: c <= k < n ==> a[k][c] == 0.0
    ensures Dot(a[r], NullVector(a, n, c) + [0.0]) == 0.0
  {
    var z := NullVector(a, n, c) + [0.0];
    if r < c {
      DotOfTwo(a[r], z, r, c, n + 1);
      assert a[r][r] == 1.0 && z[r] == -a[r][c] && z[c] == 1.0;
    } else {
      DotOfZeros(a[r], z, n + 1);
    }
  }

  lemma MissingPivotIsNull(m: Matrix, b: Vec, a: Matrix, c: nat)
    requires Square(m, |b|) && Augmented(a, |b|) && c < |b| && SameKernel(Augment(m, b), a, |b|)
    requires UnitColumns(a, |b|, c) && forall r :: c <= r < |b| ==> a[r][c] == 0.0
    ensures HasNull(m)
  {
    var n := |b|;
    var v := NullVector(a, n, c);
    var z := v + [0.0];
    forall r | 0 <= r < n
      ensures Dot(a[r], z) == 0.0
    {
      NullRow(a, n, c, r);
    }
    assert Kernel(a, z);
    NullKernel(m, b, v);
    assert Annihilates(m, v);
    assert v[c] != 0.0;
    assert IsNull(m, v);
  }

  // ----- The pivot test -----

  /** The first of the rows from `c` up to `k` with the largest entry in column `c`. */
  function LargestTo(a: Matrix, c: nat, k: nat): (p: nat)
    requires c < k <= |a| && forall r :: 0 <= r < |a| ==> c < |a[r]|
    ensures c <= p < k
    ensures forall r :: c <= r < k ==> Abs(a[r][c]) <= Abs(a[p][c])
    ensures forall r :: c <= r < p ==> Abs(a[r][c]) < Abs(a[p][c])
  {
    if k == c + 1 then c
    else
      var p := LargestTo(a, c, k - 1);
      if Abs(a[k - 1][c]) > Abs(a[p][c]) then k - 1 else p
  }

  function Largest(a: Matrix, n: nat, c: nat): (p: nat)
    requires Augmented(a, n) && c < n
    ensures c <= p < n
    ensures forall r :: c <= r < n ==> Abs(a[r][c]) <= Abs(a[p][c])
  {
    LargestTo(a, c, n)
  }

  predicate Passes(pivot: real, epsilon: real) {
    pivot != 0.0 && Abs(pivot) >= epsilon
  }

  /** From column `c` on every pivot, taken as the program takes it, passes the threshold. */
  predicate PivotsPass(a: Matrix, n: nat, c: nat, epsilon: real)
    requires Augmented(a, n) && c <= n
    decreases n - c
  {
    c == n ||
    (var p := Largest(a, n, c);
     Passes(a[p][c], epsilon) && PivotsPass(Pivoted(a, n, c, p), n, c + 1, epsilon))
  }

  /** The system after all remaining columns. */
  function Finished(a: Matrix, n: nat, c: nat, epsilon: real): (e: Matrix)
    requires Augmented(a, n) && c <= n && PivotsPass(a, n, c, epsilon)
    ensures Augmented(e, n)
    decreases n - c
  {
    if c == n then a else Finished(Pivoted(a, n, c, Largest(a, n, c)), n, c + 1, epsilon)
  }

  function Zeros(n: nat): (z: Vec)
    ensures |z| == n && forall i :: 0 <= i < n ==> z[i] == 0.0
  {
    seq(n, _ => 0.0)
  }

  /** The test that decides whether a system with this matrix is solved. */
  predicate Accepts(m: Matrix, epsilon: real)
    requires Square(m, |m|)
  {
    PivotsPass(Augment(m, Zeros(|m|)), |m|, 0, epsilon)
  }

  /** Equal up to the right-hand side. */
  predicate SameMatrix(a: Matrix, b: Matrix, n: nat)
    requires Augmented(a, n) && Augmented(b, n)
  {
    forall r, c :: 0 <= r < n && 0 <= c < n ==> a[r][c] == b[r][c]
  }

  lemma {:induction false} SameLargest(a: Matrix, b: Matrix, n: nat, c: nat, k: nat)
    requires Augmented(a, n) && Augmented(b, n) && SameMatrix(a, b, n) && c < k <= n
    ensures LargestTo(a, c, k) == LargestTo(b, c, k)
  {
    if k > c + 1 {
      SameLargest(a, b, n, c, k - 1);
    }
  }

  lemma SwapIgnoresRhs(a: Matrix, b: Matrix, n: nat, i: nat, j: nat)
    requires Augmented(a, n) && Augmented(b, n) && SameMatrix(a, b, n) && i < n && j < n
    ensures Augmented(Swapped(a, i, j), n) && Augmented(Swapped(b, i, j), n)
    ensures SameMatrix(Swapped(a, i, j), Swapped(b, i, j), n)
  {
  }

  lemma ScaleIgnoresRhs(a: Matrix, b: Matrix, n: nat, c: nat, scale: real)
    requires Augmented(a, n) && Augmented(b, n) && SameMatrix(a, b, n) && c < n && scale != 0.0
    ensures SameMatrix(a[c := Scaled(a[c], scale)], b[c := Scaled(b[c], scale)], n)
  {
  }

  lemma EliminationIgnoresRhs(a: Matrix, b: Matrix, n: nat, c: nat)
    requires Augmented(a, n) && Augmented(b, n) && SameMatrix(a, b, n) && c < n
    ensures SameMatrix(Eliminated(a, n, c, n), Eliminated(b, n, c, n), n)
  {
    forall r, k | 0 <= r < n && 0 <= k < n
      ensures Eliminated(a, n, c, n)[r][k] == Eliminated(b, n, c, n)[r][k]
    {
      var factor := a[r][c];
      assert factor == b[r][c];
      if r != c {
        assert Reduced(a[r], factor, a[c])[k] == Reduced(b[r], factor, b[c])[k];
      }
    }
  }

  lemma PivotIgnoresRhs(a: Matrix, b: Matrix, n: nat, c: nat, p: nat)
    requires Augmented(a, n) && Augmented(b, n) && SameMatrix(a, b, n) && c <= p < n && a[p][c] != 0.0
    ensures b[p][c] != 0.0 && SameMatrix(Pivoted(a, n, c, p), Pivoted(b, n, c, p), n)
  {
    var s, t := Swapped(a, c, p), Swapped(b, c, p);
    SwapIgnoresRhs(a, b, n, c, p);
    var scale := s[c][c];
    assert scale == t[c][c];
    ScaleIgnoresRhs(s, t, n, c, scale);
    EliminationIgnoresRhs(s[c := Scaled(s[c], scale)], t[c := Scaled(t[c], scale)], n, c);
  }

  /** The test looks at the matrix alone, never at the right-hand side. */
  lemma {:induction false} TestIgnoresRhs(a: Matrix, b: Matrix, n: nat, c: nat, epsilon: real)
    requires Augmented(a, n) && Augmented(b, n) && SameMatrix(a, b, n) && c <= n
    ensures PivotsPass(a, n, c, epsilon) <==> PivotsPass(b, n, c, epsilon)
    decreases n - c
  {
    if c < n {
      SameLargest(a, b, n, c, n);
      var p := Largest(a, n, c);
      if a[p][c] != 0.0 {
        PivotIgnoresRhs(a, b, n, c, p);
        TestIgnoresRhs(Pivoted(a, n, c, p), Pivoted(b, n, c, p), n, c + 1, epsilon);
      }
    }
  }

  lemma AcceptsAnyRhs(m: Matrix, b: Vec, epsilon: real)
    requires Square(m, |b|)
    ensures Accepts(m, epsilon) <==> PivotsPass(Augment(m, b), |b|, 0, epsilon)
  {
    TestIgnoresRhs(Augment(m, Zeros(|m|)), Augment(m, b), |b|, 0, epsilon);
  }

  /** A first column below the threshold is rejected. */
  lemma SmallColumnIsRejected(m: Matrix, epsilon: real)
    requires m != [] && Square(m, |m|) && forall i :: 0 <= i < |m| ==> Abs(m[i][0]) < epsilon
    ensures !Accepts(m, epsilon)
  {
    var a := Augment(m, Zeros(|m|));
    var p := Largest(a, |m|, 0);
    assert a[p][0] == m[p][0];
  }

  // ----- What the test proves -----

  /** Passing from column `c` on finishes the system without changing its solutions and null vectors. */
  lemma {:induction false} FinishedIsExact(a0: Matrix, a: Matrix, n: nat, c: nat, epsilon: real)
    requires Augmented(a0, n) && Augmented(a, n) && c <= n && SameKernel(a0, a, n) && UnitColumns(a, n, c)
    requires PivotsPass(a, n, c, epsilon)
    ensures UnitColumns(Finished(a, n, c, epsilon), n, n) && SameKernel(a0, Finished(a, n, c, epsilon), n)
    decreases n - c
  {
    if c < n {
      var p := Largest(a, n, c);
      PivotKeepsKernel(a, n, c, p);
      PivotFinishesColumn(a, n, c, p);
      FinishedIsExact(a0, Pivoted(a, n, c, p), n, c + 1, epsilon);
    }
  }

  /** With the exact threshold, failing from column `c` on proves a null vector. */
  lemma {:induction false} FailureIsNull(m: Matrix, b: Vec, a: Matrix, c: nat)
    requires Square(m, |b|) && Augmented(a, |b|) && c <= |b| && SameKernel(Augment(m, b), a, |b|) && UnitColumns(a, |b|, c)
    requires !PivotsPass(a, |b|, c, 0.0)
    ensures HasNull(m)
    decreases |b| - c
  {
    var n := |b|;
    var p := Largest(a, n, c);
    if a[p][c] == 0.0 {
      MissingPivotIsNull(m, b, a, c);
    } else {
      PivotKeepsKernel(a, n, c, p);
      PivotFinishesColumn(a, n, c, p);
      FailureIsNull(m, b, Pivoted(a, n, c, p), c + 1);
    }
  }

  // ----- The solver -----

  datatype Solution = Malformed | Singular | Solved(x: Vec)

  function Answer(m: Matrix, b: Vec, epsilon: real): Solution {
    if b == [] || !Square(m, |b|) then Malformed
    else if !PivotsPass(Augment(m, b), |b|, 0, epsilon) then Singular
    else Solved(LastColumn(Finished(Augment(m, b), |b|, 0, epsilon), |b|))
  }

  /**
   A system is refused exactly when its matrix fails the pivot test. Any answer solves the system, whatever the
   threshold, and proves that the matrix has no null vector; with the exact threshold a refusal proves one.
   */
  lemma AnswerIsExact(m: Matrix, b: Vec, epsilon: real)
    requires b != [] && Square(m, |b|)
    ensures Answer(m, b, epsilon).Singular? <==> !Accepts(m, epsilon)
    ensures Answer(m, b, epsilon).Solved? ==>
      |Answer(m, b, epsilon).x| == |b| && Solves(m, Answer(m, b, epsilon).x, b) && !HasNull(m)
    ensures Answer(m, b, epsilon).Singular? && epsilon == 0.0 ==> HasNull(m)
  {
    var a := Augment(m, b);
    AcceptsAnyRhs(m, b, epsilon);
    if PivotsPass(a, |b|, 0, epsilon) {
      FinishedIsExact(a, a, |b|, 0, epsilon);
      FinishedSolves(m, b, Finished(a, |b|, 0, epsilon));
    } else if epsilon == 0.0 {
      FailureIsNull(m, b, a, 0);
    }
  }

  /** With the exact threshold, accepting a matrix means that it has no null vector. */
  lemma ExactTest(m: Matrix)
    requires m != [] && Square(m, |m|)
    ensures Accepts(m, 0.0) <==> !HasNull(m)
  {
    AnswerIsExact(m, Zeros(|m|), 0.0);
  }

  /** The first row from `c` on with the largest entry in column `c`. */
  method FindPivot(a: Matrix, n: nat, c: nat) returns (pivot: nat)
    requires Augmented(a, n) && c < n
    ensures pivot == Largest(a, n, c)
    ensures c <= pivot < n
    ensures forall r :: c <= r < n ==> Abs(a[r][c]) <= Abs(a[pivot][c])
    ensures forall r :: c <= r < pivot ==> Abs(a[r][c]) < Abs(a[pivot][c])
  {
    pivot := c;
    var r := c + 1;
    while r < n
      invariant c < r <= n && pivot == LargestTo(a, c, r)
    {
      if Abs(a[r][c]) > Abs(a[pivot][c]) {
        pivot := r;
      }
      r := r + 1;
    }
  }

  method Eliminate(a: Matrix, n: nat, c: nat, pivot: nat) returns (e: Matrix)
    requires Augmented(a, n) && c <= pivot < n && a[pivot][c] != 0.0
    ensures e == Pivoted(a, n, c, pivot)
  {
    e := a[c := a[pivot]][pivot := a[c]];
    var scale := e[c][c];
    e := e[c := Scaled(e[c], scale)];
    ghost var scaled := e;
    var row := 0;
    while row < n
      invariant 0 <= row <= n
      invariant e == Eliminated(scaled, n, c, row)
    {
      if row != c {
        var factor := e[row][c];
        e := e[row := Reduced(e[row], factor, e[c])];
      }
      row := row + 1;
      assert e == Eliminated(scaled, n, c, row);
    }
  }

  /** The loop over columns: it stops at the first pivot that fails. */
  method EliminateAll(a0: Matrix, n: nat, epsilon: real) returns (ok: bool, a: Matrix)
    requires Augmented(a0, n)
    ensures ok == PivotsPass(a0, n, 0, epsilon)
    ensures ok ==> a == Finished(a0, n, 0, epsilon)
  {
    a := a0;
    var c := 0;
    while c < n
      invariant 0 <= c <= n && Augmented(a, n)
      invariant PivotsPass(a0, n, 0, epsilon) <==> PivotsPass(a, n, c, epsilon)
      invariant PivotsPass(a0, n, 0, epsilon) ==> Finished(a0, n, 0, epsilon) == Finished(a, n, c, epsilon)
    {
      var pivot := FindPivot(a, n, c);
      if a[pivot][c] == 0.0 || Abs(a[pivot][c]) < epsilon {
        return false, a;
      }
      a := Eliminate(a, n, c, pivot);
      c := c + 1;
    }
    ok := true;
  }

  method SolveLinear(matrix: Matrix, vector: Vec, epsilon: real) returns (s: Solution)
    ensures s == Answer(matrix, vector, epsilon)
    ensures s.Malformed? <==> vector == [] || !Square(matrix, |vector|)
    ensures !s.Malformed? ==> (s.Singular? <==> !Accepts(matrix, epsilon))
    ensures s.Solved? ==> |s.x| == |vector| && Solves(matrix, s.x, vector) && !HasNull(matrix)
    ensures s.Singular? && epsilon == 0.0 ==> HasNull(matrix)
  {
    var n := |vector|;
    if n == 0 || |matrix| != n || exists i | 0 <= i < |matrix| :: |matrix[i]| != n {
      return Malformed;
    }
    AnswerIsExact(matrix, vector, epsilon);
    var ok, a := EliminateAll(Augment(matrix, vector), n, epsilon);
    s := if ok then Solved(LastColumn(a, n)) else Singular;
  }
}
