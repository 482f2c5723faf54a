/**
 Non-negative least squares in three coefficients by enumeration of active faces. With an exact pivot
 test the result is a global optimum for every design, rank-deficient ones included.
 */
module Nnls {
  import opened Prelude
  import opened LinearSolve

  const COEFFICIENTS: nat := 3

  // ----- Designs as linear maps -----

  predicate Design(x: Matrix) {
    forall r :: 0 <= r < |x| ==> |x[r]| == COEFFICIENTS
  }

  /** The prediction of every row. */
  function Apply(x: Matrix, beta: Vec): (p: Vec)
    requires Design(x) && |beta| == COEFFICIENTS
    ensures |p| == |x| && forall r :: 0 <= r < |x| ==> p[r] == Dot(x[r], beta)
  {
    seq(|x|, r requires 0 <= r < |x| => Dot(x[r], beta))
  }

  function Column(x: Matrix, j: nat): (c: Vec)
    requires Design(x) && j < COEFFICIENTS
    ensures |c| == |x| && forall r :: 0 <= r < |x| ==> c[r] == x[r][j]
  {
    seq(|x|, r requires 0 <= r < |x| => x[r][j])
  }

  /** Every column against a vector over the rows. */
  function Transposed(x: Matrix, w: Vec): (t: Vec)
    requires Design(x) && |w| == |x|
    ensures |t| == COEFFICIENTS && forall j :: 0 <= j < COEFFICIENTS ==> t[j] == Dot(Column(x, j), w)
  {
    seq(COEFFICIENTS, j requires 0 <= j < COEFFICIENTS => Dot(Column(x, j), w))
  }

  function Residual(x: Matrix, y: Vec, beta: Vec): (r: Vec)
    requires Design(x) && |y| == |x| && |beta| == COEFFICIENTS
    ensures |r| == |x|
  {
    Reduced(y, 1.0, Apply(x, beta))
  }

  function Error(x: Matrix, y: Vec, beta: Vec): real
    requires Design(x) && |y| == |x| && |beta| == COEFFICIENTS
  {
    Dot(Residual(x, y, beta), Residual(x, y, beta))
  }

  predicate NonNegative(beta: Vec) {
    forall j :: 0 <= j < |beta| ==> beta[j] >= 0.0
  }

  ghost predicate Optimal(x: Matrix, y: Vec, beta: Vec)
    requires Design(x) && |y| == |x|
  {
    && |beta| == COEFFICIENTS && NonNegative(beta)
    && forall other :: |other| == COEFFICIENTS && NonNegative(other) ==> Error(x, y, beta) <= Error(x, y, other)
  }

  // ----- Inner products -----

  lemma {:induction false} DotSymmetric(a: Vec, b: Vec, k: nat)
    requires k <= |a| && k <= |b|
    ensures DotTo(a, b, k) == DotTo(b, a, k)
  {
    if k > 0 {
      DotSymmetric(a, b, k - 1);
    }
  }

  lemma DotReducedRight(z: Vec, row: Vec, factor: real, pivot: Vec)
    requires |row| == |pivot| == |z|
    ensures Dot(z, Reduced(row, factor, pivot)) == Dot(z, row) - factor * Dot(z, pivot)
  {
    DotReduced(row, factor, pivot, z, |z|);
    DotSymmetric(z, Reduced(row, factor, pivot), |z|);
    DotSymmetric(z, row, |z|);
    DotSymmetric(z, pivot, |z|);
  }

  lemma SquareOfDifference(uu: real, uv: real, vv: real, t: real)
    ensures (uu - t * uv) - t * (uv - t * vv) == uu - 2.0 * t * uv + t * t * vv
  {
    assert t * (uv - t * vv) == t * uv - t * t * vv;
  }

  lemma NormOfReduced(u: Vec, t: real, v: Vec)
    requires |u| == |v|
    ensures var d := Reduced(u, t, v);
            Dot(d, d) == Dot(u, u) - 2.0 * t * Dot(u, v) + t * t * Dot(v, v)
  {
    var d := Reduced(u, t, v);
    DotReduced(u, t, v, d, |u|);
    DotReducedRight(u, u, t, v);
    DotReducedRight(v, u, t, v);
    DotSymmetric(u, v, |u|);
    SquareOfDifference(Dot(u, u), Dot(u, v), Dot(v, v), t);
  }

  lemma PositiveProduct(x: real, y: real) returns (p: real)
    requires 0.0 < x && 0.0 < y
    ensures p == x * y && 0.0 < p
  {
    p := x * y;
  }

  lemma SquareIsPositive(a: real) returns (s: real)
    ensures s == a * a && 0.0 <= s
    ensures a == 0.0 || 0.0 < s
  {
    if a > 0.0 {
      s := PositiveProduct(a, a);
    } else if a < 0.0 {
      s := PositiveProduct(-a, -a);
      assert (-a) * (-a) == a * a;
    } else {
      s := 0.0;
    }
  }

  lemma {:induction false} NormIsPositive(v: Vec, k: nat)
    requires k <= |v|
    ensures 0.0 <= DotTo(v, v, k)
    ensures 0.0 < DotTo(v, v, k) || forall i :: 0 <= i < k ==> v[i] == 0.0
  {
    if k > 0 {
      NormIsPositive(v, k - 1);
      var s := SquareIsPositive(v[k - 1]);
      assert DotTo(v, v, k) == DotTo(v, v, k - 1) + s;
    }
  }

  lemma ApplyReduced(x: Matrix, beta: Vec, t: real, d: Vec)
    requires Design(x) && |beta| == |d| == COEFFICIENTS
    ensures Apply(x, Reduced(beta, t, d)) == Reduced(Apply(x, beta), t, Apply(x, d))
  {
    var left, right := Apply(x, Reduced(beta, t, d)), Reduced(Apply(x, beta), t, Apply(x, d));
    forall r | 0 <= r < |x|
      ensures left[r] == right[r]
    {
      DotReducedRight(x[r], beta, t, d);
      assert Apply(x, beta)[r] == Dot(x[r], beta) && Apply(x, d)[r] == Dot(x[r], d);
    }
  }

  // ----- Transposition -----

  lemma TransposedOfSnoc(x: Matrix, row: Vec, w: Vec, last: real)
    requires Design(x) && |row| == COEFFICIENTS && |w| == |x|
    ensures Transposed(x + [row], w + [last]) == Reduced(Transposed(x, w), -last, row)
  {
    forall j | 0 <= j < COEFFICIENTS
      ensures Transposed(x + [row], w + [last])[j] == Reduced(Transposed(x, w), -last, row)[j]
    {
      assert Column(x + [row], j) == Column(x, j) + [row[j]];
      DotOfSnoc(Column(x, j), row[j], w, last);
    }
  }

  /** Predictions against weights are coefficients against weighted columns. */
  lemma {:induction false} Adjoint(x: Matrix, d: Vec, w: Vec)
    requires Design(x) && |d| == COEFFICIENTS && |w| == |x|
    ensures Dot(Apply(x, d), w) == Dot(d, Transposed(x, w))
  {
    if x == [] {
      DotOfZeros(d, Transposed(x, w), COEFFICIENTS);
    } else {
      var n := |x| - 1;
      var init, row, v, last := x[..n], x[n], w[..n], w[n];
      assert x == init + [row] && w == v + [last];
      Adjoint(init, d, v);
      assert Apply(x, d) == Apply(init, d) + [Dot(row, d)];
      DotOfSnoc(Apply(init, d), Dot(row, d), v, last);
      TransposedOfSnoc(init, row, v, last);
      DotReducedRight(d, Transposed(init, v), -last, row);
      DotSymmetric(row, d, COEFFICIENTS);
    }
  }

  // ----- Faces -----

  /** The columns of a face: the set bits of its mask in ascending order. */
  function ActiveOf(mask: nat): (active: seq<nat>)
    requires mask < 8
    ensures Ascending(active)
    ensures forall j :: j in active <==> Bit(mask, j)
  {
    (if Bit(mask, 0) then [0] else []) + (if Bit(mask, 1) then [1] else []) + (if Bit(mask, 2) then [2] else [])
  }

  predicate Bit(mask: nat, j: int) {
    if j == 0 then mask % 2 == 1 else if j == 1 then mask / 2 % 2 == 1 else j == 2 && mask / 4 % 2 == 1
  }

  predicate Ascending(active: seq<nat>) {
    && (forall i :: 0 <= i < |active| ==> active[i] < COEFFICIENTS)
    && forall i, j :: 0 <= i < j < |active| ==> active[i] < active[j]
  }

  function Select(row: Vec, active: seq<nat>): (s: Vec)
    requires |row| == COEFFICIENTS && Ascending(active)
    ensures |s| == |active| && forall i :: 0 <= i < |s| ==> s[i] == row[active[i]]
  {
    seq(|active|, i requires 0 <= i < |active| => row[active[i]])
  }

  /** The first `k` values of a face placed among zeros. */
  function Embed(active: seq<nat>, a: Vec, k: nat): (beta: Vec)
    requires Ascending(active) && |a| == |active| && k <= |a|
    ensures |beta| == COEFFICIENTS
    ensures forall i :: 0 <= i < k ==> beta[active[i]] == a[i]
    ensures forall j :: 0 <= j < COEFFICIENTS && j !in active[..k] ==> beta[j] == 0.0
  {
    if k == 0 then [0.0, 0.0, 0.0] else Embed(active, a, k - 1)[active[k - 1] := a[k - 1]]
  }

  /** The values of a face placed among zeros. */
  function Placed(active: seq<nat>, a: Vec): (beta: Vec)
    requires Ascending(active) && |a| == |active|
    ensures |beta| == COEFFICIENTS
    ensures forall i :: 0 <= i < |a| ==> beta[active[i]] == a[i]
    ensures SupportedOn(beta, active)
  {
    assert active[..|a|] == active;
    Embed(active, a, |a|)
  }

  lemma {:induction false} DotOfUpdate(row: Vec, beta: Vec, p: nat, value: real, k: nat)
    requires |row| == |beta| && p < |beta| && beta[p] == 0.0 && k <= |beta|
    ensures DotTo(row, beta[p := value], k) == DotTo(row, beta, k) + if p < k then row[p] * value else 0.0
  {
    if k > 0 {
      DotOfUpdate(row, beta, p, value, k - 1);
    }
  }

  lemma EmbedOneMore(row: Vec, active: seq<nat>, a: Vec, k: nat)
    requires |row| == COEFFICIENTS && Ascending(active) && |a| == |active| && 0 < k <= |a|
    ensures Dot(row, Embed(active, a, k)) == Dot(row, Embed(active, a, k - 1)) + row[active[k - 1]] * a[k - 1]
  {
    var e, p := Embed(active, a, k - 1), active[k - 1];
    assert p !in active[..k - 1];
    assert Embed(active, a, k) == e[p := a[k - 1]];
    DotOfUpdate(row, e, p, a[k - 1], |row|);
  }

  lemma {:induction false} DotOfEmbed(row: Vec, active: seq<nat>, a: Vec, k: nat)
    requires |row| == COEFFICIENTS && Ascending(active) && |a| == |active| && k <= |a|
    ensures Dot(row, Embed(active, a, k)) == DotTo(Select(row, active), a, k)
  {
    if k == 0 {
      DotOfZeros(row, Embed(active, a, 0), |row|);
    } else {
      DotOfEmbed(row, active, a, k - 1);
      EmbedOneMore(row, active, a, k);
    }
  }

  /** The normal equations of a face. */
  function Normal(x: Matrix, active: seq<nat>): (m: Matrix)
    requires Design(x) && Ascending(active)
    ensures Square(m, |active|)
    ensures forall i, j :: 0 <= i < |active| && 0 <= j < |active| ==>
              m[i][j] == Dot(Column(x, active[i]), Column(x, active[j]))
  {
    seq(|active|, i requires 0 <= i < |active| =>
      seq(|active|, j requires 0 <= j < |active| => Dot(Column(x, active[i]), Column(x, active[j]))))
  }

  function Rhs(x: Matrix, y: Vec, active: seq<nat>): (b: Vec)
    requires Design(x) && |y| == |x| && Ascending(active)
    ensures |b| == |active| && forall i :: 0 <= i < |active| ==> b[i] == Dot(Column(x, active[i]), y)
  {
    seq(|active|, i requires 0 <= i < |active| => Dot(Column(x, active[i]), y))
  }

  /** A row of the normal matrix is a column of the face against the predictions. */
  lemma NormalRow(x: Matrix, active: seq<nat>, a: Vec, i: nat)
    requires Design(x) && Ascending(active) && |a| == |active| && i < |a|
    ensures Dot(Normal(x, active)[i], a) == Dot(Column(x, active[i]), Apply(x, Placed(active, a)))
  {
    var w, e := Column(x, active[i]), Placed(active, a);
    forall j | 0 <= j < |active|
      ensures Normal(x, active)[i][j] == Select(Transposed(x, w), active)[j]
    {
      DotSymmetric(w, Column(x, active[j]), |x|);
    }
    assert Normal(x, active)[i] == Select(Transposed(x, w), active);
    DotOfEmbed(Transposed(x, w), active, a, |a|);
    Adjoint(x, e, w);
    DotSymmetric(Transposed(x, w), e, COEFFICIENTS);
    DotSymmetric(w, Apply(x, e), |x|);
  }

  predicate SupportedOn(beta: Vec, active: seq<nat>)
    requires |beta| == COEFFICIENTS
  {
    forall j :: 0 <= j < COEFFICIENTS && j !in active ==> beta[j] == 0.0
  }

  lemma Orthogonal(x: Matrix, active: seq<nat>, w: Vec, d: Vec)
    requires Design(x) && Ascending(active) && |w| == |x| && |d| == COEFFICIENTS && SupportedOn(d, active)
    requires forall i :: 0 <= i < |active| ==> Dot(Column(x, active[i]), w) == 0.0
    ensures Dot(w, Apply(x, d)) == 0.0
  {
    Adjoint(x, d, w);
    DotOfZeros(d, Transposed(x, w), COEFFICIENTS);
    DotSymmetric(w, Apply(x, d), |x|);
  }

  lemma ShiftedResidual(x: Matrix, y: Vec, beta: Vec, t: real, d: Vec)
    requires Design(x) && |y| == |x| && |beta| == |d| == COEFFICIENTS
    ensures Residual(x, y, Reduced(beta, t, d)) == Reduced(Residual(x, y, beta), -t, Apply(x, d))
  {
    ApplyReduced(x, beta, t, d);
    var p, q := Apply(x, beta), Apply(x, d);
    forall r | 0 <= r < |x|
      ensures Residual(x, y, Reduced(beta, t, d))[r] == Reduced(Residual(x, y, beta), -t, q)[r]
    {
      assert Reduced(p, t, q)[r] == p[r] - t * q[r];
    }
  }

  /** The normal equations make the residual orthogonal to every direction of the face. */
  lemma NormalEquationsAreOrthogonality(x: Matrix, y: Vec, active: seq<nat>, a: Vec, d: Vec)
    requires Design(x) && |y| == |x| && Ascending(active) && |a| == |active|
    requires Solves(Normal(x, active), a, Rhs(x, y, active))
    requires |d| == COEFFICIENTS && SupportedOn(d, active)
    ensures Dot(Residual(x, y, Placed(active, a)), Apply(x, d)) == 0.0
  {
    var res := Residual(x, y, Placed(active, a));
    forall i | 0 <= i < |active|
      ensures Dot(Column(x, active[i]), res) == 0.0
    {
      assert Dot(Normal(x, active)[i], a) == Rhs(x, y, active)[i];
      NormalEquationAt(x, y, active, a, i);
    }
    Orthogonal(x, active, res, d);
  }

  lemma NormalEquationAt(x: Matrix, y: Vec, active: seq<nat>, a: Vec, i: nat)
    requires Design(x) && |y| == |x| && Ascending(active) && |a| == |active| && i < |a|
    requires Dot(Normal(x, active)[i], a) == Dot(Column(x, active[i]), y)
    ensures Dot(Column(x, active[i]), Residual(x, y, Placed(active, a))) == 0.0
  {
    NormalRow(x, active, a, i);
    EqualDotsCancel(Column(x, active[i]), y, Apply(x, Placed(active, a)));
  }

  lemma EqualDotsCancel(c: Vec, y: Vec, p: Vec)
    requires |c| == |y| == |p| && Dot(c, y) == Dot(c, p)
    ensures Dot(c, Reduced(y, 1.0, p)) == 0.0
  {
    DotReducedRight(c, y, 1.0, p);
  }

  lemma ErrorOfShift(x: Matrix, y: Vec, beta: Vec, t: real, d: Vec)
    requires Design(x) && |y| == |x| && |beta| == |d| == COEFFICIENTS
    ensures var res, p := Residual(x, y, beta), Apply(x, d);
            Error(x, y, Reduced(beta, t, d)) == Dot(res, res) + 2.0 * t * Dot(res, p) + t * t * Dot(p, p)
  {
    var res, p := Residual(x, y, beta), Apply(x, d);
    ShiftedResidual(x, y, beta, t, d);
    NormOfReduced(res, -t, p);
    NegatedSquare(Dot(res, p), Dot(p, p), t);
  }

  lemma NegatedSquare(uv: real, vv: real, t: real)
    ensures -2.0 * -t * uv + -t * -t * vv == 2.0 * t * uv + t * t * vv
  {}

  function Parabola(t: real, q: real): real {
    t * t * q
  }

  /** Along a direction orthogonal to the residual, errors grow with the square of the distance. */
  lemma ErrorIsParabola(x: Matrix, y: Vec, e: Vec, d: Vec, t: real)
    requires Design(x) && |y| == |x| && |e| == |d| == COEFFICIENTS
    requires Dot(Residual(x, y, e), Apply(x, d)) == 0.0
    ensures Error(x, y, Reduced(e, t, d)) == Error(x, y, e) + Parabola(t, Dot(Apply(x, d), Apply(x, d)))
  {
    ErrorOfShift(x, y, e, t, d);
  }

  /** A null vector of a face predicts zero everywhere. */
  lemma NullPredictsZero(x: Matrix, active: seq<nat>, v: Vec)
    requires Design(x) && Ascending(active) && |v| == |active|
    requires Annihilates(Normal(x, active), v)
    ensures forall r :: 0 <= r < |x| ==> Apply(x, Placed(active, v))[r] == 0.0
  {
    var d := Placed(active, v);
    var p := Apply(x, d);
    forall i | 0 <= i < |active|
      ensures Dot(Column(x, active[i]), p) == 0.0
    {
      NormalRow(x, active, v, i);
    }
    Orthogonal(x, active, p, d);
    NormIsPositive(p, |p|);
  }

  lemma NullIsFlat(x: Matrix, y: Vec, active: seq<nat>, v: Vec, beta: Vec, t: real)
    requires Design(x) && |y| == |x| && Ascending(active) && |v| == |active| && |beta| == COEFFICIENTS
    requires Annihilates(Normal(x, active), v)
    ensures Error(x, y, Reduced(beta, t, Placed(active, v))) == Error(x, y, beta)
  {
    var d := Placed(active, v);
    NullPredictsZero(x, active, v);
    ShiftedResidual(x, y, beta, t, d);
    var res, moved := Residual(x, y, beta), Reduced(Residual(x, y, beta), -t, Apply(x, d));
    forall r | 0 <= r < |x|
      ensures moved[r] == res[r]
    {
      assert Apply(x, d)[r] == 0.0;
    }
    assert moved == res;
  }

  // ----- Descending to a smaller face -----

  /** What is known about a face: a null vector of its normal matrix, or a solution and its error. */
  datatype Face = Flat(v: Vec) | Bowl(a: Vec, error: real)

  ghost predicate FaceKnown(x: Matrix, y: Vec, active: seq<nat>, face: Face)
    requires Design(x) && |y| == |x| && Ascending(active)
  {
    match face
    case Flat(v) => |v| == |active| && IsNull(Normal(x, active), v)
    case Bowl(a, error) =>
      && |a| == |active| && Solves(Normal(x, active), a, Rhs(x, y, active))
      && error == Error(x, y, Placed(active, a))
  }

  function MaskOf(beta: Vec): (mask: nat)
    requires |beta| == COEFFICIENTS
    ensures mask < 8 && forall j :: 0 <= j < COEFFICIENTS ==> (Bit(mask, j) <==> beta[j] != 0.0)
  {
    (if beta[0] != 0.0 then 1 else 0) + (if beta[1] != 0.0 then 2 else 0) + (if beta[2] != 0.0 then 4 else 0)
  }

  function SupportSize(beta: Vec): nat
    requires |beta| == COEFFICIENTS
  {
    (if beta[0] != 0.0 then 1 else 0) + (if beta[1] != 0.0 then 1 else 0) + (if beta[2] != 0.0 then 1 else 0)
  }

  function Product(a: real, b: real): real {
    a * b
  }

  /** Moving `t` times against `d` from `beta` brings coordinate `j` to zero and takes none below it. */
  ghost predicate BlocksFirst(beta: Vec, d: Vec, j: int, t: real)
    requires |beta| == |d| == COEFFICIENTS
  {
    && 0 <= j < COEFFICIENTS && d[j] > 0.0 && t >= 0.0 && Product(t, d[j]) == beta[j]
    && forall i :: 0 <= i < COEFFICIENTS && d[i] > 0.0 ==> Product(t, d[i]) <= beta[i]
  }

  lemma RatioTimes(b: real, d: real)
    requires d > 0.0 && b >= 0.0
    ensures b / d >= 0.0 && Product(b / d, d) == b
  {
    var q := b / d;
    assert q * d == b;
  }

  lemma SmallerRatio(b: real, d: real, t: real)
    requires d > 0.0 && t <= b / d
    ensures Product(t, d) <= b
  {
    var q := b / d;
    assert q * d == b;
    assert (q - t) * d >= 0.0;
  }

  /** The coordinate with the smallest ratio blocks first. */
  lemma SmallestRatio(beta: Vec, d: Vec) returns (j: int)
    requires |beta| == |d| == COEFFICIENTS && exists i :: 0 <= i < COEFFICIENTS && d[i] > 0.0
    ensures 0 <= j < COEFFICIENTS && d[j] > 0.0
    ensures forall i :: 0 <= i < COEFFICIENTS && d[i] > 0.0 ==> beta[j] / d[j] <= beta[i] / d[i]
  {
    j :| 0 <= j < COEFFICIENTS && d[j] > 0.0;
    var i := 0;
    while i < COEFFICIENTS
      invariant 0 <= i <= COEFFICIENTS
      invariant 0 <= j < COEFFICIENTS && d[j] > 0.0
      invariant forall k :: 0 <= k < i && d[k] > 0.0 ==> beta[j] / d[j] <= beta[k] / d[k]
    {
      if d[i] > 0.0 && beta[i] / d[i] < beta[j] / d[j] {
        j := i;
      }
      i := i + 1;
    }
  }

  lemma SomeBlocksFirst(beta: Vec, d: Vec) returns (j: int, t: real)
    requires |beta| == |d| == COEFFICIENTS && NonNegative(beta) && exists i :: 0 <= i < COEFFICIENTS && d[i] > 0.0
    ensures BlocksFirst(beta, d, j, t)
  {
    j := SmallestRatio(beta, d);
    t := beta[j] / d[j];
    RatioTimes(beta[j], d[j]);
    forall i | 0 <= i < COEFFICIENTS && d[i] > 0.0
      ensures Product(t, d[i]) <= beta[i]
    {
      SmallerRatio(beta[i], d[i], t);
    }
  }

  lemma ProductSign(t: real, d: real)
    requires t >= 0.0 && d <= 0.0
    ensures Product(t, d) <= 0.0
  {
  }

  lemma FewerNonzero(beta: Vec, next: Vec, j: int)
    requires |beta| == |next| == COEFFICIENTS && 0 <= j < COEFFICIENTS && next[j] == 0.0 && beta[j] != 0.0
    requires forall i :: 0 <= i < COEFFICIENTS && beta[i] == 0.0 ==> next[i] == 0.0
    ensures SupportSize(next) < SupportSize(beta)
  {
  }

  /** Stepping until the first coordinate vanishes stays feasible and shrinks the support. */
  lemma StepShrinks(beta: Vec, d: Vec, j: int, t: real)
    requires |beta| == |d| == COEFFICIENTS && NonNegative(beta) && BlocksFirst(beta, d, j, t)
    requires forall i :: 0 <= i < COEFFICIENTS && beta[i] == 0.0 ==> d[i] == 0.0
    ensures NonNegative(Reduced(beta, t, d)) && SupportSize(Reduced(beta, t, d)) < SupportSize(beta)
  {
    var next := Reduced(beta, t, d);
    forall i | 0 <= i < COEFFICIENTS
      ensures next[i] >= 0.0 && (beta[i] == 0.0 ==> next[i] == 0.0)
    {
      assert next[i] == beta[i] - Product(t, d[i]);
      if d[i] <= 0.0 {
        ProductSign(t, d[i]);
      }
    }
    assert next[j] == beta[j] - Product(t, d[j]);
    FewerNonzero(beta, next, j);
  }

  /** Of two points on such a line, the nearer one is no worse. */
  lemma NearerIsBetter(x: Matrix, y: Vec, e: Vec, d: Vec, near: real, far: real)
    requires Design(x) && |y| == |x| && |e| == |d| == COEFFICIENTS
    requires Dot(Residual(x, y, e), Apply(x, d)) == 0.0
    requires near * near <= far * far
    ensures Error(x, y, Reduced(e, near, d)) <= Error(x, y, Reduced(e, far, d))
  {
    var q := Dot(Apply(x, d), Apply(x, d));
    ErrorIsParabola(x, y, e, d, near);
    ErrorIsParabola(x, y, e, d, far);
    NormIsPositive(Apply(x, d), |x|);
    CompareParabola(Error(x, y, e), q, near, far, Error(x, y, Reduced(e, near, d)), Error(x, y, Reduced(e, far, d)));
  }

  lemma CompareParabola(base: real, q: real, near: real, far: real, atNear: real, atFar: real)
    requires atNear == base + Parabola(near, q) && atFar == base + Parabola(far, q)
    requires q >= 0.0 && near * near <= far * far
    ensures atNear <= atFar
  {
    var s, t := near * near, far * far;
    assert s * q <= t * q;
  }

  /** The line from `e` through `beta`, measured from either end. */
  lemma SameLine(beta: Vec, e: Vec, t: real)
    requires |beta| == |e| == COEFFICIENTS
    ensures var d := Reduced(beta, 1.0, e);
            && Reduced(e, -1.0, d) == beta
            && Reduced(e, 0.0, d) == e
            && Reduced(beta, t, d) == Reduced(e, t - 1.0, d)
  {
    var d := Reduced(beta, 1.0, e);
    forall k | 0 <= k < COEFFICIENTS
      ensures Reduced(e, -1.0, d)[k] == beta[k] && Reduced(e, 0.0, d)[k] == e[k]
      ensures Reduced(beta, t, d)[k] == Reduced(e, t - 1.0, d)[k]
    {
      assert beta[k] == e[k] + d[k];
      assert (t - 1.0) * d[k] == t * d[k] - d[k];
    }
  }

  lemma LineIsSupported(beta: Vec, e: Vec, active: seq<nat>)
    requires |beta| == |e| == COEFFICIENTS && SupportedOn(beta, active) && SupportedOn(e, active)
    ensures SupportedOn(Reduced(beta, 1.0, e), active)
  {}

  lemma StepBelowOne(t: real, b: real, d: real)
    requires Product(t, d) <= b < d && d > 0.0
    ensures t <= 1.0
  {
    assert (1.0 - t) * d > 0.0;
  }

  lemma UnitSquare(t: real)
    requires 0.0 <= t <= 1.0
    ensures (t - 1.0) * (t - 1.0) <= -1.0 * -1.0
  {
    var u := 1.0 - t;
    assert u * u <= 1.0 * u;
    assert (t - 1.0) * (t - 1.0) == u * u;
  }

  /** The line from a point of a face to its solution is orthogonal to the residual there. */
  lemma LineIsOrthogonal(x: Matrix, y: Vec, active: seq<nat>, a: Vec, beta: Vec)
    requires Design(x) && |y| == |x| && Ascending(active) && |a| == |active|
    requires Solves(Normal(x, active), a, Rhs(x, y, active))
    requires |beta| == COEFFICIENTS && SupportedOn(beta, active)
    ensures var e := Placed(active, a);
            Dot(Residual(x, y, e), Apply(x, Reduced(beta, 1.0, e))) == 0.0
  {
    var e := Placed(active, a);
    LineIsSupported(beta, e, active);
    NormalEquationsAreOrthogonality(x, y, active, a, Reduced(beta, 1.0, e));
  }

  lemma BowlIsBest(x: Matrix, y: Vec, e: Vec, beta: Vec)
    requires Design(x) && |y| == |x| && |e| == |beta| == COEFFICIENTS
    requires Dot(Residual(x, y, e), Apply(x, Reduced(beta, 1.0, e))) == 0.0
    ensures Error(x, y, e) <= Error(x, y, beta)
  {
    NearerIsBetter(x, y, e, Reduced(beta, 1.0, e), 0.0, -1.0);
    SameLine(beta, e, 0.0);
  }

  /** From a point of a face, step towards the solution of the face until a coordinate vanishes. */
  lemma TowardsBowl(x: Matrix, y: Vec, e: Vec, beta: Vec, neg: int) returns (next: Vec)
    requires Design(x) && |y| == |x| && |e| == |beta| == COEFFICIENTS && NonNegative(beta)
    requires Dot(Residual(x, y, e), Apply(x, Reduced(beta, 1.0, e))) == 0.0
    requires forall j :: 0 <= j < COEFFICIENTS && beta[j] == 0.0 ==> e[j] == 0.0
    requires 0 <= neg < COEFFICIENTS && e[neg] < 0.0
    ensures |next| == COEFFICIENTS && NonNegative(next) && SupportSize(next) < SupportSize(beta)
    ensures Error(x, y, next) <= Error(x, y, beta)
  {
    var j, t := BlockedOnSegment(beta, e, neg);
    var d := Reduced(beta, 1.0, e);
    StepShrinks(beta, d, j, t);
    next := Reduced(beta, t, d);
    NearerEnd(x, y, e, beta, d, t);
  }

  lemma NearerEnd(x: Matrix, y: Vec, e: Vec, beta: Vec, d: Vec, t: real)
    requires Design(x) && |y| == |x| && |e| == |beta| == COEFFICIENTS && d == Reduced(beta, 1.0, e)
    requires Dot(Residual(x, y, e), Apply(x, d)) == 0.0 && 0.0 <= t <= 1.0
    ensures Error(x, y, Reduced(beta, t, d)) <= Error(x, y, beta)
  {
    UnitSquare(t);
    NearerIsBetter(x, y, e, d, t - 1.0, -1.0);
    SameLine(beta, e, t);
  }

  /** The segment from `beta` to a point with a negative coordinate leaves the feasible set before its end. */
  lemma BlockedOnSegment(beta: Vec, e: Vec, neg: int) returns (j: int, t: real)
    requires |beta| == |e| == COEFFICIENTS && NonNegative(beta)
    requires 0 <= neg < COEFFICIENTS && e[neg] < 0.0
    ensures BlocksFirst(beta, Reduced(beta, 1.0, e), j, t) && t <= 1.0
  {
    var d := Reduced(beta, 1.0, e);
    assert d[neg] == beta[neg] - 1.0 * e[neg];
    j, t := SomeBlocksFirst(beta, d);
    StepBelowOne(t, beta[neg], d[neg]);
  }

  /** On a flat face, slide along a null vector until a coordinate vanishes. */
  lemma AlongFlat(x: Matrix, y: Vec, active: seq<nat>, v: Vec, beta: Vec) returns (next: Vec)
    requires Design(x) && |y| == |x| && Ascending(active) && |v| == |active|
    requires IsNull(Normal(x, active), v)
    requires |beta| == COEFFICIENTS && NonNegative(beta)
    requires forall j :: 0 <= j < COEFFICIENTS ==> (j in active <==> beta[j] != 0.0)
    ensures |next| == COEFFICIENTS && NonNegative(next) && SupportSize(next) < SupportSize(beta)
    ensures Error(x, y, next) == Error(x, y, beta)
  {
    var d := Placed(active, v);
    var i :| 0 <= i < |v| && v[i] != 0.0;
    assert active[i] in active && d[active[i]] != 0.0;
    var t := SlideEitherWay(beta, d);
    next := Reduced(beta, t, d);
    assert Annihilates(Normal(x, active), v);
    NullIsFlat(x, y, active, v, beta, t);
  }

  lemma TurnAround(beta: Vec, t: real, d: Vec, back: Vec)
    requires |beta| == |d| == |back| && forall k :: 0 <= k < |d| ==> back[k] == -d[k]
    ensures Reduced(beta, -t, back) == Reduced(beta, t, d)
  {
    forall k | 0 <= k < |d|
      ensures Reduced(beta, -t, back)[k] == Reduced(beta, t, d)[k]
    {
      assert -t * back[k] == t * d[k];
    }
  }

  /** A direction inside the support can be followed, one way or the other, to a smaller support. */
  lemma SlideEitherWay(beta: Vec, d: Vec) returns (t: real)
    requires |beta| == |d| == COEFFICIENTS && NonNegative(beta)
    requires forall i :: 0 <= i < COEFFICIENTS && beta[i] == 0.0 ==> d[i] == 0.0
    requires exists i :: 0 <= i < COEFFICIENTS && d[i] != 0.0
    ensures NonNegative(Reduced(beta, t, d)) && SupportSize(Reduced(beta, t, d)) < SupportSize(beta)
  {
    if i :| 0 <= i < COEFFICIENTS && d[i] > 0.0 {
      var j;
      j, t := SomeBlocksFirst(beta, d);
      StepShrinks(beta, d, j, t);
    } else {
      var back := Reduced([0.0, 0.0, 0.0], 1.0, d);
      var i :| 0 <= i < COEFFICIENTS && d[i] != 0.0;
      assert back[i] > 0.0;
      var j, u := SomeBlocksFirst(beta, back);
      StepShrinks(beta, back, j, u);
      t := -u;
      TurnAround(beta, t, d, back);
    }
  }

  /** A face without a feasible solution can be left for a smaller one at no cost. */
  lemma LeaveFace(x: Matrix, y: Vec, active: seq<nat>, face: Face, beta: Vec) returns (next: Vec)
    requires Design(x) && |y| == |x| && Ascending(active) && FaceKnown(x, y, active, face)
    requires face.Bowl? ==> !NonNegative(face.a)
    requires |beta| == COEFFICIENTS && NonNegative(beta)
    requires forall j :: 0 <= j < COEFFICIENTS ==> (j in active <==> beta[j] != 0.0)
    ensures |next| == COEFFICIENTS && NonNegative(next) && SupportSize(next) < SupportSize(beta)
    ensures Error(x, y, next) <= Error(x, y, beta)
  {
    match face
    case Flat(v) =>
      next := AlongFlat(x, y, active, v, beta);
    case Bowl(a, _) =>
      LineIsOrthogonal(x, y, active, a, beta);
      var i :| 0 <= i < |a| && a[i] < 0.0;
      next := TowardsBowl(x, y, Placed(active, a), beta, active[i]);
  }

  /** `best` is no worse than what the face offers, if it offers anything. */
  ghost predicate BeatsFace(face: Face, best: real) {
    face.Bowl? && NonNegative(face.a) ==> best <= face.error
  }

  /** The face has been understood and `best` is no worse than its offer. */
  ghost predicate FaceDone(x: Matrix, y: Vec, mask: nat, best: real)
    requires Design(x) && |y| == |x| && mask < 8
  {
    exists face :: FaceKnown(x, y, ActiveOf(mask), face) && BeatsFace(face, best)
  }

  /** Once every face is done, no feasible point beats `best`. */
  lemma {:induction false} Descend(x: Matrix, y: Vec, best: real, beta: Vec)
    requires Design(x) && |y| == |x| && best <= Dot(y, y)
    requires forall mask :: 1 <= mask < 8 ==> FaceDone(x, y, mask, best)
    requires |beta| == COEFFICIENTS && NonNegative(beta)
    ensures best <= Error(x, y, beta)
    decreases SupportSize(beta)
  {
    var mask := MaskOf(beta);
    if mask == 0 {
      assert beta == [0.0, 0.0, 0.0];
      ZeroIsBeaten(x, y, best);
    } else {
      assert FaceDone(x, y, mask, best);
      var next := UseFace(x, y, ActiveOf(mask), best, beta);
      if next.Some? {
        Descend(x, y, best, next.value);
      }
    }
  }

  /** A point in the interior of a done face is beaten, or there is a better one on a smaller face. */
  lemma UseFace(x: Matrix, y: Vec, active: seq<nat>, best: real, beta: Vec) returns (next: Option<Vec>)
    requires Design(x) && |y| == |x| && Ascending(active)
    requires exists face :: FaceKnown(x, y, active, face) && BeatsFace(face, best)
    requires |beta| == COEFFICIENTS && NonNegative(beta)
    requires forall j :: 0 <= j < COEFFICIENTS ==> (j in active <==> beta[j] != 0.0)
    ensures next.None? ==> best <= Error(x, y, beta)
    ensures next.Some? ==>
              && |next.value| == COEFFICIENTS && NonNegative(next.value)
              && SupportSize(next.value) < SupportSize(beta) && Error(x, y, next.value) <= Error(x, y, beta)
  {
    var face :| FaceKnown(x, y, active, face) && BeatsFace(face, best);
    if face.Bowl? && NonNegative(face.a) {
      OfferIsBeaten(x, y, active, face, best, beta);
      next := None;
    } else {
      var smaller := LeaveFace(x, y, active, face, beta);
      next := Some(smaller);
    }
  }

  lemma ZeroIsBeaten(x: Matrix, y: Vec, best: real)
    requires Design(x) && |y| == |x| && best <= Dot(y, y)
    ensures best <= Error(x, y, [0.0, 0.0, 0.0])
  {
    ErrorOfZero(x, y);
  }

  lemma OfferIsBeaten(x: Matrix, y: Vec, active: seq<nat>, face: Face, best: real, beta: Vec)
    requires Design(x) && |y| == |x| && Ascending(active) && FaceKnown(x, y, active, face)
    requires face.Bowl? && best <= face.error && |beta| == COEFFICIENTS && SupportedOn(beta, active)
    ensures best <= Error(x, y, beta)
  {
    LineIsOrthogonal(x, y, active, face.a, beta);
    BowlIsBest(x, y, Placed(active, face.a), beta);
  }

  lemma DoneIsOptimal(x: Matrix, y: Vec, beta: Vec)
    requires Design(x) && |y| == |x| && |beta| == COEFFICIENTS && NonNegative(beta) && Error(x, y, beta) <= Dot(y, y)
    requires forall mask :: 1 <= mask < 8 ==> FaceDone(x, y, mask, Error(x, y, beta))
    ensures Optimal(x, y, beta)
  {
    forall other | |other| == COEFFICIENTS && NonNegative(other)
      ensures Error(x, y, beta) <= Error(x, y, other)
    {
      Descend(x, y, Error(x, y, beta), other);
    }
  }

  // ----- The specification -----

  function Clipped(a: Vec): (c: Vec)
    ensures |c| == |a| && NonNegative(c) && (NonNegative(a) ==> c == a)
    ensures forall i :: 0 <= i < |a| ==> c[i] == if a[i] < 0.0 then 0.0 else a[i]
  {
    seq(|a|, i requires 0 <= i < |a| => if a[i] < 0.0 then 0.0 else a[i])
  }

  lemma PlacedIsNonNegative(active: seq<nat>, a: Vec)
    requires Ascending(active) && |a| == |active| && NonNegative(a)
    ensures NonNegative(Placed(active, a))
  {
    var beta := Placed(active, a);
    forall j | 0 <= j < COEFFICIENTS
      ensures beta[j] >= 0.0
    {
      if j in active {
        var i :| 0 <= i < |active| && active[i] == j;
        assert beta[j] == a[i];
      }
    }
  }

  /** What a face offers: its solution, if there is one and no entry is too negative, clipped and placed. */
  function Candidate(x: Matrix, y: Vec, mask: nat, epsilon: real, tolerance: real): (c: Option<Vec>)
    requires Design(x) && |y| == |x| && mask < 8
    ensures c.Some? ==> |c.value| == COEFFICIENTS
  {
    var active := ActiveOf(mask);
    var s := Answer(Normal(x, active), Rhs(x, y, active), epsilon);
    if s.Solved? && |s.x| == |active| && (forall i :: 0 <= i < |s.x| ==> s.x[i] >= -tolerance)
    then Some(Placed(active, Clipped(s.x)))
    else None
  }

  function Better(x: Matrix, y: Vec, best: Vec, c: Option<Vec>): (r: Vec)
    requires Design(x) && |y| == |x| && |best| == COEFFICIENTS && (c.Some? ==> |c.value| == COEFFICIENTS)
    ensures |r| == COEFFICIENTS && (r == best || c == Some(r))
    ensures Error(x, y, r) <= Error(x, y, best) && (c.Some? ==> Error(x, y, r) <= Error(x, y, c.value))
  {
    if c.Some? && Error(x, y, c.value) < Error(x, y, best) then c.value else best
  }

  /** One offer for each mask; mask 0 has no columns and is not tried. */
  predicate AreOffers(offers: seq<Option<Vec>>) {
    |offers| == 8 && forall m :: 0 <= m < 8 && offers[m].Some? ==> |offers[m].value| == COEFFICIENTS
  }

  function Offers(x: Matrix, y: Vec, epsilon: real, tolerance: real): (offers: seq<Option<Vec>>)
    requires Design(x) && |y| == |x|
    ensures AreOffers(offers) && forall m :: 0 <= m < 8 ==> offers[m] == Candidate(x, y, m, epsilon, tolerance)
  {
    seq(8, m requires 0 <= m < 8 => Candidate(x, y, m, epsilon, tolerance))
  }

  /** The best of zero and the offers for the masks below `k`; earlier ones win ties. */
  function BestTo(x: Matrix, y: Vec, offers: seq<Option<Vec>>, k: nat): (beta: Vec)
    requires Design(x) && |y| == |x| && AreOffers(offers) && 1 <= k <= 8
    ensures |beta| == COEFFICIENTS
  {
    if k == 1 then [0.0, 0.0, 0.0] else Better(x, y, BestTo(x, y, offers, k - 1), offers[k - 1])
  }

  function Fit(x: Matrix, y: Vec, epsilon: real, tolerance: real): (beta: Vec)
    requires Design(x) && |y| == |x|
    ensures |beta| == COEFFICIENTS
  {
    BestTo(x, y, Offers(x, y, epsilon, tolerance), 8)
  }

  lemma ErrorOfZero(x: Matrix, y: Vec)
    requires Design(x) && |y| == |x|
    ensures Error(x, y, [0.0, 0.0, 0.0]) == Dot(y, y)
  {
    var zero := [0.0, 0.0, 0.0];
    forall r | 0 <= r < |x|
      ensures Residual(x, y, zero)[r] == y[r]
    {
      DotOfZeros(x[r], zero, COEFFICIENTS);
      assert Apply(x, zero)[r] == 0.0;
    }
    assert Residual(x, y, zero) == y;
  }

  lemma CandidateIsFeasible(x: Matrix, y: Vec, mask: nat, epsilon: real, tolerance: real)
    requires Design(x) && |y| == |x| && mask < 8 && Candidate(x, y, mask, epsilon, tolerance).Some?
    ensures NonNegative(Candidate(x, y, mask, epsilon, tolerance).value)
  {
    var active := ActiveOf(mask);
    var s := Answer(Normal(x, active), Rhs(x, y, active), epsilon);
    PlacedIsNonNegative(active, Clipped(s.x));
  }

  lemma {:induction false} BestIsFeasible(x: Matrix, y: Vec, offers: seq<Option<Vec>>, k: nat)
    requires Design(x) && |y| == |x| && AreOffers(offers) && 1 <= k <= 8
    requires forall m :: 0 <= m < 8 && offers[m].Some? ==> NonNegative(offers[m].value)
    ensures NonNegative(BestTo(x, y, offers, k)) && Error(x, y, BestTo(x, y, offers, k)) <= Dot(y, y)
  {
    if k == 1 {
      ErrorOfZero(x, y);
    } else {
      BestIsFeasible(x, y, offers, k - 1);
    }
  }

  /** Whatever the threshold, the result is feasible and never worse than zero. */
  lemma FitIsFeasible(x: Matrix, y: Vec, epsilon: real, tolerance: real)
    requires Design(x) && |y| == |x|
    ensures NonNegative(Fit(x, y, epsilon, tolerance)) && Error(x, y, Fit(x, y, epsilon, tolerance)) <= Dot(y, y)
  {
    var offers := Offers(x, y, epsilon, tolerance);
    forall m | 0 <= m < 8 && offers[m].Some?
      ensures NonNegative(offers[m].value)
    {
      CandidateIsFeasible(x, y, m, epsilon, tolerance);
    }
    BestIsFeasible(x, y, offers, 8);
  }

  /** A face may be refused only if its normal matrix has a null vector. */
  ghost predicate Trusted(x: Matrix, mask: nat, epsilon: real)
    requires Design(x) && mask < 8
  {
    Accepts(Normal(x, ActiveOf(mask)), epsilon) || HasNull(Normal(x, ActiveOf(mask)))
  }

  lemma ActiveIsNonempty(mask: nat)
    requires 1 <= mask < 8
    ensures ActiveOf(mask) != []
  {}

  /** What the test finds out about a trusted face. */
  lemma TrustedFace(x: Matrix, y: Vec, mask: nat, epsilon: real) returns (face: Face)
    requires Design(x) && |y| == |x| && 1 <= mask < 8 && Trusted(x, mask, epsilon)
    ensures FaceKnown(x, y, ActiveOf(mask), face)
    ensures face.Bowl? ==> Answer(Normal(x, ActiveOf(mask)), Rhs(x, y, ActiveOf(mask)), epsilon) == Solved(face.a)
  {
    var active := ActiveOf(mask);
    var normal, rhs := Normal(x, active), Rhs(x, y, active);
    ActiveIsNonempty(mask);
    AnswerIsExact(normal, rhs, epsilon);
    if Accepts(normal, epsilon) {
      var a := Answer(normal, rhs, epsilon).x;
      face := Bowl(a, Error(x, y, Placed(active, a)));
    } else {
      var v :| IsNull(normal, v);
      assert |normal[0]| == |v|;
      face := Flat(v);
    }
  }

  lemma CandidateBeatsFace(x: Matrix, y: Vec, mask: nat, epsilon: real, tolerance: real, best: real)
    requires Design(x) && |y| == |x| && 1 <= mask < 8 && Trusted(x, mask, epsilon) && tolerance >= 0.0
    requires var c := Candidate(x, y, mask, epsilon, tolerance); c.Some? ==> best <= Error(x, y, c.value)
    ensures FaceDone(x, y, mask, best)
  {
    var face := TrustedFace(x, y, mask, epsilon);
    assert BeatsFace(face, best);
  }

  /** Later faces only improve on what earlier ones offered. */
  lemma {:induction false} BestBeatsOffer(x: Matrix, y: Vec, offers: seq<Option<Vec>>, k: nat, m: nat)
    requires Design(x) && |y| == |x| && AreOffers(offers) && 1 <= m < k <= 8 && offers[m].Some?
    ensures Error(x, y, BestTo(x, y, offers, k)) <= Error(x, y, offers[m].value)
  {
    if m < k - 1 {
      BestBeatsOffer(x, y, offers, k - 1, m);
    }
  }

  lemma FitBeatsFace(x: Matrix, y: Vec, epsilon: real, tolerance: real, mask: nat)
    requires Design(x) && |y| == |x| && 1 <= mask < 8 && Trusted(x, mask, epsilon) && tolerance >= 0.0
    ensures FaceDone(x, y, mask, Error(x, y, Fit(x, y, epsilon, tolerance)))
  {
    var offers := Offers(x, y, epsilon, tolerance);
    if offers[mask].Some? {
      BestBeatsOffer(x, y, offers, 8, mask);
    }
    CandidateBeatsFace(x, y, mask, epsilon, tolerance, Error(x, y, BestTo(x, y, offers, 8)));
  }

  /** The result is a global optimum whenever every face the test rejects really has a null vector. */
  lemma FitIsOptimal(x: Matrix, y: Vec, epsilon: real, tolerance: real)
    requires Design(x) && |y| == |x| && tolerance >= 0.0
    requires forall mask :: 1 <= mask < 8 ==> Trusted(x, mask, epsilon)
    ensures Optimal(x, y, Fit(x, y, epsilon, tolerance))
  {
    FitIsFeasible(x, y, epsilon, tolerance);
    forall mask | 1 <= mask < 8
      ensures FaceDone(x, y, mask, Error(x, y, Fit(x, y, epsilon, tolerance)))
    {
      FitBeatsFace(x, y, epsilon, tolerance, mask);
    }
    DoneIsOptimal(x, y, Fit(x, y, epsilon, tolerance));
  }

  /** With the exact threshold every face can be trusted. */
  lemma ExactIsTrusted(x: Matrix, mask: nat)
    requires Design(x) && 1 <= mask < 8
    ensures Trusted(x, mask, 0.0)
  {
    ActiveIsNonempty(mask);
    ExactTest(Normal(x, ActiveOf(mask)));
  }

  // ----- The algorithm -----

  /** The normal equations of the first `r` observations. */
  function NormalTo(x: Matrix, active: seq<nat>, r: nat): (m: Matrix)
    requires Design(x) && Ascending(active) && r <= |x|
    ensures Square(m, |active|)
    ensures forall i, j :: 0 <= i < |active| && 0 <= j < |active| ==>
              m[i][j] == DotTo(Column(x, active[i]), Column(x, active[j]), r)
  {
    seq(|active|, i requires 0 <= i < |active| =>
      seq(|active|, j requires 0 <= j < |active| => DotTo(Column(x, active[i]), Column(x, active[j]), r)))
  }

  function RhsTo(x: Matrix, y: Vec, active: seq<nat>, r: nat): (b: Vec)
    requires Design(x) && |y| == |x| && Ascending(active) && r <= |x|
    ensures |b| == |active| && forall i :: 0 <= i < |active| ==> b[i] == DotTo(Column(x, active[i]), y, r)
  {
    seq(|active|, i requires 0 <= i < |active| => DotTo(Column(x, active[i]), y, r))
  }

  method BuildNormal(x: Matrix, y: Vec, active: seq<nat>) returns (normal: Matrix, rhs: Vec)
    requires Design(x) && |y| == |x| && Ascending(active)
    ensures normal == Normal(x, active) && rhs == Rhs(x, y, active)
  {
    var k := |active|;
    normal := seq(k, _ => seq(k, _ => 0.0));
    rhs := seq(k, _ => 0.0);
    assert forall i :: 0 <= i < k ==> normal[i] == NormalTo(x, active, 0)[i];
    var r := 0;
    while r < |x|
      invariant 0 <= r <= |x|
      invariant normal == NormalTo(x, active, r) && rhs == RhsTo(x, y, active, r)
    {
      normal, rhs := AddRow(normal, rhs, x, y, active, r);
      r := r + 1;
    }
    assert forall i :: 0 <= i < k ==> normal[i] == Normal(x, active)[i];
  }

  /** Adds the contribution of observation `r` to the normal equations. */
  method AddRow(normal0: Matrix, rhs0: Vec, x: Matrix, y: Vec, active: seq<nat>, r: nat) returns (normal: Matrix, rhs: Vec)
    requires Design(x) && |y| == |x| && Ascending(active) && r < |x|
    requires normal0 == NormalTo(x, active, r) && rhs0 == RhsTo(x, y, active, r)
    ensures normal == NormalTo(x, active, r + 1) && rhs == RhsTo(x, y, active, r + 1)
  {
    normal, rhs := normal0, rhs0;
    ghost var normal1, rhs1 := NormalTo(x, active, r + 1), RhsTo(x, y, active, r + 1);
    var i := 0;
    while i < |active|
      invariant 0 <= i <= |active| && |normal| == |rhs| == |active|
      invariant forall p :: 0 <= p < i ==> normal[p] == normal1[p] && rhs[p] == rhs1[p]
      invariant forall p :: i <= p < |active| ==> normal[p] == normal0[p] && rhs[p] == rhs0[p]
    {
      rhs := rhs[i := rhs[i] + Product(x[r][active[i]], y[r])];
      var line := AddLine(normal[i], x[r], active, active[i]);
      RhsEntry(x, y, active, r, i);
      LineOfNormal(x, active, r, i, line);
      normal := normal[i := line];
      i := i + 1;
    }
  }

  lemma RhsEntry(x: Matrix, y: Vec, active: seq<nat>, r: nat, i: nat)
    requires Design(x) && |y| == |x| && Ascending(active) && r < |x| && i < |active|
    ensures RhsTo(x, y, active, r + 1)[i] == RhsTo(x, y, active, r)[i] + Product(x[r][active[i]], y[r])
  {
    var a := Column(x, active[i]);
    assert DotTo(a, y, r + 1) == DotTo(a, y, r) + a[r] * y[r];
  }

  lemma NormalEntry(x: Matrix, active: seq<nat>, r: nat, i: nat, j: nat)
    requires Design(x) && Ascending(active) && r < |x| && i < |active| && j < |active|
    ensures NormalTo(x, active, r + 1)[i][j] == NormalTo(x, active, r)[i][j] + Product(x[r][active[i]], x[r][active[j]])
  {
    var a, b := Column(x, active[i]), Column(x, active[j]);
    assert DotTo(a, b, r + 1) == DotTo(a, b, r) + a[r] * b[r];
  }

  lemma LineOfNormal(x: Matrix, active: seq<nat>, r: nat, i: nat, line: Vec)
    requires Design(x) && Ascending(active) && r < |x| && i < |active| && |line| == |active|
    requires forall j :: 0 <= j < |active| ==> line[j] == NormalTo(x, active, r)[i][j] + Product(x[r][active[i]], x[r][active[j]])
    ensures line == NormalTo(x, active, r + 1)[i]
  {
    forall j | 0 <= j < |active|
      ensures line[j] == NormalTo(x, active, r + 1)[i][j]
    {
      NormalEntry(x, active, r, i, j);
    }
  }

  method AddLine(line0: Vec, row: Vec, active: seq<nat>, c: nat) returns (line: Vec)
    requires |line0| == |active| && |row| == COEFFICIENTS && Ascending(active) && c < COEFFICIENTS
    ensures |line| == |active|
    ensures forall j :: 0 <= j < |active| ==> line[j] == line0[j] + Product(row[c], row[active[j]])
  {
    line := line0;
    var j := 0;
    while j < |active|
      invariant 0 <= j <= |active| && |line| == |active|
      invariant line[j..] == line0[j..]
      invariant forall q :: 0 <= q < j ==> line[q] == line0[q] + Product(row[c], row[active[q]])
    {
      line := line[j := line[j] + Product(row[c], row[active[j]])];
      j := j + 1;
    }
  }

  method SquaredError(x: Matrix, y: Vec, beta: Vec) returns (error: real)
    requires Design(x) && |y| == |x| && |beta| == COEFFICIENTS
    ensures error == Error(x, y, beta)
  {
    error := 0.0;
    ghost var res := Residual(x, y, beta);
    var r := 0;
    while r < |x|
      invariant 0 <= r <= |x|
      invariant error == DotTo(res, res, r)
    {
      var predicted := Dot(beta, x[r]);
      DotSymmetric(beta, x[r], COEFFICIENTS);
      assert res[r] == y[r] - predicted;
      error := error + (y[r] - predicted) * (y[r] - predicted);
      r := r + 1;
    }
  }

  method Place(active: seq<nat>, a: Vec) returns (beta: Vec)
    requires Ascending(active) && |a| == |active|
    ensures beta == Placed(active, Clipped(a)) && NonNegative(beta)
  {
    beta := [0.0, 0.0, 0.0];
    var i := 0;
    while i < |a|
      invariant 0 <= i <= |a| && beta == Embed(active, Clipped(a), i) && NonNegative(beta)
    {
      beta := beta[active[i] := if a[i] < 0.0 then 0.0 else a[i]];
      i := i + 1;
    }
  }

  /** Tries one face and takes its candidate if that is better. */
  method TryFace(x: Matrix, y: Vec, mask: nat, epsilon: real, tolerance: real, beta0: Vec, error0: real)
    returns (beta: Vec, error: real)
    requires Design(x) && |y| == |x| && 1 <= mask < 8
    requires |beta0| == COEFFICIENTS && error0 == Error(x, y, beta0)
    ensures beta == Better(x, y, beta0, Candidate(x, y, mask, epsilon, tolerance)) && error == Error(x, y, beta)
  {
    beta, error := beta0, error0;
    var active := ActiveOf(mask);
    ActiveIsNonempty(mask);
    var normal, rhs := BuildNormal(x, y, active);
    var solution := SolveLinear(normal, rhs, epsilon);
    if !solution.Solved? {
      return;
    }
    var a := solution.x;
    if exists i | 0 <= i < |a| :: a[i] < -tolerance {
      return;
    }
    var candidate := Place(active, a);
    var e := SquaredError(x, y, candidate);
    if e < error {
      error := e;
      beta := candidate;
    }
  }

  method TryFaces(x: Matrix, y: Vec, epsilon: real, tolerance: real) returns (beta: Vec)
    requires Design(x) && |y| == |x|
    ensures beta == Fit(x, y, epsilon, tolerance)
  {
    ghost var offers := Offers(x, y, epsilon, tolerance);
    beta := [0.0, 0.0, 0.0];
    ErrorOfZero(x, y);
    var error := Dot(y, y);
    var mask := 1;
    while mask < 8
      invariant 1 <= mask <= 8
      invariant beta == BestTo(x, y, offers, mask) && error == Error(x, y, beta)
    {
      beta, error := TryFace(x, y, mask, epsilon, tolerance, beta, error);
      mask := mask + 1;
    }
  }

  /**
   The result is feasible and never worse than zero. It is a global optimum whenever every face that the pivot
   test rejects really has a null vector, and with the exact threshold every rejected face has one.
   */
  method NonnegativeLeastSquares(x: Matrix, y: Vec, epsilon: real, tolerance: real) returns (r: Option<Vec>)
    requires tolerance >= 0.0
    ensures r == if x == [] || !Design(x) || |y| != |x| then None else Some(Fit(x, y, epsilon, tolerance))
    ensures r.Some? ==> |r.value| == COEFFICIENTS && NonNegative(r.value) && Error(x, y, r.value) <= Dot(y, y)
    ensures r.Some? && (forall mask :: 1 <= mask < 8 ==> Trusted(x, mask, epsilon)) ==> Optimal(x, y, r.value)
    ensures r.Some? && epsilon == 0.0 ==> Optimal(x, y, r.value)
  {
    if |x| == 0 || exists i | 0 <= i < |x| :: |x[i]| != COEFFICIENTS {
      return None;
    }
    if |x| != |y| {
      return None;
    }
    var beta := TryFaces(x, y, epsilon, tolerance);
    FitIsFeasible(x, y, epsilon, tolerance);
    if forall mask :: 1 <= mask < 8 ==> Trusted(x, mask, epsilon) {
      FitIsOptimal(x, y, epsilon, tolerance);
    }
    if epsilon == 0.0 {
      forall mask | 1 <= mask < 8
        ensures Trusted(x, mask, epsilon)
      {
        ExactIsTrusted(x, mask);
      }
      FitIsOptimal(x, y, epsilon, tolerance);
    }
    r := Some(beta);
  }

  // ----- Why the threshold matters -----

  /** Every entry of the first column is below the threshold. */
  predicate FirstColumnBelow(m: Matrix, epsilon: real) {
    forall i :: 0 <= i < |m| ==> |m[i]| > 0 && Abs(m[i][0]) < epsilon
  }

  lemma {:induction false} BestOfNothing(x: Matrix, y: Vec, offers: seq<Option<Vec>>, k: nat)
    requires Design(x) && |y| == |x| && AreOffers(offers) && 1 <= k <= 8
    requires forall m :: 1 <= m < k ==> offers[m].None?
    ensures BestTo(x, y, offers, k) == [0.0, 0.0, 0.0]
  {
    if k > 1 {
      BestOfNothing(x, y, offers, k - 1);
    }
  }

  lemma RejectedHasNoCandidate(x: Matrix, y: Vec, mask: nat, epsilon: real, tolerance: real)
    requires Design(x) && |y| == |x| && 1 <= mask < 8 && !Accepts(Normal(x, ActiveOf(mask)), epsilon)
    ensures Candidate(x, y, mask, epsilon, tolerance).None?
  {
    ActiveIsNonempty(mask);
    AnswerIsExact(Normal(x, ActiveOf(mask)), Rhs(x, y, ActiveOf(mask)), epsilon);
  }

  /** A single observation of 1 whose only nonzero regressor is `t`. */
  function TinyDesign(t: real): Matrix {
    [[t, 0.0, 0.0]]
  }

  lemma TinyNormal(t: real, epsilon: real, mask: nat)
    requires 0.0 < t && t * t < epsilon && 1 <= mask < 8
    ensures FirstColumnBelow(Normal(TinyDesign(t), ActiveOf(mask)), epsilon)
  {
    var x, active := TinyDesign(t), ActiveOf(mask);
    ActiveIsNonempty(mask);
    var product := PositiveProduct(t, t);
    var m := Normal(x, active);
    forall i | 0 <= i < |m|
      ensures |m[i]| > 0 && Abs(m[i][0]) < epsilon
    {
      var a, b := Column(x, active[i]), Column(x, active[0]);
      DotOfOne(a, b, 0, 1);
      assert a[0] == if active[i] == 0 then t else 0.0;
      assert b[0] == if active[0] == 0 then t else 0.0;
      assert m[i][0] == product || m[i][0] == 0.0;
    }
  }

  lemma TinyIsRejected(t: real, epsilon: real, mask: nat)
    requires 0.0 < t && t * t < epsilon && 1 <= mask < 8
    ensures !Accepts(Normal(TinyDesign(t), ActiveOf(mask)), epsilon)
  {
    TinyNormal(t, epsilon, mask);
    ActiveIsNonempty(mask);
    SmallColumnIsRejected(Normal(TinyDesign(t), ActiveOf(mask)), epsilon);
  }

  lemma TinyFitIsZero(t: real, epsilon: real, tolerance: real)
    requires 0.0 < t && t * t < epsilon
    ensures Fit(TinyDesign(t), [1.0], epsilon, tolerance) == [0.0, 0.0, 0.0]
  {
    var x, y := TinyDesign(t), [1.0];
    var offers := Offers(x, y, epsilon, tolerance);
    forall mask | 1 <= mask < 8
      ensures offers[mask].None?
    {
      TinyIsRejected(t, epsilon, mask);
      RejectedHasNoCandidate(x, y, mask, epsilon, tolerance);
    }
    BestOfNothing(x, y, offers, 8);
  }

  lemma TinyErrors(t: real)
    requires 0.0 < t
    ensures Error(TinyDesign(t), [1.0], [0.0, 0.0, 0.0]) == 1.0
    ensures Error(TinyDesign(t), [1.0], [1.0 / t, 0.0, 0.0]) == 0.0
  {
    var x, y, beta := TinyDesign(t), [1.0], [1.0 / t, 0.0, 0.0];
    ErrorOfZero(x, y);
    DotOfOne(y, y, 0, 1);
    DotOfOne(x[0], beta, 0, COEFFICIENTS);
    assert t * (1.0 / t) == 1.0;
    var res := Residual(x, y, beta);
    assert res[0] == 0.0;
    DotOfZeros(res, res, 1);
  }

  lemma TinyZeroIsBeaten(t: real)
    requires 0.0 < t
    ensures !Optimal(TinyDesign(t), [1.0], [0.0, 0.0, 0.0])
  {
    var better := [1.0 / t, 0.0, 0.0];
    TinyErrors(t);
    assert t * better[0] == 1.0;
    assert NonNegative(better);
  }

  /** For every positive threshold the optimum of a small enough design is missed. */
  method MissTinyOptimum(t: real, epsilon: real, tolerance: real) returns (beta: Vec)
    requires 0.0 < t && t * t < epsilon && tolerance >= 0.0
    ensures beta == [0.0, 0.0, 0.0] && !Optimal(TinyDesign(t), [1.0], beta)
  {
    TinyFitIsZero(t, epsilon, tolerance);
    TinyZeroIsBeaten(t);
    var r := NonnegativeLeastSquares(TinyDesign(t), [1.0], epsilon, tolerance);
    beta := r.value;
  }
}
