/**
 When the threshold is harmless. For a design without a null vector all observations are fitted optimally if
 and only if the pivot test accepts every face: a rejected face is the support of some unique optimum that no
 other face can offer.
 */
module NnlsExact {
  import opened Prelude
  import opened LinearSolve
  import opened Nnls

  const ALL: seq<nat> := [0, 1, 2]

  function Gram(x: Matrix): (g: Matrix)
    requires Design(x)
    ensures Square(g, COEFFICIENTS)
    ensures forall i, j :: 0 <= i < COEFFICIENTS && 0 <= j < COEFFICIENTS ==> g[i][j] == Dot(Column(x, i), Column(x, j))
  {
    Normal(x, ALL)
  }

  /** The list of all columns, each in its own place. */
  predicate Identity(active: seq<nat>) {
    |active| == COEFFICIENTS && Ascending(active) && forall i :: 0 <= i < COEFFICIENTS ==> active[i] == i
  }

  lemma IdentityRow(x: Matrix, active: seq<nat>, v: Vec, j: nat)
    requires Design(x) && Identity(active) && |v| == COEFFICIENTS && j < COEFFICIENTS
    ensures Dot(Normal(x, active)[j], v) == Dot(Column(x, j), Apply(x, v))
  {
    var p := Placed(active, v);
    forall i | 0 <= i < COEFFICIENTS
      ensures p[i] == v[i]
    {
      assert p[active[i]] == v[i];
    }
    assert p == v;
    NormalRow(x, active, v, j);
  }

  /** A row of the Gram matrix against a vector is its column against the predictions. */
  lemma GramRow(x: Matrix, v: Vec, j: nat)
    requires Design(x) && |v| == COEFFICIENTS && j < COEFFICIENTS
    ensures Dot(Gram(x)[j], v) == Dot(Column(x, j), Apply(x, v))
  {
    IdentityRow(x, ALL, v, j);
  }

  /** Without a null vector, only zero predicts zero. */
  lemma PredictionIsPositive(x: Matrix, d: Vec, j: nat)
    requires Design(x) && !HasNull(Gram(x)) && |d| == COEFFICIENTS && j < COEFFICIENTS && d[j] != 0.0
    ensures Dot(Apply(x, d), Apply(x, d)) > 0.0
  {
    var p, g := Apply(x, d), Gram(x);
    NormIsPositive(p, |p|);
    if Dot(p, p) <= 0.0 {
      forall i | 0 <= i < COEFFICIENTS
        ensures Dot(g[i], d) == 0.0
      {
        GramRow(x, d, i);
        DotOfZeros(Column(x, i), p, |x|);
      }
      assert IsNull(g, d);
    }
  }

  // ----- Observations for a face -----

  /** Ones on the face and zeros elsewhere. */
  function Ones(mask: nat): (v: Vec)
    ensures |v| == COEFFICIENTS && forall j :: 0 <= j < COEFFICIENTS ==> v[j] == if Bit(mask, j) then 1.0 else 0.0
  {
    seq(COEFFICIENTS, j requires 0 <= j < COEFFICIENTS => if Bit(mask, j) then 1.0 else 0.0)
  }

  /** What the residual is to be against each column: nothing on the face, `-k` elsewhere. */
  function Pull(mask: nat, k: real): (g: Vec)
    ensures |g| == COEFFICIENTS && forall j :: 0 <= j < COEFFICIENTS ==> g[j] == if Bit(mask, j) then 0.0 else -k
  {
    seq(COEFFICIENTS, j requires 0 <= j < COEFFICIENTS => if Bit(mask, j) then 0.0 else -k)
  }

  /** `c` predicts a residual with the wanted pull. */
  ghost predicate Pulls(x: Matrix, mask: nat, k: real, c: Vec)
    requires Design(x)
  {
    |c| == COEFFICIENTS && Transposed(x, Apply(x, c)) == Pull(mask, k)
  }

  lemma PullExists(x: Matrix, mask: nat, k: real) returns (c: Vec)
    requires Design(x) && !HasNull(Gram(x))
    ensures Pulls(x, mask, k, c)
  {
    var g, pull := Gram(x), Pull(mask, k);
    AnswerIsExact(g, pull, 0.0);
    c := Answer(g, pull, 0.0).x;
    forall j | 0 <= j < COEFFICIENTS
      ensures Transposed(x, Apply(x, c))[j] == pull[j]
    {
      assert Dot(g[j], c) == pull[j];
      GramRow(x, c, j);
    }
  }

  /** Observations that ones on the face predict, up to that residual. */
  function Observed(x: Matrix, mask: nat, c: Vec): (y: Vec)
    requires Design(x) && |c| == COEFFICIENTS
    ensures |y| == |x|
  {
    Apply(x, Reduced(Ones(mask), -1.0, c))
  }

  lemma ResidualAtOnes(x: Matrix, mask: nat, c: Vec)
    requires Design(x) && |c| == COEFFICIENTS
    ensures Residual(x, Observed(x, mask, c), Ones(mask)) == Apply(x, c)
  {
    var y, p, q := Observed(x, mask, c), Apply(x, Ones(mask)), Apply(x, c);
    ApplyReduced(x, Ones(mask), -1.0, c);
    forall r | 0 <= r < |x|
      ensures Residual(x, y, Ones(mask))[r] == q[r]
    {
      assert y[r] == p[r] - (-1.0) * q[r];
    }
  }

  // ----- Ones are the only optimum -----

  lemma PullIsCostly(mask: nat, k: real, b: Vec, d: Vec)
    requires k >= 0.0 && |b| == COEFFICIENTS && NonNegative(b) && d == Reduced(Ones(mask), 1.0, b)
    ensures Dot(d, Pull(mask, k)) >= 0.0
  {
    var g := Pull(mask, k);
    forall j | 0 <= j < COEFFICIENTS
      ensures Term(d[j], g[j]) >= 0.0
    {
      if !Bit(mask, j) {
        assert d[j] == -b[j] && g[j] == -k;
        TermIsNonNegative(b[j], k);
      }
    }
    assert DotTo(d, g, 1) == DotTo(d, g, 0) + Term(d[0], g[0]);
    assert DotTo(d, g, 2) == DotTo(d, g, 1) + Term(d[1], g[1]);
    assert DotTo(d, g, 3) == DotTo(d, g, 2) + Term(d[2], g[2]);
  }

  function Term(a: real, b: real): real {
    a * b
  }

  lemma TermIsNonNegative(b: real, k: real)
    requires b >= 0.0 && k >= 0.0
    ensures Term(-b, -k) >= 0.0
  {
    assert Term(-b, -k) == b * k;
  }

  /** The cost of moving from ones to `b`. */
  lemma ErrorFromOnes(x: Matrix, mask: nat, c: Vec, b: Vec, d: Vec)
    requires Design(x) && |c| == |b| == COEFFICIENTS && d == Reduced(Ones(mask), 1.0, b)
    ensures var y := Observed(x, mask, c);
      Error(x, y, b) == Error(x, y, Ones(mask)) + 2.0 * Dot(d, Transposed(x, Apply(x, c))) + Dot(Apply(x, d), Apply(x, d))
  {
    var y, ones, res, p := Observed(x, mask, c), Ones(mask), Apply(x, c), Apply(x, d);
    ResidualAtOnes(x, mask, c);
    Adjoint(x, d, res);
    DotSymmetric(res, p, |x|);
    ErrorOfShift(x, y, ones, 1.0, d);
    assert Reduced(ones, 1.0, d) == b;
  }

  /** Moving from ones to any other feasible point makes the error larger. */
  lemma OnesAreBetter(x: Matrix, mask: nat, k: real, c: Vec, b: Vec)
    requires Design(x) && !HasNull(Gram(x)) && k >= 0.0 && Pulls(x, mask, k, c)
    requires |b| == COEFFICIENTS && NonNegative(b) && b != Ones(mask)
    ensures Error(x, Observed(x, mask, c), Ones(mask)) < Error(x, Observed(x, mask, c), b)
  {
    var d := Reduced(Ones(mask), 1.0, b);
    var j :| 0 <= j < COEFFICIENTS && b[j] != Ones(mask)[j];
    PredictionIsPositive(x, d, j);
    PullIsCostly(mask, k, b, d);
    ErrorFromOnes(x, mask, c, b, d);
  }

  lemma OthersAreNotOptimal(x: Matrix, mask: nat, k: real, c: Vec, b: Vec)
    requires Design(x) && !HasNull(Gram(x)) && k >= 0.0 && Pulls(x, mask, k, c)
    requires |b| == COEFFICIENTS && b != Ones(mask)
    ensures !Optimal(x, Observed(x, mask, c), b)
  {
    if NonNegative(b) {
      OnesAreBetter(x, mask, k, c, b);
      assert NonNegative(Ones(mask));
    }
  }

  // ----- No other face offers ones -----

  function AbsSum(row: Vec, k: nat): (s: real)
    requires k <= |row|
    ensures s >= 0.0
  {
    if k == 0 then 0.0 else AbsSum(row, k - 1) + Abs(row[k - 1])
  }

  lemma TermIsMonotone(a: real, p: real, q: real)
    requires a >= 0.0 && p <= q
    ensures Term(a, p) <= Term(a, q)
  {
    var gap := q - p;
    assert a * gap >= 0.0;
    assert a * q == a * p + a * gap;
  }

  lemma TermIsBounded(a: real, d: real, t: real)
    requires Abs(d) <= t
    ensures Abs(Term(a, d)) <= Term(Abs(a), t)
  {
    var m := Abs(a);
    TermIsMonotone(m, d, t);
    TermIsMonotone(m, -t, d);
    assert Term(m, -t) == -Term(m, t);
    assert Term(m, d) == Term(a, d) || Term(m, d) == -Term(a, d);
  }

  lemma TermDistributes(a: real, b: real, t: real)
    ensures Term(a + b, t) == Term(a, t) + Term(b, t)
  {
  }

  lemma BoundsAdd(u: real, v: real, p: real, q: real)
    requires Abs(u) <= p && Abs(v) <= q
    ensures Abs(u + v) <= p + q
  {
  }

  lemma {:induction false} DotIsBounded(row: Vec, d: Vec, t: real, k: nat)
    requires |row| == |d| && k <= |d| && forall i :: 0 <= i < |d| ==> Abs(d[i]) <= t
    ensures Abs(DotTo(row, d, k)) <= Term(AbsSum(row, k), t)
  {
    if k > 0 {
      var u, v, s := DotTo(row, d, k - 1), Term(row[k - 1], d[k - 1]), AbsSum(row, k - 1);
      DotIsBounded(row, d, t, k - 1);
      TermIsBounded(row[k - 1], d[k - 1], t);
      TermDistributes(s, Abs(row[k - 1]), t);
      BoundsAdd(u, v, Term(s, t), Term(Abs(row[k - 1]), t));
    } else {
      assert Term(0.0, t) == 0.0;
    }
  }

  /** A pull that clipping within the tolerance cannot hide. */
  function Strength(x: Matrix, tolerance: real): (k: real)
    requires Design(x) && tolerance >= 0.0
    ensures k >= 1.0
    ensures forall j :: 0 <= j < COEFFICIENTS ==> k >= 1.0 + Term(AbsSum(Gram(x)[j], COEFFICIENTS), tolerance)
  {
    var g := Gram(x);
    var a, b, c := AbsSum(g[0], COEFFICIENTS), AbsSum(g[1], COEFFICIENTS), AbsSum(g[2], COEFFICIENTS);
    assert Term(a, tolerance) >= 0.0 && Term(b, tolerance) >= 0.0 && Term(c, tolerance) >= 0.0;
    1.0 + Term(a, tolerance) + Term(b, tolerance) + Term(c, tolerance)
  }

  lemma ShiftBack(a: Vec, b: Vec, d: Vec)
    requires |a| == |b| && d == Reduced(b, 1.0, a)
    ensures Reduced(a, -1.0, d) == b
  {
    forall i | 0 <= i < |a|
      ensures Reduced(a, -1.0, d)[i] == b[i]
    {
      assert d[i] == b[i] - 1.0 * a[i];
    }
  }

  /** Shifting ones by `d` to a face solution turns the pull into a row of the Gram matrix. */
  lemma PullAtSolution(x: Matrix, mask: nat, k: real, c: Vec, active: seq<nat>, a: Vec, d: Vec, i: nat)
    requires Design(x) && Pulls(x, mask, k, c) && Ascending(active) && |a| == |active| && i < |a|
    requires Solves(Normal(x, active), a, Rhs(x, Observed(x, mask, c), active))
    requires d == Reduced(Placed(active, a), 1.0, Ones(mask))
    ensures Dot(Gram(x)[active[i]], d) == Pull(mask, k)[active[i]]
  {
    var y, ones, e, j := Observed(x, mask, c), Ones(mask), Placed(active, a), active[i];
    var col := Column(x, j);
    assert Dot(Normal(x, active)[i], a) == Rhs(x, y, active)[i];
    NormalEquationAt(x, y, active, a, i);
    ShiftBack(ones, e, d);
    ShiftedResidual(x, y, ones, -1.0, d);
    ResidualAtOnes(x, mask, c);
    DotReducedRight(col, Apply(x, c), 1.0, Apply(x, d));
    GramRow(x, d, j);
    assert Transposed(x, Apply(x, c))[j] == Dot(col, Apply(x, c));
  }

  /** If clipping yields ones, the solution differs from ones by no more than the tolerance. */
  lemma ClippedToOnes(mask: nat, active: seq<nat>, a: Vec, tolerance: real, d: Vec)
    requires Ascending(active) && |a| == |active| && tolerance >= 0.0
    requires (forall i :: 0 <= i < |a| ==> a[i] >= -tolerance) && Placed(active, Clipped(a)) == Ones(mask)
    requires d == Reduced(Placed(active, a), 1.0, Ones(mask))
    ensures forall j :: 0 <= j < COEFFICIENTS ==> Abs(d[j]) <= tolerance
  {
    var e, b := Placed(active, a), Placed(active, Clipped(a));
    forall j | 0 <= j < COEFFICIENTS
      ensures Abs(d[j]) <= tolerance
    {
      assert d[j] == e[j] - b[j];
      if j in active {
        var i :| 0 <= i < |active| && active[i] == j;
        assert e[j] == a[i] && b[j] == Clipped(a)[i];
      } else {
        assert e[j] == 0.0 && b[j] == 0.0;
      }
    }
  }

  /** A column of the one face that is not in the other. */
  lemma MasksDiffer(m: nat, m': nat) returns (j: nat)
    requires m < 8 && m' < 8 && m != m'
    ensures j < COEFFICIENTS && Bit(m, j) != Bit(m', j)
  {
    j := if Bit(m, 0) != Bit(m', 0) then 0 else if Bit(m, 1) != Bit(m', 1) then 1 else 2;
  }

  /** A solution on a larger face cannot be clipped to ones. */
  lemma LargerFaceMissesOnes(x: Matrix, mask: nat, c: Vec, active: seq<nat>, a: Vec, tolerance: real, i: nat)
    requires Design(x) && tolerance >= 0.0 && Pulls(x, mask, Strength(x, tolerance), c)
    requires Ascending(active) && |a| == |active| && i < |a| && !Bit(mask, active[i])
    requires Solves(Normal(x, active), a, Rhs(x, Observed(x, mask, c), active))
    requires forall l :: 0 <= l < |a| ==> a[l] >= -tolerance
    ensures Placed(active, Clipped(a)) != Ones(mask)
  {
    if Placed(active, Clipped(a)) == Ones(mask) {
      var k, j, d := Strength(x, tolerance), active[i], Reduced(Placed(active, a), 1.0, Ones(mask));
      PullAtSolution(x, mask, k, c, active, a, d, i);
      ClippedToOnes(mask, active, a, tolerance, d);
      DotIsBounded(Gram(x)[j], d, tolerance, COEFFICIENTS);
    }
  }

  lemma OtherFaceMissesOnes(x: Matrix, mask: nat, c: Vec, other: nat, epsilon: real, tolerance: real)
    requires Design(x) && tolerance >= 0.0 && Pulls(x, mask, Strength(x, tolerance), c)
    requires mask < 8 && 1 <= other < 8 && other != mask
    ensures Candidate(x, Observed(x, mask, c), other, epsilon, tolerance) != Some(Ones(mask))
  {
    var y, active := Observed(x, mask, c), ActiveOf(other);
    var normal, rhs := Normal(x, active), Rhs(x, y, active);
    var offer := Candidate(x, y, other, epsilon, tolerance);
    if offer.Some? {
      ActiveIsNonempty(other);
      AnswerIsExact(normal, rhs, epsilon);
      var a := Answer(normal, rhs, epsilon).x;
      var j := MasksDiffer(mask, other);
      if Bit(other, j) {
        var i :| 0 <= i < |active| && active[i] == j;
        LargerFaceMissesOnes(x, mask, c, active, a, tolerance, i);
      } else {
        assert Placed(active, Clipped(a))[j] == 0.0;
      }
    }
  }

  // ----- Exactly when -----

  lemma {:induction false} BestIsZeroOrOffer(x: Matrix, y: Vec, offers: seq<Option<Vec>>, k: nat)
    requires Design(x) && |y| == |x| && AreOffers(offers) && 1 <= k <= 8
    ensures var b := BestTo(x, y, offers, k);
      b == [0.0, 0.0, 0.0] || exists m :: 1 <= m < k && offers[m] == Some(b)
  {
    if k > 1 {
      BestIsZeroOrOffer(x, y, offers, k - 1);
      var b, earlier := BestTo(x, y, offers, k), BestTo(x, y, offers, k - 1);
      if b == earlier && b != [0.0, 0.0, 0.0] {
        var m :| 1 <= m < k - 1 && offers[m] == Some(b);
      }
    }
  }

  /** If a face is rejected, the observations made for it are not fitted optimally. */
  lemma RejectionIsHarmful(x: Matrix, mask: nat, epsilon: real, tolerance: real) returns (y: Vec)
    requires Design(x) && !HasNull(Gram(x)) && tolerance >= 0.0
    requires 1 <= mask < 8 && !Accepts(Normal(x, ActiveOf(mask)), epsilon)
    ensures |y| == |x| && !Optimal(x, y, Fit(x, y, epsilon, tolerance))
  {
    var k := Strength(x, tolerance);
    var c := PullExists(x, mask, k);
    y := Observed(x, mask, c);
    var offers, ones := Offers(x, y, epsilon, tolerance), Ones(mask);
    forall m | 1 <= m < 8
      ensures offers[m] != Some(ones)
    {
      if m == mask {
        RejectedHasNoCandidate(x, y, m, epsilon, tolerance);
      } else {
        OtherFaceMissesOnes(x, mask, c, m, epsilon, tolerance);
      }
    }
    BestIsZeroOrOffer(x, y, offers, 8);
    var j := MasksDiffer(mask, 0);
    assert ones[j] == 1.0;
    OthersAreNotOptimal(x, mask, k, c, BestTo(x, y, offers, 8));
  }

  ghost predicate AlwaysOptimal(x: Matrix, epsilon: real, tolerance: real)
    requires Design(x)
  {
    forall y :: |y| == |x| ==> Optimal(x, y, Fit(x, y, epsilon, tolerance))
  }

  /**
   For a design without a null vector, all observations are fitted optimally if and only if the pivot test
   accepts the normal matrix of every face.
   */
  lemma OptimalExactly(x: Matrix, epsilon: real, tolerance: real)
    requires Design(x) && !HasNull(Gram(x)) && tolerance >= 0.0
    ensures AlwaysOptimal(x, epsilon, tolerance)
       <==> forall mask :: 1 <= mask < 8 ==> Accepts(Normal(x, ActiveOf(mask)), epsilon)
  {
    if forall mask :: 1 <= mask < 8 ==> Accepts(Normal(x, ActiveOf(mask)), epsilon) {
      forall y | |y| == |x|
        ensures Optimal(x, y, Fit(x, y, epsilon, tolerance))
      {
        FitIsOptimal(x, y, epsilon, tolerance);
      }
    } else {
      var mask :| 1 <= mask < 8 && !Accepts(Normal(x, ActiveOf(mask)), epsilon);
      var y := RejectionIsHarmful(x, mask, epsilon, tolerance);
    }
  }

  // ----- Designs with a null vector -----

  /** One observation whose second regressor is twice the first. */
  const DOUBLED: Matrix := [[1.0, 2.0, 0.0]]

  lemma DoubledNormal(mask: nat, j: nat, n: real)
    requires (mask == 1 && j == 0 && n == 1.0) || (mask == 2 && j == 1 && n == 4.0)
    ensures ActiveOf(mask) == [j] && Normal(DOUBLED, [j])[0][0] == n
  {
    var c := Column(DOUBLED, j);
    DotOfOne(c, c, 0, 1);
  }

  lemma OneEntry(m: Matrix, v: Vec)
    requires Square(m, 1) && |v| == 1
    ensures Dot(m[0], v) == m[0][0] * v[0]
  {
    DotOfOne(m[0], v, 0, 1);
  }

  lemma FirstFaceIsNotTrusted()
    ensures !Trusted(DOUBLED, 1, 2.0)
  {
    DoubledNormal(1, 0, 1.0);
    var m := Normal(DOUBLED, [0]);
    SmallColumnIsRejected(m, 2.0);
    if HasNull(m) {
      var v :| IsNull(m, v);
      assert |m[0]| == |v|;
      OneEntry(m, v);
    }
  }

  lemma OneEntryIsAccepted(m: Matrix, epsilon: real)
    requires Square(m, 1) && Passes(m[0][0], epsilon)
    ensures Accepts(m, epsilon)
  {
    var a := Augment(m, Zeros(1));
    var p := Largest(a, 1, 0);
    assert p == 0 && a[0][0] == m[0][0];
    assert PivotsPass(Pivoted(a, 1, 0, 0), 1, 1, epsilon);
  }

  /** The second face is accepted and solved. */
  lemma SecondFaceSolves(v: real) returns (a: Vec)
    ensures Answer(Normal(DOUBLED, [1]), Rhs(DOUBLED, [v], [1]), 2.0) == Solved(a)
    ensures |a| == 1 && 2.0 * a[0] == v
  {
    var m, b := Normal(DOUBLED, [1]), Rhs(DOUBLED, [v], [1]);
    DoubledNormal(2, 1, 4.0);
    OneEntryIsAccepted(m, 2.0);
    DotOfOne(Column(DOUBLED, 1), [v], 0, 1);
    AnswerIsExact(m, b, 2.0);
    a := Answer(m, b, 2.0).x;
    assert Dot(m[0], a) == b[0];
    OneEntry(m, a);
  }

  lemma SecondFaceError(v: real, active: seq<nat>, a: Vec)
    requires Ascending(active) && |active| == |a| == 1 && active[0] == 1 && 2.0 * a[0] == v
    ensures Error(DOUBLED, [v], Placed(active, a)) == 0.0
  {
    var beta := Placed(active, a);
    assert beta[active[0]] == a[0];
    DotOfOne(DOUBLED[0], beta, 1, COEFFICIENTS);
    var res := Residual(DOUBLED, [v], beta);
    assert res[0] == v - 2.0 * a[0];
    DotOfZeros(res, res, 1);
  }

  /** For an observation that is not negative the second face fits exactly. */
  lemma SecondFaceFits(v: real, tolerance: real)
    requires v >= 0.0 && tolerance >= 0.0
    ensures var c := Candidate(DOUBLED, [v], 2, 2.0, tolerance); c.Some? && Error(DOUBLED, [v], c.value) == 0.0
  {
    DoubledNormal(2, 1, 4.0);
    var a := SecondFaceSolves(v);
    assert Clipped(a) == a;
    SecondFaceError(v, [1], a);
  }

  /** A negative observation is fitted best by zero. */
  lemma ZeroFits(v: real, other: Vec)
    requires v <= 0.0 && |other| == COEFFICIENTS && NonNegative(other)
    ensures Dot([v], [v]) <= Error(DOUBLED, [v], other)
  {
    var res := Residual(DOUBLED, [v], other);
    var s := DotTo(DOUBLED[0], other, 3);
    assert DotTo(DOUBLED[0], other, 1) == 1.0 * other[0];
    assert DotTo(DOUBLED[0], other, 2) == other[0] + 2.0 * other[1];
    assert s == other[0] + 2.0 * other[1] + 0.0 * other[2];
    DotOfOne([v], [v], 0, 1);
    DotOfOne(res, res, 0, 1);
    assert res[0] == v - s;
    FurtherIsWorse(v, s);
  }

  lemma FurtherIsWorse(v: real, s: real)
    requires v <= 0.0 <= s
    ensures v * v <= (v - s) * (v - s)
  {
    assert (v - s) * (v - s) == v * v - 2.0 * v * s + s * s;
    assert v * s <= 0.0;
    assert s * s >= 0.0;
  }

  /** With a null vector the condition is sufficient but not necessary: a dependent column can stand in. */
  lemma TrustIsNotNecessary(tolerance: real)
    requires tolerance >= 0.0
    ensures !Trusted(DOUBLED, 1, 2.0) && AlwaysOptimal(DOUBLED, 2.0, tolerance)
  {
    FirstFaceIsNotTrusted();
    forall y | |y| == |DOUBLED|
      ensures Optimal(DOUBLED, y, Fit(DOUBLED, y, 2.0, tolerance))
    {
      assert y == [y[0]];
      DoubledIsOptimal(y[0], tolerance);
    }
  }

  lemma DoubledIsOptimal(v: real, tolerance: real)
    requires tolerance >= 0.0
    ensures Optimal(DOUBLED, [v], Fit(DOUBLED, [v], 2.0, tolerance))
  {
    var y := [v];
    var fit := Fit(DOUBLED, y, 2.0, tolerance);
    FitIsFeasible(DOUBLED, y, 2.0, tolerance);
    if v >= 0.0 {
      SecondFaceFits(v, tolerance);
      BestBeatsOffer(DOUBLED, y, Offers(DOUBLED, y, 2.0, tolerance), 8, 2);
    }
    forall other | |other| == COEFFICIENTS && NonNegative(other)
      ensures Error(DOUBLED, y, fit) <= Error(DOUBLED, y, other)
    {
      var res := Residual(DOUBLED, y, other);
      NormIsPositive(res, |res|);
      if v < 0.0 {
        ZeroFits(v, other);
      }
    }
  }
}
