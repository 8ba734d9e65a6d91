/** What one step of the Levenberg-Marquardt solver achieves. */
module SolverSteps {
  import opened Matrices
  import opened GaussJordan
  import opened LeastSquares

  // ---- the step solves the normal equations ----------------------------------------------

  /** The matrix of the normal equations: products of columns of the Jacobian, and lambda more
      on the diagonal. */
  function NormalMatrix(j: Matrix, m: nat, n: nat, lambda: real): (a: Matrix)
    requires Shape(j, m, n)
    ensures Shape(a, n, n)
  {
    seq(n, r requires 0 <= r < n => seq(n, c requires 0 <= c < n =>
      Dot(Column(j, m, r), Column(j, m, c), m) + lambda * Delta(r, c)))
  }

  lemma DampedIsNormal(j: Matrix, m: nat, n: nat, lambda: real)
    requires Shape(j, m, n)
    ensures Damped(Product(Transposed(j, m, n), j, n, m, n), n, lambda) == NormalMatrix(j, m, n, lambda)
  {
    hide Dot;
    var d, a := Damped(Product(Transposed(j, m, n), j, n, m, n), n, lambda), NormalMatrix(j, m, n, lambda);
    forall r | 0 <= r < n ensures d[r] == a[r] {
      forall c | 0 <= c < n ensures d[r][c] == a[r][c] {
        assert lambda * Delta(r, c) == if r == c then lambda else 0.0;
      }
    }
  }

  /** B times x solves A y = x when B is the inverse of A. */
  lemma InverseSolves(a: Matrix, b: Matrix, x: Row, n: nat, r: nat)
    requires Shape(a, n, n) && Shape(b, n, n) && |x| == n && r < n && IsInverse(a, b, n)
    ensures Dot(a[r], Applied(b, x, n, n), n) == x[r]
  {
    hide Dot;
    DotAssociative(a[r], b, x, Unit(n, r), Applied(b, x, n, n), n, n, n);
    DotUnit(n, r, x, n);
  }

  lemma DotOfNegated(x: Row, y: Row, z: Row, n: nat)
    requires n <= |x| && n <= |y| && n <= |z| && forall i | 0 <= i < n :: z[i] == -y[i]
    ensures Dot(x, z, n) == -Dot(x, y, n)
  {
    DotSymmetric(x, z, n);
    assert forall i | 0 <= i < n :: z[i] == -1.0 * y[i];
    DotScaled(z, y, -1.0, x, n);
    DotSymmetric(y, x, n);
  }

  function Difference(q: Row, p: Row): (d: Row)
    requires |q| == |p|
    ensures |d| == |p|
  {
    seq(|p|, i requires 0 <= i < |p| => q[i] - p[i])
  }

  /** Unless the elimination is regularised, the step from p to the proposed q solves
      (J^T J + lambda I) (q - p) = -J^T r exactly. */
  lemma StepSolvesNormalEquations(cost: Cost, p: Row, res: Row, lambda: real, r: nat)
    requires IsCost(cost, |p|, |res|) && r < |p|
    requires !Regularises(Augmented(NormalMatrix(JacobianOf(cost, p, res), |res|, |p|, lambda)), |p|, 0)
    ensures var n, m := |p|, |res|; var j := JacobianOf(cost, p, res);
            Dot(NormalMatrix(j, m, n, lambda)[r], Difference(Proposed(cost, p, res, lambda), p), n)
            == -Dot(Column(j, m, r), res, m)
  {
    hide Dot, Inverted, JacobianOf, Regularises, NormalMatrix;
    var n, m := |p|, |res|;
    var j := JacobianOf(cost, p, res);
    var jt := Transposed(j, m, n);
    var a := NormalMatrix(j, m, n, lambda);
    DampedIsNormal(j, m, n, lambda);
    var a' := InvertsExactlyUnlessRegularised(a);
    var g := Applied(jt, res, n, m);
    var delta := Applied(Inverted(a), g, n, n);
    InverseSolves(a, Inverted(a), g, n, r);
    hide Applied, Transposed, Product, Damped, Column;
    GradientEntry(j, m, n, res, r);
    DotOfNegated(a[r], delta, Difference(Proposed(cost, p, res, lambda), p), n);
  }

  lemma GradientEntry(j: Matrix, m: nat, n: nat, res: Row, r: nat)
    requires Shape(j, m, n) && |res| == m && r < n
    ensures Applied(Transposed(j, m, n), res, n, m)[r] == Dot(Column(j, m, r), res, m)
  {
  }

  // ---- affine residuals ----------------------------------------------------------------------

  /** The residuals are a p + b. */
  ghost predicate Affine(cost: Cost, a: Matrix, b: Row, m: nat, n: nat) {
    && Shape(a, m, n) && |b| == m && m > 0
    && forall p: Row | |p| == n :: |cost(p)| == m && forall i | 0 <= i < m :: cost(p)[i] == Dot(a[i], p, n) + b[i]
  }

  /** For affine residuals the forward differences are the exact Jacobian. */
  lemma JacobianOfAffine(cost: Cost, a: Matrix, b: Row, m: nat, n: nat, p: Row)
    requires Affine(cost, a, b, m, n) && |p| == n
    ensures JacobianOf(cost, p, cost(p)) == a
  {
    hide Dot;
    var j := JacobianOf(cost, p, cost(p));
    forall i | 0 <= i < m ensures j[i] == a[i] {
      forall k | 0 <= k < n ensures j[i][k] == a[i][k] {
        var q := p[k := p[k] + H];
        DotUpdateRight(a[i], p, k, p[k] + H, n);
        assert cost(q)[i] - cost(p)[i] == a[i][k] * (p[k] + H - p[k]) == a[i][k] * H;
      }
    }
  }

  /** In general they are off by terms of the order of 1e-8, as here: the residual x^2 has the
      derivative 2x. */
  lemma JacobianOfSquare(x: real)
    ensures JacobianOf(p => if |p| == 1 then [p[0] * p[0]] else [0.0], [x], [x * x]) == [[2.0 * x + 0.00000001]]
  {
    var cost: Cost := p => if |p| == 1 then [p[0] * p[0]] else [0.0];
    var y := x + 0.00000001;
    assert [x][0 := y] == [y];
    assert y * y - x * x == (2.0 * x + 0.00000001) * 0.00000001;
    var j := JacobianOf(cost, [x], [x * x]);
    assert j[0][0] == (y * y - x * x) / 0.00000001 == 2.0 * x + 0.00000001;
    assert j[0] == [2.0 * x + 0.00000001];
  }

  // ---- and there the step descends -------------------------------------------------------------

  /** (d^T A^T) z = (A d)^T z. */
  lemma TransposeMoves(a: Matrix, m: nat, n: nat, d: Row, z: Row, u: Row)
    requires Shape(a, m, n) && |d| == n && |z| == m && |u| == n
    requires forall c | 0 <= c < n :: u[c] == Dot(Column(a, m, c), z, m)
    ensures Dot(u, d, n) == Dot(z, Applied(a, d, m, n), m)
  {
    hide Dot;
    forall c | 0 <= c < n ensures u[c] == Dot(z, Column(a, m, c), m) {
      DotSymmetric(Column(a, m, c), z, m);
    }
    DotAssociative(z, a, d, u, Applied(a, d, m, n), m, n, m);
  }

  /** A row of the normal equations, in terms of A d. */
  lemma NormalRow(a: Matrix, m: nat, n: nat, lambda: real, d: Row, r: nat)
    requires Shape(a, m, n) && |d| == n && r < n
    ensures Dot(NormalMatrix(a, m, n, lambda)[r], d, n) == Dot(Column(a, m, r), Applied(a, d, m, n), m) + lambda * d[r]
  {
    hide Dot;
    var x := Column(a, m, r);
    var xa := seq(n, c requires 0 <= c < n => Dot(x, Column(a, m, c), m));
    DotAssociative(x, a, d, xa, Applied(a, d, m, n), m, n, m);
    DotLinear(NormalMatrix(a, m, n, lambda)[r], xa, lambda, Unit(n, r), d, n);
    DotUnit(n, r, d, n);
  }

  lemma {:induction false} SquareIsDot(r: Row)
    ensures SumSquares(r) == Dot(r, r, |r|)
  {
    if r != [] {
      var front := r[..|r| - 1];
      SquareIsDot(front);
      DotSame(front, r, front, r, |r| - 1);
    }
  }

  lemma {:induction false} DotIsNonnegative(x: Row, n: nat)
    requires n <= |x|
    ensures Dot(x, x, n) >= 0.0
  {
    if n > 0 { DotIsNonnegative(x, n - 1); }
  }

  /** |r + y|^2 = |r|^2 + 2 r y + |y|^2. */
  lemma SquareOfSum(s: Row, r: Row, y: Row, m: nat)
    requires m <= |r| && m <= |y| && IsCombination(s, r, 1.0, y, m)
    ensures Dot(s, s, m) == Dot(r, r, m) + 2.0 * Dot(r, y, m) + Dot(y, y, m)
  {
    hide Dot;
    DotLinear(s, r, 1.0, y, s, m);
    DotLinearRight(r, s, r, 1.0, y, m);
    DotLinearRight(y, s, r, 1.0, y, m);
    DotSymmetric(y, r, m);
  }

  /** The solution d of the normal equations, multiplied by itself. */
  lemma EnergyOfStep(a: Matrix, m: nat, n: nat, lambda: real, res: Row, d: Row)
    requires Shape(a, m, n) && |res| == m && |d| == n
    requires forall r | 0 <= r < n :: Dot(NormalMatrix(a, m, n, lambda)[r], d, n) == -Dot(Column(a, m, r), res, m)
    ensures var y := Applied(a, d, m, n); Dot(y, y, m) + lambda * Dot(d, d, n) == -Dot(res, y, m)
  {
    hide Dot, NormalMatrix;
    var y := Applied(a, d, m, n);
    var u := seq(n, c requires 0 <= c < n => Dot(Column(a, m, c), y, m));
    var v := seq(n, c requires 0 <= c < n => Dot(Column(a, m, c), res, m));
    var w := seq(n, c requires 0 <= c < n => -v[c]);
    TransposeMoves(a, m, n, d, y, u);
    TransposeMoves(a, m, n, d, res, v);
    forall c | 0 <= c < n ensures w[c] == u[c] + lambda * d[c] {
      NormalRow(a, m, n, lambda, d, c);
    }
    hide Column, Applied;
    DotLinear(w, u, lambda, d, d, n);
    DotSymmetric(w, d, n);
    DotOfNegated(d, v, w, n);
    DotSymmetric(d, v, n);
  }

  /** Residuals after a step d. */
  lemma AffineMoves(cost: Cost, a: Matrix, b: Row, m: nat, n: nat, p: Row, q: Row, i: nat)
    requires Affine(cost, a, b, m, n) && |p| == n && |q| == n && i < m
    ensures cost(q)[i] == cost(p)[i] + Dot(a[i], Difference(q, p), n)
  {
    hide Dot;
    var d := Difference(q, p);
    assert forall k | 0 <= k < n :: q[k] == p[k] + 1.0 * d[k];
    DotLinearRight(a[i], q, p, 1.0, d, n);
  }

  /** With affine residuals and damping lambda >= 0 the proposed parameters never fit worse: the
      sum of squares falls by |A d|^2 + 2 lambda |d|^2, where d is the step. */
  lemma StepDescends(cost: Cost, a: Matrix, b: Row, m: nat, n: nat, p: Row, lambda: real)
    requires Affine(cost, a, b, m, n) && |p| == n > 0 && lambda >= 0.0
    requires !Regularises(Augmented(NormalMatrix(a, m, n, lambda)), n, 0)
    ensures |cost(p)| == m
    ensures var q := Proposed(cost, p, cost(p), lambda); var d := Difference(q, p); var y := Applied(a, d, m, n);
            && SumSquares(cost(q)) == SumSquares(cost(p)) - Dot(y, y, m) - 2.0 * (lambda * Dot(d, d, n))
            && SumSquares(cost(q)) <= SumSquares(cost(p))
  {
    hide Dot, Proposed, NormalMatrix, Regularises, JacobianOf;
    var res := cost(p);
    assert IsCost(cost, n, m);
    JacobianOfAffine(cost, a, b, m, n, p);
    var q := Proposed(cost, p, res, lambda);
    var d := Difference(q, p);
    var y := Applied(a, d, m, n);
    forall r | 0 <= r < n
      ensures Dot(NormalMatrix(a, m, n, lambda)[r], d, n) == -Dot(Column(a, m, r), res, m)
    {
      StepSolvesNormalEquations(cost, p, res, lambda, r);
    }
    EnergyOfStep(a, m, n, lambda, res, d);
    forall i | 0 <= i < m ensures cost(q)[i] == res[i] + 1.0 * y[i] {
      AffineMoves(cost, a, b, m, n, p, q, i);
    }
    SquareOfSum(cost(q), res, y, m);
    SquareIsDot(cost(q));
    SquareIsDot(res);
    DotIsNonnegative(y, m);
    DotIsNonnegative(d, n);
    assert lambda * Dot(d, d, n) >= 0.0;
  }
}
