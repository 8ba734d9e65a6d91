/** The Levenberg-Marquardt solver, with its matrix helpers, over exact reals. */
module LeastSquares {
  import opened Matrices
  import opened GaussJordan

  // ---- what the helpers compute ------------------------------------------------------

  function Product(a: Matrix, b: Matrix, rows: nat, inner: nat, cols: nat): (p: Matrix)
    requires Shape(a, rows, inner) && Shape(b, inner, cols)
    ensures Shape(p, rows, cols)
  {
    seq(rows, r requires 0 <= r < rows => seq(cols, c requires 0 <= c < cols => Dot(a[r], Column(b, inner, c), inner)))
  }

  function Transposed(a: Matrix, rows: nat, cols: nat): (t: Matrix)
    requires Shape(a, rows, cols)
    ensures Shape(t, cols, rows)
  {
    seq(cols, c requires 0 <= c < cols => Column(a, rows, c))
  }

  function Applied(a: Matrix, x: Row, rows: nat, cols: nat): (y: Row)
    requires Shape(a, rows, cols) && |x| == cols
    ensures |y| == rows
  {
    seq(rows, r requires 0 <= r < rows => Dot(a[r], x, cols))
  }

  function SumSquares(r: Row): real {
    if r == [] then 0.0 else SumSquares(r[..|r| - 1]) + r[|r| - 1] * r[|r| - 1]
  }

  method MatrixMultiply(a: Matrix, b: Matrix, ghost rows: nat, ghost inner: nat, ghost cols: nat) returns (result: Matrix)
    requires Shape(a, rows, inner) && Shape(b, inner, cols) && rows > 0 && inner > 0
    ensures result == Product(a, b, rows, inner, cols)
  {
    var rowsA, colsA, colsB := |a|, |a[0]|, |b[0]|;
    result := seq(rowsA, _ => seq(colsB, _ => 0.0));
    for i := 0 to rowsA
      invariant Shape(result, rows, cols)
      invariant forall r, c | 0 <= r < i && 0 <= c < cols :: result[r][c] == Dot(a[r], Column(b, inner, c), inner)
      invariant forall r, c | i <= r < rows && 0 <= c < cols :: result[r][c] == 0.0
    {
      for j := 0 to colsB
        invariant Shape(result, rows, cols)
        invariant forall r, c | 0 <= r < i && 0 <= c < cols :: result[r][c] == Dot(a[r], Column(b, inner, c), inner)
        invariant forall c | 0 <= c < j :: result[i][c] == Dot(a[i], Column(b, inner, c), inner)
        invariant forall c | j <= c < cols :: result[i][c] == 0.0
        invariant forall r, c | i < r < rows && 0 <= c < cols :: result[r][c] == 0.0
      {
        ghost var before := result;
        for k := 0 to colsA
          invariant Shape(result, rows, cols)
          invariant forall r | 0 <= r < rows && r != i :: result[r] == before[r]
          invariant forall c | 0 <= c < cols && c != j :: result[i][c] == before[i][c]
          invariant result[i][j] == Dot(a[i], Column(b, inner, j), k)
        {
          result := result[i := result[i][j := result[i][j] + a[i][k] * b[k][j]]];
        }
      }
    }
    assert forall r | 0 <= r < rows :: result[r] == Product(a, b, rows, inner, cols)[r];
  }

  method MatrixTranspose(matrix: Matrix, ghost rows: nat, ghost cols: nat) returns (result: Matrix)
    requires Shape(matrix, rows, cols) && rows > 0
    ensures result == Transposed(matrix, rows, cols)
  {
    var rowCount, colCount := |matrix|, |matrix[0]|;
    result := seq(colCount, _ => seq(rowCount, _ => 0.0));
    for i := 0 to rowCount
      invariant Shape(result, cols, rows)
      invariant forall c, r | 0 <= c < cols && 0 <= r < i :: result[c][r] == matrix[r][c]
    {
      for j := 0 to colCount
        invariant Shape(result, cols, rows)
        invariant forall c, r | 0 <= c < cols && 0 <= r < i :: result[c][r] == matrix[r][c]
        invariant forall c | 0 <= c < j :: result[c][i] == matrix[i][c]
      {
        result := result[j := result[j][i := matrix[i][j]]];
      }
    }
    assert forall c | 0 <= c < cols :: result[c] == Transposed(matrix, rows, cols)[c];
  }

  method MatrixVectorMultiply(matrix: Matrix, x: Row, ghost rows: nat, ghost cols: nat) returns (result: Row)
    requires Shape(matrix, rows, cols) && |x| == cols && rows > 0
    ensures result == Applied(matrix, x, rows, cols)
  {
    var rowCount, colCount := |matrix|, |matrix[0]|;
    result := seq(rowCount, _ => 0.0);
    for i := 0 to rowCount
      invariant |result| == rows
      invariant forall r | 0 <= r < i :: result[r] == Dot(matrix[r], x, cols)
      invariant forall r | i <= r < rows :: result[r] == 0.0
    {
      ghost var before := result;
      for j := 0 to colCount
        invariant |result| == rows && result == before[i := result[i]]
        invariant result[i] == Dot(matrix[i], x, j)
      {
        result := result[i := result[i] + matrix[i][j] * x[j]];
      }
    }
  }

  // ---- MatrixInverse, loop by loop -----------------------------------------------------

  /** [A | I]. */
  method BuildAugmented(matrix: Matrix) returns (aug: Matrix)
    requires Shape(matrix, |matrix|, |matrix|)
    ensures aug == Augmented(matrix)
  {
    var n := |matrix|;
    aug := seq(n, _ => seq(2 * n, _ => 0.0));
    for i := 0 to n
      invariant Shape(aug, n, 2 * n)
      invariant forall r | 0 <= r < i :: aug[r] == Augmented(matrix)[r]
      invariant forall r, c | i <= r < n && 0 <= c < 2 * n :: aug[r][c] == 0.0
    {
      for j := 0 to n
        invariant Shape(aug, n, 2 * n)
        invariant forall r | 0 <= r < i :: aug[r] == Augmented(matrix)[r]
        invariant forall c | 0 <= c < j :: aug[i][c] == matrix[i][c]
        invariant forall c | j <= c < 2 * n :: aug[i][c] == 0.0
        invariant forall r, c | i < r < n && 0 <= c < 2 * n :: aug[r][c] == 0.0
      {
        aug := aug[i := aug[i][j := matrix[i][j]]];
      }
      aug := aug[i := aug[i][i + n := 1.0]];
      assert aug[i] == Augmented(matrix)[i];
    }
  }

  method FindPivot(aug: Matrix, n: nat, i: nat) returns (pivotRow: nat)
    requires i < n && Shape(aug, n, 2 * n)
    ensures pivotRow == PivotRow(aug, n, i, n)
  {
    pivotRow := i;
    for k := i + 1 to n
      invariant pivotRow == PivotRow(aug, n, i, k)
    {
      if Abs(aug[k][i]) > Abs(aug[pivotRow][i]) {
        pivotRow := k;
      }
    }
  }

  method DivideRow(aug0: Matrix, n: nat, i: nat, pivot: real) returns (aug: Matrix)
    requires i < n && Shape(aug0, n, 2 * n) && pivot != 0.0
    ensures aug == aug0[i := Divided(aug0[i], pivot)]
  {
    aug := aug0;
    for j := 0 to 2 * n
      invariant Shape(aug, n, 2 * n) && aug == aug0[i := aug[i]]
      invariant forall c | 0 <= c < j :: aug[i][c] == aug0[i][c] / pivot
      invariant forall c | j <= c < 2 * n :: aug[i][c] == aug0[i][c]
    {
      aug := aug[i := aug[i][j := aug[i][j] / pivot]];
    }
    assert aug[i] == Divided(aug0[i], pivot);
  }

  method SubtractRow(aug0: Matrix, n: nat, i: nat, k: nat) returns (aug: Matrix)
    requires i < n && k < n && i != k && Shape(aug0, n, 2 * n)
    ensures aug == aug0[k := Minus(aug0[k], aug0[k][i], aug0[i])]
  {
    aug := aug0;
    var factor := aug[k][i];
    for j := 0 to 2 * n
      invariant Shape(aug, n, 2 * n) && aug == aug0[k := aug[k]]
      invariant forall c | 0 <= c < j :: aug[k][c] == aug0[k][c] - factor * aug0[i][c]
      invariant forall c | j <= c < 2 * n :: aug[k][c] == aug0[k][c]
    {
      aug := aug[k := aug[k][j := aug[k][j] - factor * aug[i][j]]];
    }
    var row := Minus(aug0[k], aug0[k][i], aug0[i]);
    assert forall c | 0 <= c < 2 * n :: aug[k][c] == row[c];
    assert aug[k] == row;
  }

  /** One round of the elimination loop. */
  method EliminateColumn(aug0: Matrix, n: nat, i: nat) returns (aug: Matrix)
    requires i < n && Shape(aug0, n, 2 * n)
    ensures aug == Step(aug0, n, i)
  {
    aug := aug0;
    var pivotRow := FindPivot(aug, n, i);
    if pivotRow != i {
      aug := aug[i := aug[pivotRow]][pivotRow := aug[i]];
    }
    assert aug == Pivoted(aug0, n, i);
    var pivot := aug[i][i];
    if Abs(pivot) < EPS {
      aug := aug[i := aug[i][i := aug[i][i] + EPS]];
      pivot := aug[i][i];
    }
    PivotIsNonzero(Pivoted(aug0, n, i), i);
    aug := DivideRow(aug, n, i, pivot);
    ghost var m := Normalised(aug0, n, i);
    assert aug == m;
    for k := 0 to n
      invariant aug == Cleared(m, n, i, k)
    {
      if k != i {
        aug := SubtractRow(aug, n, i, k);
      }
    }
  }

  method ExtractInverse(aug: Matrix, n: nat) returns (inverse: Matrix)
    requires Shape(aug, n, 2 * n)
    ensures inverse == RightHalf(aug, n)
  {
    inverse := seq(n, _ => seq(n, _ => 0.0));
    for i := 0 to n
      invariant Shape(inverse, n, n)
      invariant forall r, c | 0 <= r < i && 0 <= c < n :: inverse[r][c] == aug[r][n + c]
    {
      for j := 0 to n
        invariant Shape(inverse, n, n)
        invariant forall r, c | 0 <= r < i && 0 <= c < n :: inverse[r][c] == aug[r][n + c]
        invariant forall c | 0 <= c < j :: inverse[i][c] == aug[i][n + c]
      {
        inverse := inverse[i := inverse[i][j := aug[i][j + n]]];
      }
    }
    assert forall r | 0 <= r < n :: inverse[r] == RightHalf(aug, n)[r];
  }

  method MatrixInverse(matrix: Matrix) returns (inverse: Matrix)
    requires Shape(matrix, |matrix|, |matrix|)
    ensures inverse == Inverted(matrix)
  {
    var n := |matrix|;
    var aug := BuildAugmented(matrix);
    for i := 0 to n
      invariant Shape(aug, n, 2 * n)
      invariant Reduced(aug, n, i) == Reduced(Augmented(matrix), n, 0)
    {
      aug := EliminateColumn(aug, n, i);
    }
    inverse := ExtractInverse(aug, n);
  }

  // ---- Minimize ------------------------------------------------------------------------

  type Cost = Row -> Row

  const H := 0.00000001

  /** The cost function maps n parameters to m residuals, at least one. */
  ghost predicate IsCost(cost: Cost, n: nat, m: nat) {
    m > 0 && forall p: Row | |p| == n :: |cost(p)| == m
  }

  /** Forward differences. */
  function JacobianOf(cost: Cost, p: Row, res: Row): (j: Matrix)
    requires forall q: Row | |q| == |p| :: |cost(q)| == |res|
    ensures Shape(j, |res|, |p|)
  {
    seq(|res|, i requires 0 <= i < |res| => seq(|p|, k requires 0 <= k < |p| => (cost(p[k := p[k] + H])[i] - res[i]) / H))
  }

  function Damped(a: Matrix, n: nat, lambda: real): (d: Matrix)
    requires Shape(a, n, n)
    ensures Shape(d, n, n)
  {
    seq(n, r requires 0 <= r < n => a[r][r := a[r][r] + lambda])
  }

  /** The parameters one Levenberg-Marquardt step proposes. */
  ghost function Proposed(cost: Cost, p: Row, res: Row, lambda: real): (q: Row)
    requires IsCost(cost, |p|, |res|) && |p| > 0
    ensures |q| == |p|
  {
    var n, m := |p|, |res|;
    var j := JacobianOf(cost, p, res);
    var jt := Transposed(j, m, n);
    var inverse := Inverted(Damped(Product(jt, j, n, m, n), n, lambda));
    var delta := Applied(inverse, Applied(jt, res, n, m), n, n);
    seq(n, i requires 0 <= i < n => p[i] + -delta[i])
  }

  /** The inner loop of ComputeJacobian: column j becomes a difference quotient. */
  method WithDifferences(m: Matrix, cols: nat, j: nat, plus: Row, base: Row, h: real) returns (d: Matrix)
    requires Shape(m, |base|, cols) && j < cols && |plus| == |base| && h != 0.0
    ensures Shape(d, |base|, cols)
    ensures forall r, c | 0 <= r < |base| && 0 <= c < cols ::
              d[r][c] == if c == j then (plus[r] - base[r]) / h else m[r][c]
  {
    d := m;
    for i := 0 to |base|
      invariant Shape(d, |base|, cols)
      invariant forall r | i <= r < |base| :: d[r] == m[r]
      invariant forall r, c | 0 <= r < i && 0 <= c < cols :: d[r][c] == if c == j then (plus[r] - base[r]) / h else m[r][c]
    {
      d := d[i := d[i][j := (plus[i] - base[i]) / h]];
    }
  }

  /** Where the solver stands between two iterations. */
  datatype Point = Point(parameters: Row, lambda: real)

  const MAX_LAMBDA := 1000000000000.0

  /** The next point is the proposed one if that fits better, with the damping lowered; otherwise
      the same with the damping raised. */
  ghost predicate Iterates(cost: Cost, p: Point, q: Point) {
    && p.parameters != [] && IsCost(cost, |p.parameters|, |cost(p.parameters)|)
    && var next := Proposed(cost, p.parameters, cost(p.parameters), p.lambda);
    q == if SumSquares(cost(next)) < SumSquares(cost(p.parameters))
         then Point(next, p.lambda / 10.0) else Point(p.parameters, p.lambda * 10.0)
  }

  ghost predicate Descent(cost: Cost, path: seq<Point>) {
    path != [] && forall i :: 0 < i < |path| ==> Iterates(cost, path[i - 1], path[i])
  }

  /** After iteration i: it improved, by less than the tolerance; or the damping is too large. */
  ghost predicate MustStop(cost: Cost, path: seq<Point>, i: int, tolerance: real)
    requires 0 < i < |path|
  {
    var before, after := SumSquares(cost(path[i - 1].parameters)), SumSquares(cost(path[i].parameters));
    path[i].lambda > 1000000000000.0 || after < before < after + tolerance
  }

  lemma DescentStarts(cost: Cost, path: seq<Point>)
    requires |path| == 1
    ensures Descent(cost, path)
  {
  }

  lemma DescentGoesOn(cost: Cost, path: seq<Point>, q: Point)
    requires Descent(cost, path) && Iterates(cost, path[|path| - 1], q)
    ensures Descent(cost, path + [q])
  {
    hide Iterates;
  }

  lemma StopsBefore(cost: Cost, path: seq<Point>, q: Point, tolerance: real)
    ensures forall i :: 0 < i < |path| ==> MustStop(cost, path + [q], i, tolerance) == MustStop(cost, path, i, tolerance)
  {
  }

  lemma StopsNow(cost: Cost, path: seq<Point>, tolerance: real, accepted: bool, prevSum: real, sum: real)
    requires |path| > 1
    requires prevSum == SumSquares(cost(path[|path| - 2].parameters)) && sum == SumSquares(cost(path[|path| - 1].parameters))
    requires accepted <==> sum < prevSum
    ensures MustStop(cost, path, |path| - 1, tolerance) <==>
              path[|path| - 1].lambda > MAX_LAMBDA || (accepted && Abs(prevSum - sum) < tolerance)
  {
  }

  lemma PathGrows(cost: Cost, path: seq<Point>, q: Point, tolerance: real, accepted: bool, prevSum: real, sum: real)
    requires Descent(cost, path) && Iterates(cost, path[|path| - 1], q)
    requires prevSum == SumSquares(cost(path[|path| - 1].parameters)) && sum == SumSquares(cost(q.parameters))
    requires accepted <==> sum < prevSum
    ensures Descent(cost, path + [q])
    ensures forall i :: 0 < i < |path| ==> MustStop(cost, path + [q], i, tolerance) == MustStop(cost, path, i, tolerance)
    ensures MustStop(cost, path + [q], |path|, tolerance) <==> q.lambda > MAX_LAMBDA || (accepted && Abs(prevSum - sum) < tolerance)
  {
    DescentGoesOn(cost, path, q);
    hide Descent, Iterates, SumSquares;
    StopsBefore(cost, path, q, tolerance);
    StopsNow(cost, path + [q], tolerance, accepted, prevSum, sum);
  }

  class NonlinearLeastSquares {
    var sumOfSquares: real
    var parameters: Row
    var residuals: Row
    var jacobian: Matrix
    var lambda: real
    const lambdaFactor := 10.0
    var tolerance: real
    var maxIterations: int

    constructor ()
      ensures parameters == [] && residuals == [] && sumOfSquares == 0.0
      ensures lambda == 0.001 && tolerance == 0.00000001 && maxIterations == 100
    {
      sumOfSquares, parameters, residuals, jacobian := 0.0, [], [], [];
      lambda, tolerance, maxIterations := 0.001, 0.00000001, 100;
    }

    method ComputeJacobian(cost: Cost)
      requires |parameters| > 0 && IsCost(cost, |parameters|, |residuals|)
      modifies this`jacobian
      ensures jacobian == JacobianOf(cost, parameters, residuals)
    {
      var h := H;
      var nParams, nResiduals := |parameters|, |residuals|;
      ghost var goal := JacobianOf(cost, parameters, residuals);
      jacobian := seq(nResiduals, _ => seq(nParams, _ => 0.0));
      for j := 0 to nParams
        invariant Shape(jacobian, nResiduals, nParams)
        invariant forall r, c | 0 <= r < nResiduals && 0 <= c < j :: jacobian[r][c] == goal[r][c]
      {
        var plus := cost(parameters[j := parameters[j] + h]);
        jacobian := WithDifferences(jacobian, nParams, j, plus, residuals, h);
      }
      assert forall r | 0 <= r < nResiduals :: jacobian[r] == goal[r];
    }

    method SumOf(r: Row) returns (sum: real)
      ensures sum == SumSquares(r)
    {
      sum := 0.0;
      for i := 0 to |r|
        invariant sum == SumSquares(r[..i])
      {
        assert r[..i + 1][..i] == r[..i];
        sum := sum + r[i] * r[i];
      }
      assert r[..|r|] == r;
    }

    /** The fields describe the current parameters. */
    ghost predicate Consistent(cost: Cost)
      reads this
    {
      residuals == cost(parameters) && sumOfSquares == SumSquares(residuals)
    }

    method Propose(cost: Cost) returns (newParams: Row)
      requires |parameters| > 0 && IsCost(cost, |parameters|, |residuals|)
      modifies this`jacobian
      ensures newParams == Proposed(cost, parameters, residuals, lambda)
    {
      hide Product, Applied, Transposed, JacobianOf, Damped, Inverted, Dot;
      ghost var n, m := |parameters|, |residuals|;
      ComputeJacobian(cost);
      var jt := MatrixTranspose(jacobian, m, n);
      var jtj := MatrixMultiply(jt, jacobian, n, m, n);
      var jtr := MatrixVectorMultiply(jt, residuals, n, m);
      jtj := Damp(jtj, lambda);
      var inverse := MatrixInverse(jtj);
      var delta := MatrixVectorMultiply(inverse, jtr, n, n);
      ghost var undirected := delta;
      for i := 0 to |delta|
        invariant |delta| == n
        invariant forall r | 0 <= r < i :: delta[r] == -undirected[r]
        invariant forall r | i <= r < n :: delta[r] == undirected[r]
      {
        delta := delta[i := -delta[i]];
      }
      newParams := parameters;
      var nParams := |parameters|;
      for i := 0 to nParams
        invariant |newParams| == n
        invariant forall r | 0 <= r < i :: newParams[r] == parameters[r] + -undirected[r]
        invariant forall r | i <= r < n :: newParams[r] == parameters[r]
      {
        newParams := newParams[i := newParams[i] + delta[i]];
      }
      assert newParams == Proposed(cost, parameters, residuals, lambda);
    }

    /** One iteration: the proposed parameters are taken exactly when they fit better, and
        the damping is lowered or raised accordingly. */
    method TryStep(cost: Cost) returns (accepted: bool)
      requires |parameters| > 0 && IsCost(cost, |parameters|, |residuals|) && Consistent(cost)
      modifies this
      ensures accepted <==> SumSquares(cost(Proposed(cost, old(parameters), old(residuals), old(lambda)))) < old(sumOfSquares)
      ensures parameters == if accepted then Proposed(cost, old(parameters), old(residuals), old(lambda)) else old(parameters)
      ensures Consistent(cost) && |residuals| == |old(residuals)|
      ensures lambda == if accepted then old(lambda) / lambdaFactor else old(lambda) * lambdaFactor
      ensures tolerance == old(tolerance) && maxIterations == old(maxIterations)
      ensures Iterates(cost, Point(old(parameters), old(lambda)), Point(parameters, lambda))
      ensures old(sumOfSquares) == SumSquares(cost(old(parameters)))
    {
      hide Proposed, SumSquares;
      var newParams := Propose(cost);
      var newResiduals := cost(newParams);
      var newSum := SumOf(newResiduals);
      accepted := newSum < sumOfSquares;
      if accepted {
        parameters := newParams;
        residuals := newResiduals;
        sumOfSquares := newSum;
        lambda := lambda / lambdaFactor;
      } else {
        lambda := lambda * lambdaFactor;
      }
    }

    /** Runs to convergence, to the iteration limit, or until the damping explodes; `path` is
        where it has been. */
    method Minimize(cost: Cost) returns (ok: bool, ghost path: seq<Point>)
      requires parameters != [] ==> exists m :: IsCost(cost, |parameters|, m)
      modifies this
      ensures parameters == [] <==> old(parameters) == []
      ensures old(parameters) == [] ==> !ok && unchanged(this)
      ensures tolerance == old(tolerance) && maxIterations == old(maxIterations)
      // the fields agree with each other, and the fit never gets worse
      ensures old(parameters) != [] ==> Consistent(cost) && |parameters| == |old(parameters)|
      ensures old(parameters) != [] ==>
                parameters == old(parameters) || sumOfSquares < SumSquares(cost(old(parameters)))
      // it went step by step, and stopped where it had to
      ensures old(parameters) != [] ==>
                && Descent(cost, path) && path[0] == Point(old(parameters), old(lambda))
                && path[|path| - 1] == Point(parameters, lambda)
                && (forall i :: 0 < i < |path| - 1 ==> !MustStop(cost, path, i, tolerance))
                && |path| - 1 <= (if maxIterations > 0 then maxIterations else 0)
                && (|path| - 1 < maxIterations ==> |path| > 1 && MustStop(cost, path, |path| - 1, tolerance))
      // true does not mean that the loop converged: prevSum follows every accepted step
      ensures ok <==> old(parameters) != [] && tolerance > 0.0
    {
      hide Proposed, SumSquares, MustStop, Descent, Iterates;
      path := [];
      if parameters == [] {
        ok := false;
        return;
      }
      ghost var m :| IsCost(cost, |parameters|, m);
      residuals := cost(parameters);
      sumOfSquares := SumOf(residuals);
      var prevSum := sumOfSquares;
      path := [Point(parameters, lambda)];
      DescentStarts(cost, path);
      var iter := 0;
      while iter < maxIterations
        invariant |parameters| == |old(parameters)| && IsCost(cost, |parameters|, |residuals|) && Consistent(cost)
        invariant prevSum == sumOfSquares && 0 <= iter && (iter > 0 ==> iter <= maxIterations)
        invariant parameters == old(parameters) || sumOfSquares < SumSquares(cost(old(parameters)))
        invariant tolerance == old(tolerance) && maxIterations == old(maxIterations)
        invariant Descent(cost, path) && |path| == iter + 1 && path[0] == Point(old(parameters), old(lambda))
        invariant path[|path| - 1] == Point(parameters, lambda)
        invariant forall i :: 0 < i < |path| ==> !MustStop(cost, path, i, tolerance)
        decreases maxIterations - iter
      {
        ghost var was := path;
        var accepted := TryStep(cost);
        path := path + [Point(parameters, lambda)];
        PathGrows(cost, was, path[|path| - 1], tolerance, accepted, prevSum, sumOfSquares);
        if accepted {
          if Abs(prevSum - sumOfSquares) < tolerance {
            ok := true;
            return;
          }
          prevSum := sumOfSquares;
        }
        if lambda > MAX_LAMBDA {
          break;
        }
        iter := iter + 1;
      }
      ok := Abs(prevSum - sumOfSquares) < tolerance;
    }
  }

  /** Minimize reports success although it has not moved: with no iteration allowed the residual
      p -> p stays at 1, where 0 would do. */
  method SucceedsWithoutAStep() returns (solver: NonlinearLeastSquares, ok: bool)
    ensures ok && solver.parameters == [1.0] && solver.sumOfSquares == 1.0
    ensures SumSquares([0.0]) < SumSquares([1.0])
  {
    solver := new NonlinearLeastSquares();
    solver.parameters, solver.maxIterations := [1.0], 0;
    assert IsCost(p => p, 1, 1);
    ghost var path;
    ok, path := solver.Minimize(p => p);
  }

  /** JTJ[i][i] += lambda for every i. */
  method Damp(a: Matrix, lambda: real) returns (d: Matrix)
    requires Shape(a, |a|, |a|)
    ensures d == Damped(a, |a|, lambda)
  {
    d := a;
    for i := 0 to |a|
      invariant Shape(d, |a|, |a|)
      invariant forall r | 0 <= r < i :: d[r] == Damped(a, |a|, lambda)[r]
      invariant forall r | i <= r < |a| :: d[r] == a[r]
    {
      d := d[i := d[i][i := d[i][i] + lambda]];
    }
  }
}
