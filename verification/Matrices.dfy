/** Matrices over the reals as sequences of rows, with just the algebra that Gauss-Jordan
    elimination needs. */
module Matrices {
  type Row = seq<real>
  type Matrix = seq<Row>

  ghost predicate Shape(m: Matrix, rows: nat, cols: nat) {
    |m| == rows && forall r | 0 <= r < rows :: |m[r]| == cols
  }

  function Delta(r: int, c: int): real {
    if r == c then 1.0 else 0.0
  }

  function Unit(n: nat, r: int): Row {
    seq(n, j => Delta(r, j))
  }

  function Identity(n: nat): Matrix {
    seq(n, r => Unit(n, r))
  }

  function Column(m: Matrix, n: nat, c: nat): (col: Row)
    requires |m| >= n && forall r | 0 <= r < n :: c < |m[r]|
    ensures |col| == n
  {
    seq(n, r requires 0 <= r < n => m[r][c])
  }

  /** Sum of the first n products. */
  function Dot(x: Row, y: Row, n: nat): real
    requires n <= |x| && n <= |y|
  {
    if n == 0 then 0.0 else Dot(x, y, n - 1) + x[n - 1] * y[n - 1]
  }

  // ---- laws of Dot -------------------------------------------------------------------

  lemma {:induction false} DotSame(x: Row, x': Row, y: Row, y': Row, n: nat)
    requires n <= |x| && n <= |y| && n <= |x'| && n <= |y'|
    requires forall j | 0 <= j < n :: x[j] == x'[j] && y[j] == y'[j]
    ensures Dot(x, y, n) == Dot(x', y', n)
  {
    if n > 0 { DotSame(x, x', y, y', n - 1); }
  }

  lemma {:induction false} DotSymmetric(x: Row, y: Row, n: nat)
    requires n <= |x| && n <= |y|
    ensures Dot(x, y, n) == Dot(y, x, n)
  {
    if n > 0 { DotSymmetric(x, y, n - 1); }
  }

  lemma {:induction false} DotUnit(m: nat, r: int, y: Row, n: nat)
    requires n <= m && n <= |y|
    ensures Dot(Unit(m, r), y, n) == if 0 <= r < n then y[r] else 0.0
  {
    if n > 0 { DotUnit(m, r, y, n - 1); }
  }

  lemma {:induction false} DotZero(x: Row, y: Row, n: nat)
    requires n <= |x| && n <= |y| && forall j | 0 <= j < n :: y[j] == 0.0
    ensures Dot(x, y, n) == 0.0
  {
    if n > 0 { DotZero(x, y, n - 1); }
  }

  /** x + f z, entry by entry. */
  ghost predicate IsCombination(s: Row, x: Row, f: real, z: Row, n: nat) {
    n <= |s| && n <= |x| && n <= |z| && forall j | 0 <= j < n :: s[j] == x[j] + f * z[j]
  }

  lemma {:induction false} DotLinear(s: Row, x: Row, f: real, z: Row, y: Row, n: nat)
    requires n <= |y| && IsCombination(s, x, f, z, n)
    ensures Dot(s, y, n) == Dot(x, y, n) + f * Dot(z, y, n)
  {
    if n > 0 {
      DotLinear(s, x, f, z, y, n - 1);
      var a, b, c := x[n - 1], z[n - 1], y[n - 1];
      assert s[n - 1] * c == a * c + f * (b * c) by { assert (f * b) * c == f * (b * c); }
      assert f * (Dot(z, y, n - 1) + b * c) == f * Dot(z, y, n - 1) + f * (b * c);
    }
  }

  lemma {:induction false} DotScaled(s: Row, x: Row, f: real, y: Row, n: nat)
    requires n <= |s| && n <= |x| && n <= |y| && forall j | 0 <= j < n :: s[j] == f * x[j]
    ensures Dot(s, y, n) == f * Dot(x, y, n)
  {
    if n > 0 {
      DotScaled(s, x, f, y, n - 1);
      var a, c := x[n - 1], y[n - 1];
      assert (f * a) * c == f * (a * c);
      assert f * (Dot(x, y, n - 1) + a * c) == f * Dot(x, y, n - 1) + f * (a * c);
    }
  }

  lemma {:induction false} DotUpdate(x: Row, i: nat, a: real, y: Row, n: nat)
    requires n <= |x| && n <= |y| && i < n
    ensures Dot(x[i := a], y, n) == Dot(x, y, n) + (a - x[i]) * y[i]
  {
    if i == n - 1 {
      DotSame(x[i := a], x, y, y, n - 1);
      assert a * y[i] == x[i] * y[i] + (a - x[i]) * y[i];
    } else {
      DotUpdate(x, i, a, y, n - 1);
    }
  }

  lemma DotUpdateRight(x: Row, y: Row, k: nat, b: real, n: nat)
    requires n <= |x| && n <= |y| && k < n
    ensures Dot(x, y[k := b], n) == Dot(x, y, n) + x[k] * (b - y[k])
  {
    DotSymmetric(x, y[k := b], n);
    DotUpdate(y, k, b, x, n);
    DotSymmetric(y, x, n);
  }

  lemma DotSwapBoth(x: Row, y: Row, i: nat, p: nat, n: nat)
    requires n <= |x| && n <= |y| && i < n && p < n
    ensures Dot(x[i := x[p]][p := x[i]], y[i := y[p]][p := y[i]], n) == Dot(x, y, n)
  {
    if i == p {
      assert x[i := x[p]][p := x[i]] == x && y[i := y[p]][p := y[i]] == y;
    } else {
      var x1, y1 := x[i := x[p]], y[i := y[p]];
      var x2 := x1[p := x[i]];
      DotUpdate(x, i, x[p], y, n);
      DotUpdate(x1, p, x[i], y, n);
      DotUpdateRight(x2, y, i, y[p], n);
      DotUpdateRight(x2, y1, p, y[i], n);
    }
  }

  lemma DotScaleBoth(x: Row, y: Row, i: nat, p: real, u: real, v: real, n: nat)
    requires n <= |x| && n <= |y| && i < n && p != 0.0
    requires u == p * x[i] && v == y[i] / p
    ensures Dot(x[i := u], y[i := v], n) == Dot(x, y, n)
  {
    hide Dot;
    DotUpdate(x, i, u, y, n);
    DotUpdateRight(x[i := u], y, i, v, n);
    ScaleArithmetic(x[i], y[i], p, u, v);
  }

  lemma ScaleArithmetic(a: real, b: real, p: real, u: real, v: real)
    requires p != 0.0 && u == p * a && v == b / p
    ensures (u - a) * b + u * (v - b) == 0.0
  {
    assert u * v == (p * a) * v == a * (p * v) == a * b;
    assert (u - a) * b == u * b - a * b;
    assert u * (v - b) == u * v - u * b;
  }

  /** Adding f times entry k to entry i on the left, taking f times entry i from entry k on
      the right. */
  lemma DotShearBoth(x: Row, y: Row, i: nat, k: nat, f: real, u: real, v: real, n: nat)
    requires n <= |x| && n <= |y| && i < n && k < n && i != k
    requires u == x[i] + f * x[k] && v == y[k] - f * y[i]
    ensures Dot(x[i := u], y[k := v], n) == Dot(x, y, n)
  {
    hide Dot;
    DotUpdate(x, i, u, y, n);
    DotUpdateRight(x[i := u], y, k, v, n);
    ShearArithmetic(x[i], y[k], x[k], y[i], f, u, v);
  }

  lemma ShearArithmetic(xi: real, yk: real, a: real, b: real, f: real, u: real, v: real)
    requires u == xi + f * a && v == yk - f * b
    ensures (u - xi) * b + a * (v - yk) == 0.0
  {
    assert u - xi == f * a && v - yk == -(f * b);
    assert (f * a) * b == a * (f * b);
    assert a * -(f * b) == -(a * (f * b));
  }

  lemma DotLinearRight(x: Row, s: Row, y: Row, f: real, z: Row, n: nat)
    requires n <= |x| && IsCombination(s, y, f, z, n)
    ensures Dot(x, s, n) == Dot(x, y, n) + f * Dot(x, z, n)
  {
    hide Dot;
    DotSymmetric(x, s, n);
    DotLinear(s, y, f, z, x, n);
    DotSymmetric(y, x, n);
    DotSymmetric(z, x, n);
  }

  lemma ColumnOfUpdate(m: Matrix, n: nat, k: nat, row: Row, c: nat)
    requires |m| == n && k < n && c < |row| && forall r | 0 <= r < n :: c < |m[r]|
    ensures Column(m[k := row], n, c) == Column(m, n, c)[k := row[c]]
  {
  }

  /** (x M) y = x (M y). */
  lemma {:induction false} DotAssociative(x: Row, m: Matrix, y: Row, xm: Row, my: Row, rows: nat, n: nat, k: nat)
    requires k <= rows && rows <= |x| && n <= |y| && Shape(m, rows, n)
    requires |xm| == n && forall c | 0 <= c < n :: xm[c] == Dot(x, Column(m, rows, c), k)
    requires |my| == rows && forall r | 0 <= r < rows :: my[r] == Dot(m[r], y, n)
    ensures Dot(xm, y, n) == Dot(x, my, k)
    decreases k
  {
    if k == 0 {
      DotSymmetric(xm, y, n);
      DotZero(y, xm, n);
    } else {
      var before := seq(n, c requires 0 <= c < n => Dot(x, Column(m, rows, c), k - 1));
      DotAssociative(x, m, y, before, my, rows, n, k - 1);
      AddsOneRow(x, m, before, xm, rows, n, k);
      hide *;
      DotLinear(xm, before, x[k - 1], m[k - 1], y, n);
      DotNextRow(x, my, k);
    }
  }

  lemma AddsOneRow(x: Row, m: Matrix, before: Row, xm: Row, rows: nat, n: nat, k: nat)
    requires 0 < k <= rows && rows <= |x| && Shape(m, rows, n) && |before| == |xm| == n
    requires forall c | 0 <= c < n :: before[c] == Dot(x, Column(m, rows, c), k - 1)
    requires forall c | 0 <= c < n :: xm[c] == Dot(x, Column(m, rows, c), k)
    ensures IsCombination(xm, before, x[k - 1], m[k - 1], n)
  {
    hide Dot, Column;
    forall c | 0 <= c < n ensures xm[c] == before[c] + x[k - 1] * m[k - 1][c] {
      DotOneMore(x, m, rows, n, k, c);
    }
  }

  lemma DotOneMore(x: Row, m: Matrix, rows: nat, n: nat, k: nat, c: nat)
    requires 0 < k <= rows && rows <= |x| && Shape(m, rows, n) && c < n
    ensures Dot(x, Column(m, rows, c), k) == Dot(x, Column(m, rows, c), k - 1) + x[k - 1] * m[k - 1][c]
  {
  }

  lemma DotNextRow(x: Row, y: Row, k: nat)
    requires 0 < k <= |x| && k <= |y|
    ensures Dot(x, y, k) == Dot(x, y, k - 1) + x[k - 1] * y[k - 1]
  {
  }

  // ---- inverses ----------------------------------------------------------------------

  /** a b = identity. */
  ghost predicate ProductIsIdentity(a: Matrix, b: Matrix, n: nat)
    requires Shape(a, n, n) && Shape(b, n, n)
  {
    forall r, c | 0 <= r < n && 0 <= c < n :: Dot(a[r], Column(b, n, c), n) == Delta(r, c)
  }

  ghost predicate IsInverse(a: Matrix, b: Matrix, n: nat)
    requires Shape(a, n, n) && Shape(b, n, n)
  {
    ProductIsIdentity(a, b, n) && ProductIsIdentity(b, a, n)
  }

  /** A matrix is the inverse of one matrix only. */
  lemma InverseOfOne(a: Matrix, a': Matrix, b: Matrix, n: nat)
    requires Shape(a, n, n) && Shape(a', n, n) && Shape(b, n, n)
    requires ProductIsIdentity(a', b, n) && ProductIsIdentity(b, a, n)
    ensures a == a'
  {
    forall r, c | 0 <= r < n && 0 <= c < n
      ensures a[r][c] == a'[r][c]
    {
      var ac := Column(a, n, c);
      var ec := seq(n, k requires 0 <= k < n => Dot(b[k], ac, n));
      DotAssociative(a'[r], b, ac, Unit(n, r), ec, n, n, n);
      DotUnit(n, r, ac, n);
      DotSame(a'[r], a'[r], ec, Unit(n, c), n);
      DotSymmetric(a'[r], Unit(n, c), n);
      DotUnit(n, c, a'[r], n);
    }
    forall r | 0 <= r < n ensures a[r] == a'[r] {
    }
  }
}
