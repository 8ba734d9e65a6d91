/** `NonlinearLeastSquares::MatrixInverse`: Gauss-Jordan elimination on the augmented matrix
    [A | I], over exact reals.

    The method below follows the source loop by loop and is proved equal to `Reduced`, a
    composition of row operations. What the reduction achieves is then proved about
    `Reduced`. The source replaces a pivot smaller than 1e-12 by a slightly larger one; the
    result is then the exact inverse of a slightly different matrix, and never that of A. */
module GaussJordan {
  import opened Matrices

  const EPS := 0.000000000001

  function Abs(x: real): real {
    if x < 0.0 then -x else x
  }

  /** n rows of length 2n: the left half is being reduced, the right half follows along. */
  ghost predicate IsAug(aug: Matrix, n: nat) {
    Shape(aug, n, 2 * n)
  }

  function Augmented(a: Matrix): Matrix
    requires forall r | 0 <= r < |a| :: |a[r]| == |a|
  {
    seq(|a|, r requires 0 <= r < |a| => a[r] + Unit(|a|, r))
  }

  // ---- the row operations of one step --------------------------------------------------

  /** The first row from `from` on, among the first k, with the largest entry in column i. */
  function PivotRow(aug: Matrix, n: nat, i: nat, k: nat): (p: nat)
    requires i < k <= n && |aug| == n && forall r | 0 <= r < n :: i < |aug[r]|
    ensures i <= p < k
  {
    if k == i + 1 then i
    else
      var p := PivotRow(aug, n, i, k - 1);
      if Abs(aug[k - 1][i]) > Abs(aug[p][i]) then k - 1 else p
  }

  function SwapRows(aug: Matrix, i: nat, p: nat): Matrix
    requires i < |aug| && p < |aug|
  {
    aug[i := aug[p]][p := aug[i]]
  }

  predicate TooSmall(pivot: real) {
    Abs(pivot) < EPS
  }

  function Nudged(aug: Matrix, i: nat): Matrix
    requires i < |aug| && i < |aug[i]|
  {
    if TooSmall(aug[i][i]) then aug[i := aug[i][i := aug[i][i] + EPS]] else aug
  }

  function Divided(row: Row, pivot: real): (d: Row)
    requires pivot != 0.0
    ensures |d| == |row|
  {
    seq(|row|, j requires 0 <= j < |row| => row[j] / pivot)
  }

  function Minus(row: Row, f: real, other: Row): (d: Row)
    requires |row| == |other|
    ensures |d| == |row|
  {
    seq(|row|, j requires 0 <= j < |row| => row[j] - f * other[j])
  }

  /** Column i cleared in the first k rows but row i. */
  function Cleared(aug: Matrix, n: nat, i: nat, k: nat): (m: Matrix)
    requires i < n && k <= n && Shape(aug, n, 2 * n)
    ensures Shape(m, n, 2 * n) && m[i] == aug[i] && forall r | k <= r < n :: m[r] == aug[r]
  {
    if k == 0 then aug
    else
      var m := Cleared(aug, n, i, k - 1);
      if k - 1 == i then m else m[k - 1 := Minus(m[k - 1], m[k - 1][i], m[i])]
  }

  lemma PivotIsNonzero(aug: Matrix, i: nat)
    requires i < |aug| && i < |aug[i]|
    ensures Nudged(aug, i)[i][i] != 0.0
  {
  }

  function Pivoted(aug: Matrix, n: nat, i: nat): (m: Matrix)
    requires i < n && Shape(aug, n, 2 * n)
    ensures Shape(m, n, 2 * n)
  {
    SwapRows(aug, i, PivotRow(aug, n, i, n))
  }

  /** The matrix before its column i is cleared. */
  function Normalised(aug: Matrix, n: nat, i: nat): (m: Matrix)
    requires i < n && Shape(aug, n, 2 * n)
    ensures Shape(m, n, 2 * n)
  {
    var nudged := Nudged(Pivoted(aug, n, i), i);
    PivotIsNonzero(Pivoted(aug, n, i), i);
    nudged[i := Divided(nudged[i], nudged[i][i])]
  }

  function Step(aug: Matrix, n: nat, i: nat): (m: Matrix)
    requires i < n && Shape(aug, n, 2 * n)
    ensures Shape(m, n, 2 * n)
  {
    Cleared(Normalised(aug, n, i), n, i, n)
  }

  /** Columns i.. still to be reduced. */
  function Reduced(aug: Matrix, n: nat, i: nat): (m: Matrix)
    requires i <= n && Shape(aug, n, 2 * n)
    ensures Shape(m, n, 2 * n)
    decreases n - i
  {
    if i == n then aug else Reduced(Step(aug, n, i), n, i + 1)
  }

  /** Some pivot met on the way is below the threshold, so the regularisation branch is
      taken. */
  predicate Regularises(aug: Matrix, n: nat, i: nat)
    requires i <= n && Shape(aug, n, 2 * n)
    decreases n - i
  {
    i < n && (TooSmall(Pivoted(aug, n, i)[i][i]) || Regularises(Step(aug, n, i), n, i + 1))
  }

  function RightHalf(aug: Matrix, n: nat): (m: Matrix)
    requires Shape(aug, n, 2 * n)
    ensures Shape(m, n, n)
  {
    seq(n, r requires 0 <= r < n => aug[r][n..])
  }

  // ---- the invariant -------------------------------------------------------------------

  function Target(a: Matrix, n: nat, r: nat, c: nat): real
    requires |a| == n && r < n && |a[r]| == n && c < 2 * n
  {
    if c < n then a[r][c] else Delta(r, c - n)
  }

  /** `back` undoes the row operations so far: back aug = [a | I]. */
  ghost predicate Undoes(back: Matrix, aug: Matrix, a: Matrix, n: nat)
    requires IsAug(aug, n) && Shape(a, n, n) && Shape(back, n, n)
  {
    forall r, c | 0 <= r < n && 0 <= c < 2 * n :: Dot(back[r], Column(aug, n, c), n) == Target(a, n, r, c)
  }

  /** The right half times a is the left half. */
  ghost predicate Performs(aug: Matrix, a: Matrix, n: nat)
    requires IsAug(aug, n) && Shape(a, n, n)
  {
    forall r, c | 0 <= r < n && 0 <= c < n :: Dot(aug[r][n..], Column(a, n, c), n) == aug[r][c]
  }

  ghost predicate Cancels(aug: Matrix, back: Matrix, n: nat)
    requires IsAug(aug, n) && Shape(back, n, n)
  {
    forall r, c | 0 <= r < n && 0 <= c < n :: Dot(aug[r][n..], Column(back, n, c), n) == Delta(r, c)
  }

  ghost predicate Good(aug: Matrix, a: Matrix, back: Matrix, n: nat) {
    && IsAug(aug, n) && Shape(a, n, n) && Shape(back, n, n)
    && Undoes(back, aug, a, n) && Performs(aug, a, n) && Cancels(aug, back, n)
  }

  lemma InitialUndoes(a: Matrix, n: nat)
    requires Shape(a, n, n)
    ensures Undoes(Identity(n), Augmented(a), a, n)
  {
    hide Dot;
    var aug := Augmented(a);
    forall r, c | 0 <= r < n && 0 <= c < 2 * n
      ensures Dot(Identity(n)[r], Column(aug, n, c), n) == Target(a, n, r, c)
    {
      DotUnit(n, r, Column(aug, n, c), n);
    }
  }

  lemma InitialPerforms(a: Matrix, n: nat)
    requires Shape(a, n, n)
    ensures Performs(Augmented(a), a, n) && Cancels(Augmented(a), Identity(n), n)
  {
    hide Dot;
    var aug := Augmented(a);
    forall r, c | 0 <= r < n && 0 <= c < n
      ensures Dot(aug[r][n..], Column(a, n, c), n) == aug[r][c]
      ensures Dot(aug[r][n..], Column(Identity(n), n, c), n) == Delta(r, c)
    {
      assert aug[r][n..] == Unit(n, r);
      DotUnit(n, r, Column(a, n, c), n);
      DotUnit(n, r, Column(Identity(n), n, c), n);
    }
  }

  lemma InitialIsGood(a: Matrix, n: nat)
    requires Shape(a, n, n)
    ensures Good(Augmented(a), a, Identity(n), n)
  {
    hide Undoes, Performs, Cancels;
    InitialUndoes(a, n);
    InitialPerforms(a, n);
  }

  // ---- each row operation keeps it -------------------------------------------------------

  /** Column i of m replaced by `col`. */
  function WithColumn(m: Matrix, n: nat, i: nat, col: Row): (w: Matrix)
    requires Shape(m, n, n) && i < n && |col| == n
    ensures Shape(w, n, n) && forall r | 0 <= r < n :: w[r] == m[r][i := col[r]]
  {
    seq(n, r requires 0 <= r < n => m[r][i := col[r]])
  }

  lemma GoodShapes(aug: Matrix, a: Matrix, back: Matrix, n: nat)
    requires Good(aug, a, back, n)
    ensures IsAug(aug, n) && Shape(a, n, n) && Shape(back, n, n)
  {
  }

  lemma MakeGood(aug: Matrix, a: Matrix, back: Matrix, n: nat)
    requires IsAug(aug, n) && Shape(a, n, n) && Shape(back, n, n)
    requires Undoes(back, aug, a, n) && Performs(aug, a, n) && Cancels(aug, back, n)
    ensures Good(aug, a, back, n)
  {
  }

  lemma SwapKeeps(aug: Matrix, a: Matrix, back: Matrix, n: nat, i: nat, p: nat) returns (back': Matrix)
    requires Good(aug, a, back, n) && i < n && p < n
    ensures Good(SwapRows(aug, i, p), a, back', n)
  {
    hide Dot;
    var aug' := SwapRows(aug, i, p);
    back' := seq(n, r requires 0 <= r < n => back[r][i := back[r][p]][p := back[r][i]]);
    forall r, c | 0 <= r < n && 0 <= c < 2 * n
      ensures Dot(back'[r], Column(aug', n, c), n) == Target(a, n, r, c)
    {
      var y := Column(aug, n, c);
      assert Column(aug', n, c) == y[i := y[p]][p := y[i]];
      DotSwapBoth(back[r], y, i, p, n);
    }
    forall r, c | 0 <= r < n && 0 <= c < n
      ensures Dot(aug'[r][n..], Column(back', n, c), n) == Delta(r, c)
    {
      var r0 := if r == i then p else if r == p then i else r;
      var c0 := if c == i then p else if c == p then i else c;
      assert aug'[r] == aug[r0] && Column(back', n, c) == Column(back, n, c0);
    }
  }

  /** Nudging the pivot keeps the invariant for a nudged matrix: a with a multiple of column
      i of `back` added to its column i. */
  lemma NudgeKeeps(aug: Matrix, a: Matrix, back: Matrix, n: nat, i: nat, eps: real) returns (a': Matrix)
    requires Good(aug, a, back, n) && i < n
    ensures Good(aug[i := aug[i][i := aug[i][i] + eps]], a', back, n)
    ensures a' == NudgedMatrix(a, back, n, i, eps)
  {
    hide Good, Dot, Column, NudgedMatrix;
    GoodShapes(aug, a, back, n);
    var aug' := aug[i := aug[i][i := aug[i][i] + eps]];
    a' := NudgedMatrix(a, back, n, i, eps);
    forall r, c | 0 <= r < n && 0 <= c < 2 * n
      ensures Dot(back[r], Column(aug', n, c), n) == Target(a', n, r, c)
    {
      NudgeUndo(aug, a, back, n, i, eps, r, c);
    }
    forall r, c | 0 <= r < n && 0 <= c < n
      ensures aug'[r][n..] == aug[r][n..]
      ensures Dot(aug'[r][n..], Column(a', n, c), n) == aug'[r][c]
      ensures Dot(aug'[r][n..], Column(back, n, c), n) == Delta(r, c)
    {
      assert aug'[r][n..] == aug[r][n..];
      NudgeEntry(aug, a, back, n, i, eps, r, c);
    }
    MakeGood(aug', a', back, n);
  }

  function NudgedMatrix(a: Matrix, back: Matrix, n: nat, i: nat, eps: real): (w: Matrix)
    requires Shape(a, n, n) && Shape(back, n, n) && i < n
    ensures Shape(w, n, n)
    ensures forall r | 0 <= r < n :: w[r][i] == a[r][i] + eps * back[r][i] && w[r] == a[r][i := w[r][i]]
  {
    var col := seq(n, r requires 0 <= r < n => a[r][i] + eps * back[r][i]);
    WithColumn(a, n, i, col)
  }

  lemma NudgeUndo(aug: Matrix, a: Matrix, back: Matrix, n: nat, i: nat, eps: real, r: nat, c: nat)
    requires Good(aug, a, back, n) && i < n && r < n && c < 2 * n
    ensures Dot(back[r], Column(aug[i := aug[i][i := aug[i][i] + eps]], n, c), n)
         == Target(NudgedMatrix(a, back, n, i, eps), n, r, c)
  {
    hide Dot, NudgedMatrix;
    var row := aug[i][i := aug[i][i] + eps];
    var y := Column(aug, n, c);
    ColumnOfUpdate(aug, n, i, row, c);
    if c == i {
      DotUpdateRight(back[r], y, i, row[i], n);
      assert row[i] - y[i] == eps;
    } else {
      assert y[i := row[c]] == y;
    }
  }

  lemma NudgeEntry(aug: Matrix, a: Matrix, back: Matrix, n: nat, i: nat, eps: real, r: nat, c: nat)
    requires Good(aug, a, back, n) && i < n && r < n && c < n
    ensures Dot(aug[r][n..], Column(NudgedMatrix(a, back, n, i, eps), n, c), n)
         == aug[i := aug[i][i := aug[i][i] + eps]][r][c]
    ensures Dot(aug[r][n..], Column(back, n, c), n) == Delta(r, c)
  {
    hide Dot, NudgedMatrix;
    var a' := NudgedMatrix(a, back, n, i, eps);
    if c == i {
      DotLinearRight(aug[r][n..], Column(a', n, i), Column(a, n, i), eps, Column(back, n, i), n);
    } else {
      assert Column(a', n, c) == Column(a, n, c);
    }
  }

  /** The column operations on `back` that undo a division and a subtraction. */
  function ScaledColumn(m: Matrix, n: nat, i: nat, p: real): (w: Matrix)
    requires Shape(m, n, n) && i < n
    ensures Shape(w, n, n) && forall r | 0 <= r < n :: w[r] == m[r][i := w[r][i]] && w[r][i] == p * m[r][i]
  {
    var col := seq(n, r requires 0 <= r < n => p * m[r][i]);
    WithColumn(m, n, i, col)
  }

  function ShearedColumn(m: Matrix, n: nat, i: nat, k: nat, f: real): (w: Matrix)
    requires Shape(m, n, n) && i < n && k < n
    ensures Shape(w, n, n) && forall r | 0 <= r < n :: w[r] == m[r][i := w[r][i]] && w[r][i] == m[r][i] + f * m[r][k]
  {
    var col := seq(n, r requires 0 <= r < n => m[r][i] + f * m[r][k]);
    WithColumn(m, n, i, col)
  }

  lemma DivideKeeps(aug: Matrix, a: Matrix, back: Matrix, n: nat, i: nat, p: real) returns (back': Matrix)
    requires Good(aug, a, back, n) && i < n && p != 0.0
    ensures Good(aug[i := Divided(aug[i], p)], a, back', n)
  {
    hide Good, Target, Delta, Dot, Column, Divided;
    GoodShapes(aug, a, back, n);
    var aug' := aug[i := Divided(aug[i], p)];
    back' := ScaledColumn(back, n, i, p);
    forall r, c | 0 <= r < n && 0 <= c < 2 * n
      ensures Dot(back'[r], Column(aug', n, c), n) == Target(a, n, r, c)
    {
      DivideUndo(aug, a, back, n, i, p, back'[r][i], r, c);
    }
    forall r, c | 0 <= r < n && 0 <= c < n
      ensures Dot(aug'[r][n..], Column(a, n, c), n) == aug'[r][c]
      ensures Dot(aug'[r][n..], Column(back', n, c), n) == Delta(r, c)
    {
      DivideEntry(aug, a, back, back', n, i, p, r, c);
    }
    MakeGood(aug', a, back', n);
  }

  lemma DivideUndo(aug: Matrix, a: Matrix, back: Matrix, n: nat, i: nat, p: real, u: real, r: nat, c: nat)
    requires Good(aug, a, back, n) && i < n && p != 0.0 && r < n && c < 2 * n && u == p * back[r][i]
    ensures Dot(back[r][i := u], Column(aug[i := Divided(aug[i], p)], n, c), n) == Target(a, n, r, c)
  {
    hide Dot;
    var y := Column(aug, n, c);
    ColumnOfUpdate(aug, n, i, Divided(aug[i], p), c);
    DotScaleBoth(back[r], y, i, p, u, Divided(aug[i], p)[c], n);
  }

  lemma DivideEntry(aug: Matrix, a: Matrix, back: Matrix, back': Matrix, n: nat, i: nat, p: real, r: nat, c: nat)
    requires Good(aug, a, back, n) && i < n && p != 0.0 && r < n && c < n
    requires back' == ScaledColumn(back, n, i, p)
    ensures var aug' := aug[i := Divided(aug[i], p)];
            && Dot(aug'[r][n..], Column(a, n, c), n) == aug'[r][c]
            && Dot(aug'[r][n..], Column(back', n, c), n) == Delta(r, c)
  {
    hide Dot;
    DivideBack(aug, a, back, back', n, i, p, r, c);
    if r == i {
      var q, q' := aug[i][n..], Divided(aug[i], p)[n..];
      ReciprocalRow(q, q', p, n);
      DotScaled(q', q, 1.0 / p, Column(a, n, c), n);
      DotScaled(q', q, 1.0 / p, Column(back', n, c), n);
    }
  }

  lemma ReciprocalRow(q: Row, q': Row, p: real, n: nat)
    requires p != 0.0 && |q| == |q'| == n && forall j | 0 <= j < n :: q'[j] == q[j] / p
    ensures forall j | 0 <= j < n :: q'[j] == (1.0 / p) * q[j]
  {
  }

  /** The untouched rows against the changed column of `back`. */
  lemma DivideBack(aug: Matrix, a: Matrix, back: Matrix, back': Matrix, n: nat, i: nat, p: real, r: nat, c: nat)
    requires Good(aug, a, back, n) && i < n && p != 0.0 && r < n && c < n
    requires back' == ScaledColumn(back, n, i, p)
    ensures Dot(aug[r][n..], Column(back', n, c), n) == if c == i && r == i then p else Delta(r, c)
  {
    hide Dot, ScaledColumn;
    var q := aug[r][n..];
    var bc, bc' := Column(back, n, c), Column(back', n, c);
    if c == i {
      DotSymmetric(q, bc', n);
      DotScaled(bc', bc, p, q, n);
      DotSymmetric(q, bc, n);
    } else {
      assert bc' == bc;
    }
  }

  lemma SubtractKeeps(aug: Matrix, a: Matrix, back: Matrix, n: nat, i: nat, k: nat, f: real) returns (back': Matrix)
    requires Good(aug, a, back, n) && i < n && k < n && i != k
    ensures Good(aug[k := Minus(aug[k], f, aug[i])], a, back', n)
  {
    hide Good, Target, Delta, Dot, Column, Minus;
    GoodShapes(aug, a, back, n);
    var aug' := aug[k := Minus(aug[k], f, aug[i])];
    back' := ShearedColumn(back, n, i, k, f);
    forall r, c | 0 <= r < n && 0 <= c < 2 * n
      ensures Dot(back'[r], Column(aug', n, c), n) == Target(a, n, r, c)
    {
      SubtractUndo(aug, a, back, n, i, k, f, back'[r][i], r, c);
    }
    forall r, c | 0 <= r < n && 0 <= c < n
      ensures Dot(aug'[r][n..], Column(a, n, c), n) == aug'[r][c]
      ensures Dot(aug'[r][n..], Column(back', n, c), n) == Delta(r, c)
    {
      SubtractEntry(aug, a, back, back', n, i, k, f, r, c);
    }
    MakeGood(aug', a, back', n);
  }

  lemma SubtractUndo(aug: Matrix, a: Matrix, back: Matrix, n: nat, i: nat, k: nat, f: real, u: real, r: nat, c: nat)
    requires Good(aug, a, back, n) && i < n && k < n && i != k && r < n && c < 2 * n && u == back[r][i] + f * back[r][k]
    ensures Dot(back[r][i := u], Column(aug[k := Minus(aug[k], f, aug[i])], n, c), n)
         == Target(a, n, r, c)
  {
    hide Dot;
    var y := Column(aug, n, c);
    ColumnOfUpdate(aug, n, k, Minus(aug[k], f, aug[i]), c);
    DotShearBoth(back[r], y, i, k, f, u, Minus(aug[k], f, aug[i])[c], n);
  }

  lemma SubtractEntry(aug: Matrix, a: Matrix, back: Matrix, back': Matrix, n: nat, i: nat, k: nat, f: real, r: nat, c: nat)
    requires Good(aug, a, back, n) && i < n && k < n && i != k && r < n && c < n
    requires back' == ShearedColumn(back, n, i, k, f)
    ensures var aug' := aug[k := Minus(aug[k], f, aug[i])];
            && Dot(aug'[r][n..], Column(a, n, c), n) == aug'[r][c]
            && Dot(aug'[r][n..], Column(back', n, c), n) == Delta(r, c)
  {
    hide Dot;
    SubtractBack(aug, a, back, back', n, i, k, f, r, c);
    SubtractBack(aug, a, back, back', n, i, k, f, i, c);
    if r == k {
      var q, q', z := aug[k][n..], Minus(aug[k], f, aug[i])[n..], aug[i][n..];
      assert IsCombination(q', q, -f, z, n);
      DotLinear(q', q, -f, z, Column(a, n, c), n);
      DotLinear(q', q, -f, z, Column(back', n, c), n);
    }
  }

  /** The untouched rows against the changed column of `back`. */
  lemma SubtractBack(aug: Matrix, a: Matrix, back: Matrix, back': Matrix, n: nat, i: nat, k: nat, f: real, r: nat, c: nat)
    requires Good(aug, a, back, n) && i < n && k < n && i != k && r < n && c < n
    requires back' == ShearedColumn(back, n, i, k, f)
    ensures Dot(aug[r][n..], Column(back', n, c), n) == Delta(r, c) + if c == i && r == k then f else 0.0
  {
    hide Dot;
    var bc, bc' := Column(back, n, c), Column(back', n, c);
    if c == i {
      assert IsCombination(bc', bc, f, Column(back, n, k), n);
      DotLinearRight(aug[r][n..], bc', bc, f, Column(back, n, k), n);
    } else {
      assert bc' == bc;
    }
  }

  lemma {:induction false} ClearKeeps(aug: Matrix, a: Matrix, back: Matrix, n: nat, i: nat, k: nat) returns (back': Matrix)
    requires Good(aug, a, back, n) && i < n && k <= n
    ensures Good(Cleared(aug, n, i, k), a, back', n)
    decreases k
  {
    if k == 0 {
      back' := back;
    } else {
      back' := ClearKeeps(aug, a, back, n, i, k - 1);
      var m := Cleared(aug, n, i, k - 1);
      if k - 1 != i {
        back' := SubtractKeeps(m, a, back', n, i, k - 1, m[k - 1][i]);
      }
    }
  }

  // ---- progress --------------------------------------------------------------------------

  /** The first m columns are those of the identity. */
  ghost predicate UnitColumns(aug: Matrix, n: nat, m: nat)
    requires IsAug(aug, n) && m <= n
  {
    forall r, c | 0 <= r < n && 0 <= c < m :: aug[r][c] == Delta(r, c)
  }

  lemma {:induction false} ClearedRow(aug: Matrix, n: nat, i: nat, k: nat, r: nat)
    requires i < n && k <= n && r < k && IsAug(aug, n)
    ensures Cleared(aug, n, i, k)[r] == if r == i then aug[i] else Minus(aug[r], aug[r][i], aug[i])
    decreases k
  {
    if r < k - 1 { ClearedRow(aug, n, i, k - 1, r); }
  }

  lemma PivotedColumns(aug: Matrix, n: nat, i: nat)
    requires i < n && IsAug(aug, n) && UnitColumns(aug, n, i)
    ensures UnitColumns(Pivoted(aug, n, i), n, i)
  {
  }

  lemma NudgedColumns(aug: Matrix, n: nat, i: nat)
    requires i < n && IsAug(aug, n) && UnitColumns(aug, n, i)
    ensures IsAug(Nudged(aug, i), n) && UnitColumns(Nudged(aug, i), n, i)
  {
  }

  lemma QuotientOfItself(x: real)
    requires x != 0.0
    ensures x / x == 1.0
  {
  }

  lemma NormalisedColumns(aug: Matrix, n: nat, i: nat)
    requires i < n && IsAug(aug, n) && UnitColumns(aug, n, i)
    ensures UnitColumns(Normalised(aug, n, i), n, i) && Normalised(aug, n, i)[i][i] == 1.0
  {
    hide Pivoted, Nudged;
    PivotedColumns(aug, n, i);
    NudgedColumns(Pivoted(aug, n, i), n, i);
    var nudged := Nudged(Pivoted(aug, n, i), i);
    PivotIsNonzero(Pivoted(aug, n, i), i);
    QuotientOfItself(nudged[i][i]);
    forall c | 0 <= c < i
      ensures Normalised(aug, n, i)[i][c] == 0.0
    {
      assert nudged[i][c] == 0.0;
    }
  }

  lemma StepMakesUnitColumn(aug: Matrix, n: nat, i: nat)
    requires i < n && IsAug(aug, n) && UnitColumns(aug, n, i)
    ensures UnitColumns(Step(aug, n, i), n, i + 1)
  {
    hide Normalised, Cleared;
    NormalisedColumns(aug, n, i);
    var m := Normalised(aug, n, i);
    forall r, c | 0 <= r < n && 0 <= c < i + 1
      ensures Step(aug, n, i)[r][c] == Delta(r, c)
    {
      ClearedRow(m, n, i, n, r);
      assert m[r][c] == if c < i then Delta(r, c) else m[r][i];
      assert c < i ==> m[i][c] == 0.0;
    }
  }

  /** a' differs from a at most in columns from i on. */
  ghost predicate SameBefore(a: Matrix, a': Matrix, n: nat, i: nat)
    requires Shape(a, n, n) && Shape(a', n, n)
  {
    forall r, c | 0 <= r < n && 0 <= c < n && c < i :: a'[r][c] == a[r][c]
  }

  lemma ColumnOfBackIsNonzero(aug: Matrix, a: Matrix, back: Matrix, n: nat, i: nat) returns (r: nat)
    requires Good(aug, a, back, n) && i < n
    ensures r < n && back[r][i] != 0.0
  {
    if forall r | 0 <= r < n :: back[r][i] == 0.0 {
      DotZero(aug[i][n..], Column(back, n, i), n);
      assert false;
    }
    r :| 0 <= r < n && back[r][i] != 0.0;
  }

  /** One step: still good, for a itself unless the pivot had to be nudged, and then for a
      matrix that differs from a in column i and nowhere else. */
  lemma StepKeeps(aug: Matrix, a: Matrix, back: Matrix, n: nat, i: nat) returns (a': Matrix, back': Matrix, r: nat)
    requires Good(aug, a, back, n) && i < n
    ensures Good(Step(aug, n, i), a', back', n)
    ensures SameBefore(a, a', n, i)
    ensures !TooSmall(Pivoted(aug, n, i)[i][i]) ==> a' == a
    ensures TooSmall(Pivoted(aug, n, i)[i][i]) ==> r < n && a'[r][i] != a[r][i]
  {
    hide Good;
    GoodShapes(aug, a, back, n);
    back' := SwapKeeps(aug, a, back, n, i, PivotRow(aug, n, i, n));
    var p := Pivoted(aug, n, i);
    a', r := a, 0;
    if TooSmall(p[i][i]) {
      r := ColumnOfBackIsNonzero(p, a, back', n, i);
      GoodShapes(p, a, back', n);
      a' := NudgeKeeps(p, a, back', n, i, EPS);
    }
    var nudged := Nudged(p, i);
    PivotIsNonzero(p, i);
    back' := DivideKeeps(nudged, a', back', n, i, nudged[i][i]);
    back' := ClearKeeps(nudged[i := Divided(nudged[i], nudged[i][i])], a', back', n, i, n);
  }

  /** The whole reduction: good for some a', equal to a exactly when no pivot was nudged. */
  lemma {:induction false} ReducedKeeps(aug: Matrix, a: Matrix, back: Matrix, n: nat, i: nat) returns (a': Matrix, back': Matrix)
    requires Good(aug, a, back, n) && i <= n && UnitColumns(aug, n, i)
    ensures Good(Reduced(aug, n, i), a', back', n) && UnitColumns(Reduced(aug, n, i), n, n)
    ensures SameBefore(a, a', n, i)
    ensures a' == a <==> !Regularises(aug, n, i)
    decreases n - i
  {
    hide Good, Step, Pivoted;
    GoodShapes(aug, a, back, n);
    if i == n {
      a', back' := a, back;
    } else {
      var a1, back1, r := StepKeeps(aug, a, back, n, i);
      StepMakesUnitColumn(aug, n, i);
      GoodShapes(Step(aug, n, i), a1, back1, n);
      a', back' := ReducedKeeps(Step(aug, n, i), a1, back1, n, i + 1);
      GoodShapes(Reduced(aug, n, i), a', back', n);
      if TooSmall(Pivoted(aug, n, i)[i][i]) {
        assert a'[r][i] == a1[r][i] != a[r][i];
      }
    }
  }

  lemma GoodAndReducedIsInverse(aug: Matrix, a: Matrix, back: Matrix, n: nat)
    requires Good(aug, a, back, n) && UnitColumns(aug, n, n)
    ensures IsInverse(a, RightHalf(aug, n), n)
  {
    hide Dot;
    var b := RightHalf(aug, n);
    forall r, c | 0 <= r < n && 0 <= c < n
      ensures Dot(b[r], Column(a, n, c), n) == Delta(r, c)
    {
    }
    forall r, c | 0 <= r < n && 0 <= c < n
      ensures back[r][c] == a[r][c]
    {
      var unit := Column(aug, n, c);
      forall j | 0 <= j < n ensures unit[j] == Unit(n, c)[j] {
      }
      assert unit == Unit(n, c);
      DotSymmetric(back[r], unit, n);
      DotUnit(n, c, back[r], n);
      assert Dot(back[r], unit, n) == Target(a, n, r, c);
    }
    forall r | 0 <= r < n ensures back[r] == a[r] {
    }
    forall r, c | 0 <= r < n && 0 <= c < n
      ensures Dot(a[r], Column(b, n, c), n) == Delta(r, c)
    {
      assert Column(b, n, c) == Column(aug, n, c + n);
      assert Dot(back[r], Column(aug, n, c + n), n) == Target(a, n, r, c + n);
    }
  }

  /** The matrix MatrixInverse returns. */
  function Inverted(a: Matrix): (b: Matrix)
    requires Shape(a, |a|, |a|)
    ensures Shape(b, |a|, |a|)
  {
    RightHalf(Reduced(Augmented(a), |a|, 0), |a|)
  }

  /** MatrixInverse returns the inverse of the given matrix exactly when the regularisation
      branch is never taken. Otherwise it returns the exact inverse of another matrix. */
  lemma InvertsExactlyUnlessRegularised(a: Matrix) returns (a': Matrix)
    requires Shape(a, |a|, |a|)
    ensures Shape(a', |a|, |a|) && IsInverse(a', Inverted(a), |a|)
    ensures IsInverse(a, Inverted(a), |a|) <==> !Regularises(Augmented(a), |a|, 0)
  {
    hide Dot, Good, Reduced, Regularises;
    var n := |a|;
    InitialIsGood(a, n);
    var back;
    GoodShapes(Augmented(a), a, Identity(n), n);
    a', back := ReducedKeeps(Augmented(a), a, Identity(n), n, 0);
    GoodShapes(Reduced(Augmented(a), n, 0), a', back, n);
    GoodAndReducedIsInverse(Reduced(Augmented(a), n, 0), a', back, n);
    if IsInverse(a, Inverted(a), n) {
      InverseOfOne(a, a', Inverted(a), n);
    }
  }

  /** A matrix without an inverse always takes the regularisation branch. */
  lemma SingularIsRegularised(a: Matrix)
    requires Shape(a, |a|, |a|)
    requires forall b | Shape(b, |a|, |a|) :: !IsInverse(a, b, |a|)
    ensures Regularises(Augmented(a), |a|, 0)
  {
    var a' := InvertsExactlyUnlessRegularised(a);
    assert !IsInverse(a, Inverted(a), |a|);
  }

  // ---- the regularisation branch is reached --------------------------------------------

  /** The one-by-one matrix [x], for x below the threshold, takes the regularisation branch. */
  lemma TinyIsRegularised(x: real)
    requires Abs(x) < EPS
    ensures Shape(Augmented([[x]]), 1, 2) && Regularises(Augmented([[x]]), 1, 0)
  {
    var aug := Augmented([[x]]);
    assert aug[0] == [x] + Unit(1, 0);
    assert PivotRow(aug, 1, 0, 1) == 0;
    assert Pivoted(aug, 1, 0) == SwapRows(aug, 0, 0);
  }

  /** So even an invertible matrix can come back with something else than its inverse. */
  lemma InvertibleIsNotInverted()
    ensures IsInverse([[EPS / 2.0]], [[2.0 / EPS]], 1)
    ensures !IsInverse([[EPS / 2.0]], Inverted([[EPS / 2.0]]), 1)
  {
    var a := [[EPS / 2.0]];
    TinyIsRegularised(EPS / 2.0);
    var a' := InvertsExactlyUnlessRegularised(a);
    OneByOne(EPS / 2.0, 2.0 / EPS);
  }

  lemma OneByOne(x: real, y: real)
    requires x * y == 1.0
    ensures IsInverse([[x]], [[y]], 1)
  {
    var a, b := [[x]], [[y]];
    assert Column(b, 1, 0) == [y] && Column(a, 1, 0) == [x];
    assert Dot([x], [y], 1) == Dot([x], [y], 0) + x * y;
    assert Dot([y], [x], 1) == Dot([y], [x], 0) + y * x;
  }
}
