/** Which pivots MatrixInverse meets, and matrices that it does invert. */
module GaussPivots {
  import opened Matrices
  import opened GaussJordan

  // ---- the pivot is the largest entry ---------------------------------------------------

  lemma {:induction false} PivotRowIsFirstLargest(aug: Matrix, n: nat, i: nat, k: nat)
    requires i < k <= n && |aug| == n && forall r | 0 <= r < n :: i < |aug[r]|
    ensures var p := PivotRow(aug, n, i, k);
            && (forall r | i <= r < k :: Abs(aug[r][i]) <= Abs(aug[p][i]))
            && (forall r | i <= r < p :: Abs(aug[r][i]) < Abs(aug[p][i]))
  {
    if k > i + 1 { PivotRowIsFirstLargest(aug, n, i, k - 1); }
  }

  /** The entry divided by is at least as large as every other it could have been, and the rows
      are the same but for the exchange of two. */
  lemma PivotIsLargest(aug: Matrix, n: nat, i: nat) returns (p: nat)
    requires i < n && Shape(aug, n, 2 * n)
    ensures forall r | i <= r < n :: Abs(aug[r][i]) <= Abs(Pivoted(aug, n, i)[i][i])
    ensures i <= p < n && Pivoted(aug, n, i) == aug[i := aug[p]][p := aug[i]]
    ensures forall r | i <= r < p :: Abs(aug[r][i]) < Abs(aug[p][i])
  {
    p := PivotRow(aug, n, i, n);
    PivotRowIsFirstLargest(aug, n, i, n);
  }

  /** A pivot is regularised if and only if its whole column, from the diagonal down, is below
      the threshold. */
  lemma RegularisedExactlyWhen(aug: Matrix, n: nat, i: nat)
    requires i < n && Shape(aug, n, 2 * n)
    ensures TooSmall(Pivoted(aug, n, i)[i][i]) <==> forall r | i <= r < n :: Abs(aug[r][i]) < 0.000000000001
  {
    var p := PivotIsLargest(aug, n, i);
  }

  // ---- scaled permutation matrices --------------------------------------------------------

  /** f and g are permutations of [i, n), inverse to each other. */
  ghost predicate Inverses(f: seq<nat>, g: seq<nat>, i: nat, n: nat) {
    && |f| == |g| == n
    && (forall r | i <= r < n :: i <= f[r] < n && g[f[r]] == r)
    && (forall c | i <= c < n :: i <= g[c] < n && f[g[c]] == c)
  }

  /** The left half is reduced in its first i rows, and below has one entry d[r] in each row r,
      in column f[r]. */
  ghost predicate Scaled(aug: Matrix, n: nat, i: nat, d: Row, f: seq<nat>, g: seq<nat>) {
    && Shape(aug, n, 2 * n) && |d| == n && Inverses(f, g, i, n)
    && forall r, c | 0 <= r < n && 0 <= c < n ::
         aug[r][c] == if r < i then Delta(r, c) else if c == f[r] then d[r] else 0.0
  }

  lemma ScaledPivot(aug: Matrix, n: nat, i: nat, d: Row, f: seq<nat>, g: seq<nat>)
    requires Scaled(aug, n, i, d, f, g) && i < n
    ensures i <= g[i] < n
    ensures TooSmall(Pivoted(aug, n, i)[i][i]) <==> Abs(d[g[i]]) < EPS
    ensures Abs(d[g[i]]) >= EPS ==> Pivoted(aug, n, i) == SwapRows(aug, i, g[i])
  {
    RegularisedExactlyWhen(aug, n, i);
    var q := PivotIsLargest(aug, n, i);
    var p := g[i];
    assert aug[p][i] == d[p];
    assert forall r | i <= r < n && r != p :: aug[r][i] == 0.0;
  }

  /** Columns that are already clear stay as they are. */
  lemma {:induction false} NothingToClear(aug: Matrix, n: nat, i: nat, k: nat)
    requires i < n && k <= n && Shape(aug, n, 2 * n)
    requires forall r | 0 <= r < n && r != i :: aug[r][i] == 0.0
    ensures Cleared(aug, n, i, k) == aug
  {
    if k > 0 {
      NothingToClear(aug, n, i, k - 1);
      if k - 1 != i {
        assert Minus(aug[k - 1], 0.0, aug[i]) == aug[k - 1];
      }
    }
  }

  lemma ScaledStep(aug: Matrix, n: nat, i: nat, d: Row, f: seq<nat>, g: seq<nat>)
    returns (d': Row, f': seq<nat>, g': seq<nat>)
    requires Scaled(aug, n, i, d, f, g) && i < n && Abs(d[g[i]]) >= EPS
    ensures Scaled(Step(aug, n, i), n, i + 1, d', f', g')
    ensures d' == d[g[i] := d[i]]
  {
    var p := g[i];
    ScaledPivot(aug, n, i, d, f, g);
    var swapped := SwapRows(aug, i, p);
    d', f', g' := d[p := d[i]], f[p := f[i]][i := i], g[f[i] := p][i := i];
    assert swapped[i][i] == d[p];
    var m := swapped[i := Divided(swapped[i], d[p])];
    assert Nudged(swapped, i) == swapped && Normalised(aug, n, i) == m;
    SwappedEntries(aug, n, i, d, f, g);
    NothingToClear(m, n, i, n);
    assert Step(aug, n, i) == m;
    InversesAfter(f, g, i, n);
  }

  lemma InversesAfter(f: seq<nat>, g: seq<nat>, i: nat, n: nat)
    requires Inverses(f, g, i, n) && i < n
    ensures Inverses(f[g[i] := f[i]][i := i], g[f[i] := g[i]][i := i], i + 1, n)
  {
  }

  lemma SwappedEntries(aug: Matrix, n: nat, i: nat, d: Row, f: seq<nat>, g: seq<nat>)
    requires Scaled(aug, n, i, d, f, g) && i < n && d[g[i]] != 0.0
    ensures var p := g[i]; var swapped := SwapRows(aug, i, p);
            var m := swapped[i := Divided(swapped[i], d[p])];
            forall r, c | 0 <= r < n && 0 <= c < n ::
              m[r][c] == if r <= i then Delta(r, c) else if c == f[p := f[i]][i := i][r] then d[p := d[i]][r] else 0.0
  {
    assert d[g[i]] / d[g[i]] == 1.0 && 0.0 / d[g[i]] == 0.0;
  }

  lemma {:induction false} ScaledRegularises(aug: Matrix, n: nat, i: nat, d: Row, f: seq<nat>, g: seq<nat>)
    requires Scaled(aug, n, i, d, f, g) && i <= n
    ensures Regularises(aug, n, i) <==> exists r :: i <= r < n && Abs(d[r]) < EPS
    decreases n - i
  {
    hide Step, Pivoted;
    if i < n {
      ScaledPivot(aug, n, i, d, f, g);
      if Abs(d[g[i]]) >= EPS {
        var d', f', g' := ScaledStep(aug, n, i, d, f, g);
        ScaledRegularises(Step(aug, n, i), n, i + 1, d', f', g');
        hide Scaled;
        if r :| i <= r < n && Abs(d[r]) < EPS {
          var r' := if r == i then g[i] else r;
          assert d'[r'] == d[r] && r' > i;
        }
        if r :| i + 1 <= r < n && Abs(d'[r]) < EPS {
          assert d[if r == g[i] then i else r] == d'[r];
        }
      }
    }
  }

  /** The matrix with d[r] in row r and column f[r], and zeros elsewhere. */
  function ScaledPermutation(d: Row, f: seq<nat>): (m: Matrix)
    requires |f| == |d|
    ensures Shape(m, |d|, |d|)
  {
    seq(|d|, r requires 0 <= r < |d| => seq(|d|, c => if c == f[r] then d[r] else 0.0))
  }

  /** A scaled permutation matrix comes back inverted if and only if none of its entries d[r] is
      below the threshold. */
  lemma ScaledPermutationsInvert(d: Row, f: seq<nat>, g: seq<nat>)
    requires Inverses(f, g, 0, |d|)
    ensures var m := ScaledPermutation(d, f);
            IsInverse(m, Inverted(m), |d|) <==> forall r | 0 <= r < |d| :: Abs(d[r]) >= EPS
  {
    var m := ScaledPermutation(d, f);
    assert Scaled(Augmented(m), |d|, 0, d, f, g);
    ScaledRegularises(Augmented(m), |d|, 0, d, f, g);
    var a' := InvertsExactlyUnlessRegularised(m);
  }

  /** So the identity is its own inverse, of any size. */
  lemma IdentityInverts(n: nat)
    ensures Inverted(Identity(n)) == Identity(n)
  {
    var d, f := seq(n, _ => 1.0), seq(n, r => r);
    assert ScaledPermutation(d, f) == Identity(n) by {
      forall r | 0 <= r < n ensures ScaledPermutation(d, f)[r] == Identity(n)[r] {
      }
    }
    ScaledPermutationsInvert(d, f, f);
    IdentityIsItsOwnInverse(n);
    hide Dot, Inverted;
    InverseIsUnique(Identity(n), Inverted(Identity(n)), Identity(n), n);
  }

  lemma IdentityIsItsOwnInverse(n: nat)
    ensures IsInverse(Identity(n), Identity(n), n)
  {
    hide Dot;
    forall r, c | 0 <= r < n && 0 <= c < n
      ensures Dot(Identity(n)[r], Column(Identity(n), n, c), n) == Delta(r, c)
    {
      DotUnit(n, r, Column(Identity(n), n, c), n);
    }
  }

  lemma InverseIsUnique(a: Matrix, b: Matrix, b': Matrix, n: nat)
    requires Shape(a, n, n) && Shape(b, n, n) && Shape(b', n, n)
    requires IsInverse(a, b, n) && IsInverse(a, b', n)
    ensures b == b'
  {
    InverseOfOne(b, b', a, n);
  }

  // ---- one by one ---------------------------------------------------------------------------

  /** What comes back for a one-by-one matrix, regularised or not. */
  lemma OneByOneInverted(x: real)
    ensures Abs(x) >= EPS ==> x != 0.0 && Inverted([[x]]) == [[1.0 / x]]
    ensures Abs(x) < EPS ==> x + EPS != 0.0 && Inverted([[x]]) == [[1.0 / (x + EPS)]]
  {
    var aug := Augmented([[x]]);
    assert aug[0] == [x, 1.0];
    assert PivotRow(aug, 1, 0, 1) == 0;
    assert Pivoted(aug, 1, 0) == [[x, 1.0]];
    var y := if Abs(x) < EPS then x + EPS else x;
    assert [[x, 1.0]][0 := [x, 1.0][0 := x + EPS]] == [[x + EPS, 1.0]] by {
      assert [x, 1.0][0 := x + EPS] == [x + EPS, 1.0];
    }
    assert Nudged([[x, 1.0]], 0) == [[y, 1.0]];
    assert Divided([y, 1.0], y)[1] == 1.0 / y;
    var m := Normalised(aug, 1, 0);
    assert m[0][1] == 1.0 / y;
    assert Cleared(m, 1, 0, 0) == m && Cleared(m, 1, 0, 1) == m;
    assert Reduced(Step(aug, 1, 0), 1, 1) == m;
    assert Reduced(aug, 1, 0) == m;
    assert m[0][1..] == [1.0 / y];
  }
}
