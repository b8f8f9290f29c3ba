/**
  Gaussian elimination with partial pivoting followed by back substitution,
  as in gaussian_elimination (main.c) and gaussianElimination (main_code.js).

  Arithmetic is exact: the floating-point pivot test |a[i][i]| < 1e-9 of
  the JavaScript version becomes a[i][i] == 0. The two versions differ in
  two ways, and both are modelled:
  - the C version swaps only the entries of columns i.. of the two rows,
    the JavaScript version swaps whole rows; SwapTailIsSwap shows that the
    two agree at every step;
  - only the JavaScript version checks the pivot and reports a singular
    matrix; the C version divides by it regardless, so it is modelled with
    a nonsingular matrix as precondition.
*/
module Gauss {
  import opened Matrices

  datatype SolveResult = Solved(x: Vector) | SingularMatrix

  /** Every column c < i is zero below the diagonal. */
  ghost predicate ZeroBelow(a: Matrix, n: nat, i: nat)
    requires IsSquare(a, n)
  {
    forall r, c :: 0 <= c < i && c < r < n ==> a[r][c] == 0.0
  }

  ghost predicate UpperTriangular(a: Matrix, n: nat)
    requires IsSquare(a, n)
  {
    ZeroBelow(a, n, n)
  }

  /** The first i diagonal entries are nonzero. */
  ghost predicate NonzeroDiagonal(a: Matrix, n: nat, i: nat)
    requires IsSquare(a, n) && i <= n
  {
    forall r :: 0 <= r < i ==> a[r][r] != 0.0
  }

  /** The pivot search of column i: the first row in [i, n) whose entry in
      column i has the largest absolute value (a later row replaces the
      current choice only when strictly larger). */
  method FindPivotRow(a: Matrix, n: nat, i: nat) returns (maxRow: nat)
    requires IsSquare(a, n) && i < n
    ensures i <= maxRow < n
    ensures forall r :: i <= r < n ==> Abs(a[r][i]) <= Abs(a[maxRow][i])
    ensures forall r :: i <= r < maxRow ==> Abs(a[r][i]) < Abs(a[maxRow][i])
  {
    maxRow := i;
    var j := i + 1;
    while j < n
      invariant i < j <= n
      invariant i <= maxRow < j
      invariant forall r :: i <= r < j ==> Abs(a[r][i]) <= Abs(a[maxRow][i])
      invariant forall r :: i <= r < maxRow ==> Abs(a[r][i]) < Abs(a[maxRow][i])
    {
      if Abs(a[j][i]) > Abs(a[maxRow][i]) {
        maxRow := j;
      }
      j := j + 1;
    }
  }

  /** Exchange of entries i and p (rows of a matrix, or entries of b). */
  function Swap<T>(s: seq<T>, i: nat, p: nat): (t: seq<T>)
    requires i < |s| && p < |s|
    ensures |t| == |s| && t[i] == s[p] && t[p] == s[i]
    ensures forall r :: 0 <= r < |s| && r != i && r != p ==> t[r] == s[r]
  {
    s[i := s[p]][p := s[i]]
  }

  /** The C swap: rows i and p exchange their entries in columns i..n-1 only. */
  function SwapTail(a: Matrix, n: nat, i: nat, p: nat): (t: Matrix)
    requires IsSquare(a, n) && i <= p < n
  {
    var rowI := seq(n, c requires 0 <= c < n => if c < i then a[i][c] else a[p][c]);
    var rowP := seq(n, c requires 0 <= c < n => if c < i then a[p][c] else a[i][c]);
    a[i := rowI][p := rowP]
  }

  /** Below a zeroed lower-left block, exchanging the tails of two rows is
      exchanging the rows. */
  lemma SwapTailIsSwap(a: Matrix, n: nat, i: nat, p: nat)
    requires IsSquare(a, n) && i <= p < n
    requires ZeroBelow(a, n, i)
    ensures SwapTail(a, n, i, p) == Swap(a, i, p)
  {
    var t := SwapTail(a, n, i, p);
    var s := Swap(a, i, p);
    assert t[i] == s[i] by {
      assert forall c :: 0 <= c < i ==> a[i][c] == 0.0 && a[p][c] == 0.0;
    }
    assert t[p] == s[p] by {
      assert forall c :: 0 <= c < i ==> a[i][c] == 0.0 && a[p][c] == 0.0;
    }
  }

  /** Exchanging two rows i, p >= i (with their right-hand sides) keeps the
      solution set, the kernel and the elimination invariants. */
  lemma SwapStep(a: Matrix, b: Vector, n: nat, i: nat, p: nat)
    requires IsSquare(a, n) && |b| == n && i <= p < n
    requires ZeroBelow(a, n, i) && NonzeroDiagonal(a, n, i)
    ensures IsSquare(Swap(a, i, p), n)
    ensures ZeroBelow(Swap(a, i, p), n, i) && NonzeroDiagonal(Swap(a, i, p), n, i)
    ensures Equivalent(a, b, Swap(a, i, p), Swap(b, i, p))
    ensures Swap(Zeros(n), i, p) == Zeros(n)
  {
  }

  /** After moving the pivot row to position i, its entry dominates column i. */
  lemma PivotAfterSwap(a: Matrix, n: nat, i: nat, p: nat)
    requires IsSquare(a, n) && i <= p < n
    requires forall r :: i <= r < n ==> Abs(a[r][i]) <= Abs(a[p][i])
    ensures forall r :: i <= r < n ==> Abs(Swap(a, i, p)[r][i]) <= Abs(Swap(a, i, p)[i][i])
  {
  }

  /** Rows below i with the multiple a[r][i]/a[i][i] of row i subtracted,
      on columns i..n-1 as both implementations do; rows up to i are kept. */
  function EliminateBelow(a: Matrix, n: nat, i: nat): (e: Matrix)
    requires IsSquare(a, n) && i < n && a[i][i] != 0.0
  {
    seq(n, r requires 0 <= r < n =>
      if r <= i then a[r]
      else (
        seq(n, c requires 0 <= c < n =>
          if c < i then a[r][c] else a[r][c] - a[r][i] / a[i][i] * a[i][c])))
  }

  /** The same row operations applied to the right-hand side. */
  function EliminateRhs(a: Matrix, b: Vector, n: nat, i: nat): (e: Vector)
    requires IsSquare(a, n) && |b| == n && i < n && a[i][i] != 0.0
  {
    seq(n, r requires 0 <= r < n =>
      if r <= i then b[r] else b[r] - a[r][i] / a[i][i] * b[i])
  }

  /** Eliminating column i zeroes it below the pivot and keeps rows 0..i. */
  lemma EliminationZeroesColumn(a: Matrix, n: nat, i: nat)
    requires IsSquare(a, n) && i < n && a[i][i] != 0.0
    requires ZeroBelow(a, n, i) && NonzeroDiagonal(a, n, i)
    ensures IsSquare(EliminateBelow(a, n, i), n)
    ensures forall r :: i < r < n ==> EliminateBelow(a, n, i)[r][i] == 0.0
    ensures ZeroBelow(EliminateBelow(a, n, i), n, i + 1)
    ensures NonzeroDiagonal(EliminateBelow(a, n, i), n, i + 1)
    ensures forall r :: 0 <= r <= i ==> EliminateBelow(a, n, i)[r] == a[r]
  {
  }

  /** An eliminated row is the old row minus f times the pivot row, so its
      dot product with any x is the corresponding combination. */
  lemma EliminatedRowDot(a: Matrix, n: nat, i: nat, r: nat, x: Vector)
    requires IsSquare(a, n) && i < r < n && a[i][i] != 0.0 && |x| == n
    requires ZeroBelow(a, n, i)
    ensures |EliminateBelow(a, n, i)[r]| == n
    ensures Dot(EliminateBelow(a, n, i)[r], x) == Dot(a[r], x) - a[r][i] / a[i][i] * Dot(a[i], x)
  {
    var row := EliminateBelow(a, n, i)[r];
    var f := a[r][i] / a[i][i];
    forall c | 0 <= c < n
      ensures row[c] == a[r][c] - f * a[i][c]
    {
      if c < i {
        assert a[i][c] == 0.0;
      }
    }
    SumRowCombination(a[r], a[i], row, f, x, 0, n);
  }

  /** Eliminating column i keeps the solution set, given that row i is zero
      left of the pivot; on a zero right-hand side it leaves zero. */
  lemma EliminationPreservesSolutions(a: Matrix, b: Vector, n: nat, i: nat)
    requires IsSquare(a, n) && |b| == n && i < n && a[i][i] != 0.0
    requires ZeroBelow(a, n, i)
    ensures Equivalent(a, b, EliminateBelow(a, n, i), EliminateRhs(a, b, n, i))
    ensures EliminateRhs(a, Zeros(n), n, i) == Zeros(n)
  {
    var a', b' := EliminateBelow(a, n, i), EliminateRhs(a, b, n, i);
    assert IsSquare(a', n);
    forall x | Solves(a, b, x)
      ensures Solves(a', b', x)
    {
      forall r | 0 <= r < n
        ensures Dot(a'[r], x) == b'[r]
      {
        if r > i {
          EliminatedRowDot(a, n, i, r, x);
        }
      }
    }
    forall x | Solves(a', b', x)
      ensures Solves(a, b, x)
    {
      assert Dot(a[i], x) == b[i] by {
        assert a'[i] == a[i] && b'[i] == b[i];
      }
      forall r | 0 <= r < n
        ensures Dot(a[r], x) == b[r]
      {
        if r > i {
          EliminatedRowDot(a, n, i, r, x);
        }
      }
    }
  }

  /** Row r of a·y = b holds given that a is zero left of the diagonal:
      a[r][r]·y[r] + Σ_{j>r} a[r][j]·y[j] = b[r]. */
  ghost predicate RowSolved(a: Matrix, b: Vector, n: nat, y: Vector, r: nat)
    requires IsSquare(a, n) && |b| == n && |y| == n && r < n
  {
    a[r][r] * y[r] + Sum(a[r], y, r + 1, n) == b[r]
  }

  /** Back substitution over rows i-1 down to 0, starting from x: row r gets
      x[r] = (b[r] - Σ_{c>r} a[r][c]·x[c]) / a[r][r]. */
  function BackSub(a: Matrix, b: Vector, n: nat, i: nat, x: Vector): (y: Vector)
    requires IsSquare(a, n) && |b| == n && |x| == n && i <= n
    requires NonzeroDiagonal(a, n, i)
    ensures |y| == n
    ensures forall r :: i <= r < n ==> y[r] == x[r]
    ensures forall r :: 0 <= r < i ==> RowSolved(a, b, n, y, r)
    decreases i
  {
    if i == 0 then x
    else
      var r := i - 1;
      var known := Sum(a[r], x, r + 1, n);
      var v := (b[r] - known) / a[r][r];
      DivisionSolves(a[r][r], known, b[r], v);
      var y := BackSub(a, b, n, r, x[r := v]);
      BackSubRow(a, b, n, r, x, v, y);
      y
  }

  /** Row r is solved once x[r] is set to the v with
      a[r][r]·v + Σ_{j>r} a[r][j]·x[j] = b[r], whatever later steps do to
      the entries before r. */
  lemma BackSubRow(a: Matrix, b: Vector, n: nat, r: nat, x: Vector, v: real, y: Vector)
    requires IsSquare(a, n) && |b| == n && |x| == n && |y| == n && r < n
    requires a[r][r] * v + Sum(a[r], x, r + 1, n) == b[r]
    requires forall j :: r <= j < n ==> y[j] == x[r := v][j]
    ensures RowSolved(a, b, n, y, r)
  {
    assert forall j :: r + 1 <= j < n ==> x[j] == y[j];
    SumFrame(a[r], x, y, r + 1, n);
    assert y[r] == v;
  }

  /** Dividing by a nonzero pivot solves p·v + known = rhs for v. */
  lemma DivisionSolves(p: real, known: real, rhs: real, v: real)
    requires p != 0.0 && v == (rhs - known) / p
    ensures p * v + known == rhs
  {
  }

  /** An upper triangular system whose rows hold from the diagonal on is solved. */
  lemma TriangularRowsSolve(a: Matrix, b: Vector, n: nat, y: Vector)
    requires IsSquare(a, n) && |b| == n && |y| == n && UpperTriangular(a, n)
    requires forall r :: 0 <= r < n ==> RowSolved(a, b, n, y, r)
    ensures Solves(a, b, y)
  {
    forall r | 0 <= r < n
      ensures Dot(a[r], y) == b[r]
    {
      assert RowSolved(a, b, n, y, r);
      DotAround(a[r], y, r);
      SumOfZeroRow(a[r], y, 0, r);
    }
  }

  /** With the diagonal nonzero and everything below it zero, a·z = 0 forces
      z[m..] = 0, by induction from the last row up. */
  lemma {:induction false} TriangularKernelTail(a: Matrix, n: nat, z: Vector, m: nat)
    requires IsSquare(a, n) && UpperTriangular(a, n) && NonzeroDiagonal(a, n, n)
    requires Solves(a, Zeros(n), z) && m <= n
    ensures forall r :: m <= r < n ==> z[r] == 0.0
    decreases n - m
  {
    if m < n {
      TriangularKernelTail(a, n, z, m + 1);
      DotAround(a[m], z, m);
      SumOfZeroRow(a[m], z, 0, m);
      SumOfZeroVector(a[m], z, m + 1, n);
      assert a[m][m] * z[m] == 0.0;
    }
  }

  lemma TriangularNonsingular(a: Matrix, n: nat)
    requires IsSquare(a, n) && UpperTriangular(a, n) && NonzeroDiagonal(a, n, n)
    ensures Nonsingular(a)
  {
    forall z | Solves(a, Zeros(n), z)
      ensures z == Zeros(n)
    {
      TriangularKernelTail(a, n, z, 0);
    }
  }

  /** When the pivot candidates of column i are all zero, the matrix has a
      nonzero kernel vector: 1 at position i, 0 after it, and back
      substitution through the nonzero diagonal before it. */
  lemma ZeroPivotSingular(a: Matrix, n: nat, i: nat)
    requires IsSquare(a, n) && i < n
    requires ZeroBelow(a, n, i) && NonzeroDiagonal(a, n, i)
    requires forall r :: i <= r < n ==> Abs(a[r][i]) <= Abs(a[i][i])
    requires a[i][i] == 0.0
    ensures !Nonsingular(a)
  {
    var z := BackSub(a, Zeros(n), n, i, Zeros(n)[i := 1.0]);
    forall r | 0 <= r < n
      ensures Dot(a[r], z) == 0.0
    {
      DotAround(a[r], z, r);
      if r < i {
        assert RowSolved(a, Zeros(n), n, z, r);
        SumOfZeroRow(a[r], z, 0, r);
      } else {
        SumSplit(a[r], z, 0, i, n);
        SumSplit(a[r], z, i, i + 1, n);
        SumOfZeroRow(a[r], z, 0, i);
        SumOfZeroVector(a[r], z, i + 1, n);
      }
    }
    assert Solves(a, Zeros(n), z);
    assert z[i] != Zeros(n)[i];
  }

  /** In a nonsingular matrix the selected pivot is never zero. */
  lemma PivotNonzero(a: Matrix, n: nat, i: nat)
    requires IsSquare(a, n) && i < n && Nonsingular(a)
    requires ZeroBelow(a, n, i) && NonzeroDiagonal(a, n, i)
    requires forall r :: i <= r < n ==> Abs(a[r][i]) <= Abs(a[i][i])
    ensures a[i][i] != 0.0
  {
    if a[i][i] == 0.0 {
      ZeroPivotSingular(a, n, i);
    }
  }

  /** The inner loop of back substitution: b[i] minus the already known
      terms a[i][j]·x[j], j > i, subtracted left to right. */
  method SubtractKnown(n: nat, row: Vector, bi: real, x: Vector, i: nat) returns (acc: real)
    requires |row| == n && |x| == n && i < n
    ensures acc == bi - Sum(row, x, i + 1, n)
  {
    acc := bi;
    var j := i + 1;
    while j < n
      invariant i + 1 <= j <= n
      invariant acc == bi - Sum(row, x, i + 1, j)
    {
      acc := acc - row[j] * x[j];
      j := j + 1;
    }
  }

  /** The back-substitution loop: rows n-1 down to 0, each sum accumulated
      left to right before the division by the pivot. */
  method BackSubstitution(n: nat, a: Matrix, b: Vector) returns (x: Vector)
    requires IsSquare(a, n) && |b| == n
    requires UpperTriangular(a, n) && NonzeroDiagonal(a, n, n)
    ensures Solves(a, b, x)
  {
    x := Zeros(n);
    var i := n;
    while i > 0
      invariant 0 <= i <= n && |x| == n
      invariant BackSub(a, b, n, i, x) == BackSub(a, b, n, n, Zeros(n))
    {
      i := i - 1;
      var acc := SubtractKnown(n, a[i], b[i], x, i);
      x := x[i := acc / a[i][i]];
    }
    TriangularRowsSolve(a, b, n, x);
  }

  /** gaussianElimination (JavaScript): reports a singular matrix exactly
      when the matrix is singular, and otherwise solves the system. */
  method GaussianElimination(n: nat, a0: Matrix, b0: Vector) returns (result: SolveResult)
    requires IsSquare(a0, n) && |b0| == n
    ensures result.Solved? <==> Nonsingular(a0)
    ensures result.Solved? ==> Solves(a0, b0, result.x)
  {
    var a, b := a0, b0;
    var i := 0;
    while i < n
      invariant 0 <= i <= n
      invariant IsSquare(a, n) && |b| == n
      invariant ZeroBelow(a, n, i) && NonzeroDiagonal(a, n, i)
      invariant Equivalent(a0, b0, a, b)
      invariant Equivalent(a0, Zeros(n), a, Zeros(n))
    {
      var maxRow := FindPivotRow(a, n, i);
      if maxRow != i {
        SwapStep(a, b, n, i, maxRow);
        SwapStep(a, Zeros(n), n, i, maxRow);
        PivotAfterSwap(a, n, i, maxRow);
        a, b := Swap(a, i, maxRow), Swap(b, i, maxRow);
      }
      if a[i][i] == 0.0 {
        ZeroPivotSingular(a, n, i);
        SameKernelNonsingular(a0, a);
        return SingularMatrix;
      }
      EliminationZeroesColumn(a, n, i);
      EliminationPreservesSolutions(a, b, n, i);
      EliminationPreservesSolutions(a, Zeros(n), n, i);
      a, b := EliminateBelow(a, n, i), EliminateRhs(a, b, n, i);
      i := i + 1;
    }
    TriangularNonsingular(a, n);
    SameKernelNonsingular(a0, a);
    var x := BackSubstitution(n, a, b);
    return Solved(x);
  }

  /** gaussian_elimination (C): no pivot check, so the matrix must be
      nonsingular; the result then solves the system. */
  method GaussianEliminationC(n: nat, a0: Matrix, b0: Vector) returns (x: Vector)
    requires IsSquare(a0, n) && |b0| == n && Nonsingular(a0)
    ensures Solves(a0, b0, x)
  {
    var a, b := a0, b0;
    var i := 0;
    while i < n
      invariant 0 <= i <= n
      invariant IsSquare(a, n) && |b| == n
      invariant ZeroBelow(a, n, i) && NonzeroDiagonal(a, n, i)
      invariant Equivalent(a0, b0, a, b)
      invariant Equivalent(a0, Zeros(n), a, Zeros(n))
    {
      var maxRow := FindPivotRow(a, n, i);
      SwapTailIsSwap(a, n, i, maxRow);
      SwapStep(a, b, n, i, maxRow);
      SwapStep(a, Zeros(n), n, i, maxRow);
      PivotAfterSwap(a, n, i, maxRow);
      a, b := SwapTail(a, n, i, maxRow), Swap(b, i, maxRow);
      SameKernelNonsingular(a0, a);
      PivotNonzero(a, n, i);
      EliminationZeroesColumn(a, n, i);
      EliminationPreservesSolutions(a, b, n, i);
      EliminationPreservesSolutions(a, Zeros(n), n, i);
      a, b := EliminateBelow(a, n, i), EliminateRhs(a, b, n, i);
      i := i + 1;
    }
    x := BackSubstitution(n, a, b);
  }
}
