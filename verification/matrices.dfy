/**
  Vectors and square matrices over exact reals, dot products as partial
  sums, and what it means for x to solve A·x = b. Elimination keeps the
  solution set of a system (Equivalent) and, applied to b = 0, its kernel;
  Nonsingular says the kernel is {0}.
*/
module Matrices {

  type Vector = seq<real>
  type Matrix = seq<Vector>

  function Abs(x: real): (y: real) {
    if x < 0.0 then -x else x
  }

  /** a has n rows of n entries each. */
  predicate IsSquare(a: Matrix, n: nat) {
    |a| == n && forall r :: 0 <= r < n ==> |a[r]| == n
  }

  function Zeros(n: nat): (z: Vector)
    ensures |z| == n
    ensures forall i :: 0 <= i < n ==> z[i] == 0.0
  {
    seq(n, _ => 0.0)
  }

  /** Σ_{lo <= j < hi} row[j]·x[j]. */
  function Sum(row: Vector, x: Vector, lo: nat, hi: nat): (s: real)
    requires lo <= hi <= |row| && hi <= |x|
    decreases hi - lo
  {
    if hi == lo then 0.0 else Sum(row, x, lo, hi - 1) + row[hi - 1] * x[hi - 1]
  }

  function Dot(row: Vector, x: Vector): (s: real)
    requires |row| == |x|
  {
    Sum(row, x, 0, |row|)
  }

  /** x solves the square system a·x = b. */
  ghost predicate Solves(a: Matrix, b: Vector, x: Vector) {
    && |b| == |a|
    && |x| == |a|
    && forall r :: 0 <= r < |a| ==> |a[r]| == |x| && Dot(a[r], x) == b[r]
  }

  /** The only solution of a·z = 0 is z = 0. */
  ghost predicate Nonsingular(a: Matrix) {
    forall z :: Solves(a, Zeros(|a|), z) ==> z == Zeros(|a|)
  }

  /** The two systems have the same solutions. */
  ghost predicate Equivalent(a: Matrix, b: Vector, a': Matrix, b': Vector) {
    forall x :: Solves(a, b, x) <==> Solves(a', b', x)
  }

  lemma {:induction false} SumSplit(row: Vector, x: Vector, lo: nat, mid: nat, hi: nat)
    requires lo <= mid <= hi <= |row| && hi <= |x|
    ensures Sum(row, x, lo, hi) == Sum(row, x, lo, mid) + Sum(row, x, mid, hi)
    decreases hi
  {
    if hi > mid {
      SumSplit(row, x, lo, mid, hi - 1);
    }
  }

  /** A sum over entries where the row is zero vanishes. */
  lemma {:induction false} SumOfZeroRow(row: Vector, x: Vector, lo: nat, hi: nat)
    requires lo <= hi <= |row| && hi <= |x|
    requires forall j :: lo <= j < hi ==> row[j] == 0.0
    ensures Sum(row, x, lo, hi) == 0.0
    decreases hi - lo
  {
    if hi > lo {
      SumOfZeroRow(row, x, lo, hi - 1);
    }
  }

  /** A sum over entries where the vector is zero vanishes. */
  lemma {:induction false} SumOfZeroVector(row: Vector, x: Vector, lo: nat, hi: nat)
    requires lo <= hi <= |row| && hi <= |x|
    requires forall j :: lo <= j < hi ==> x[j] == 0.0
    ensures Sum(row, x, lo, hi) == 0.0
    decreases hi - lo
  {
    if hi > lo {
      SumOfZeroVector(row, x, lo, hi - 1);
    }
  }

  /** A sum reads x only between lo and hi. */
  lemma {:induction false} SumFrame(row: Vector, x: Vector, y: Vector, lo: nat, hi: nat)
    requires lo <= hi <= |row| && hi <= |x| && hi <= |y|
    requires forall j :: lo <= j < hi ==> x[j] == y[j]
    ensures Sum(row, x, lo, hi) == Sum(row, y, lo, hi)
    decreases hi - lo
  {
    if hi > lo {
      SumFrame(row, x, y, lo, hi - 1);
    }
  }

  /** Sums are linear in the row: w = u - f·v gives Σw·x = Σu·x - f·Σv·x. */
  lemma {:induction false} SumRowCombination(u: Vector, v: Vector, w: Vector, f: real, x: Vector, lo: nat, hi: nat)
    requires lo <= hi <= |u| && hi <= |v| && hi <= |w| && hi <= |x|
    requires forall j :: lo <= j < hi ==> w[j] == u[j] - f * v[j]
    ensures Sum(w, x, lo, hi) == Sum(u, x, lo, hi) - f * Sum(v, x, lo, hi)
    decreases hi - lo
  {
    if hi > lo {
      SumRowCombination(u, v, w, f, x, lo, hi - 1);
      var j := hi - 1;
      assert w[j] * x[j] == u[j] * x[j] - f * (v[j] * x[j]);
    }
  }

  /** Sums are linear in the vector: z = x - y gives Σrow·z = Σrow·x - Σrow·y. */
  lemma {:induction false} SumVectorDifference(row: Vector, x: Vector, y: Vector, z: Vector, lo: nat, hi: nat)
    requires lo <= hi <= |row| && hi <= |x| && hi <= |y| && hi <= |z|
    requires forall j :: lo <= j < hi ==> z[j] == x[j] - y[j]
    ensures Sum(row, z, lo, hi) == Sum(row, x, lo, hi) - Sum(row, y, lo, hi)
    decreases hi - lo
  {
    if hi > lo {
      SumVectorDifference(row, x, y, z, lo, hi - 1);
      var j := hi - 1;
      assert row[j] * z[j] == row[j] * x[j] - row[j] * y[j];
    }
  }

  /** A dot product split around entry r: the part before, the entry, the part after. */
  lemma DotAround(row: Vector, x: Vector, r: nat)
    requires |row| == |x| && r < |row|
    ensures Dot(row, x) == Sum(row, x, 0, r) + row[r] * x[r] + Sum(row, x, r + 1, |row|)
  {
    SumSplit(row, x, 0, r, |row|);
    SumSplit(row, x, r, r + 1, |row|);
    assert Sum(row, x, r, r + 1) == row[r] * x[r];
  }

  /** A nonsingular system has at most one solution. */
  lemma SolutionUnique(a: Matrix, b: Vector, x: Vector, y: Vector)
    requires Nonsingular(a)
    requires Solves(a, b, x) && Solves(a, b, y)
    ensures x == y
  {
    var n := |a|;
    var z := seq(n, i requires 0 <= i < n => x[i] - y[i]);
    forall r | 0 <= r < n
      ensures Dot(a[r], z) == 0.0
    {
      SumVectorDifference(a[r], x, y, z, 0, n);
    }
    assert Solves(a, Zeros(n), z);
    assert forall i :: 0 <= i < n ==> x[i] == y[i] + z[i];
  }

  /** Two systems with the same kernel are singular or nonsingular together. */
  lemma SameKernelNonsingular(a: Matrix, a': Matrix)
    requires |a| == |a'|
    requires Equivalent(a, Zeros(|a|), a', Zeros(|a'|))
    ensures Nonsingular(a) <==> Nonsingular(a')
  {
  }
}
