/**
  Secret reconstruction and share validation: find_secret / findSecret,
  is_point_on_curve / isPointOnCurve and solve_test_case / solveTestCase.

  Share i (0-based) is the point (i + 1, decoded value). The first k
  shares give a k×k system whose row i holds the powers (i+1)^(k-1-j);
  its solution is the coefficient sequence of the polynomial, highest
  power first, and the last coefficient is the secret. The system is
  proved nonsingular for every k, so the JavaScript singular-matrix error
  never fires and the missing check in C is never needed (in exact
  arithmetic). Validation evaluates the polynomial at every share.
*/
module Reconstruction {
  import opened Decoder
  import opened Polynomials
  import opened Matrices
  import opened Gauss

  /** One point: its y-value written in `base`; its x is implied by position. */
  datatype Share = Share(base: int, value: string)

  /** n shares are read, the polynomial has k coefficients. */
  datatype TestCase = TestCase(n: int, k: int, points: seq<Share>)

  /** The result of a solve: coefficients, secret, and the 1-based indices of
      off-curve shares when validation ran (an empty list is printed "None"). */
  datatype Validation = NotChecked | Checked(wrong: seq<int>)
  datatype Report = Report(coefficients: Vector, secret: real, validation: Validation)

  predicate ValidShare(s: Share) {
    ValidDigits(s.value, s.base)
  }

  function ShareY(s: Share): (y: int)
    requires ValidShare(s)
  {
    Decode(s.value, s.base)
  }

  /** What reconstruction reads: k >= 1 decodable shares. */
  predicate Reconstructible(tc: TestCase) {
    1 <= tc.k <= |tc.points| && forall i :: 0 <= i < tc.k ==> ValidShare(tc.points[i])
  }

  /** What a full solve reads: reconstruction plus n >= k decodable shares. */
  predicate WellFormed(tc: TestCase) {
    1 <= tc.k <= tc.n <= |tc.points| && forall i :: 0 <= i < tc.n ==> ValidShare(tc.points[i])
  }

  /** The x-coordinate of the share at 0-based position `index`. */
  function XCoord(index: nat): (x: real) {
    (index + 1) as real
  }

  /** Share `index` lies on the polynomial c. */
  predicate OnCurve(tc: TestCase, index: nat, c: Vector)
    requires index < |tc.points| && ValidShare(tc.points[index])
  {
    ShareY(tc.points[index]) as real == Eval(c, XCoord(index))
  }

  /** The powers x^(k-1), …, x, 1 of one row of the system. */
  function PowerRow(x: real, k: nat): (row: Vector)
    ensures |row| == k && forall j :: 0 <= j < k ==> row[j] == Pow(x, k - 1 - j)
  {
    seq(k, j requires 0 <= j < k => Pow(x, k - 1 - j))
  }

  /** Row i holds the powers of x = i + 1. */
  function SystemMatrix(k: nat): (a: Matrix)
    ensures IsSquare(a, k)
  {
    seq(k, i requires 0 <= i < k => PowerRow(XCoord(i), k))
  }

  function SystemRhs(tc: TestCase): (b: Vector)
    requires Reconstructible(tc)
    ensures |b| == tc.k
  {
    seq(tc.k, i requires 0 <= i < tc.k => ShareY(tc.points[i]) as real)
  }

  function Abscissas(k: nat): (xs: seq<real>)
    ensures |xs| == k && Distinct(xs)
  {
    seq(k, i requires 0 <= i < k => XCoord(i))
  }

  /** A row of powers of x dotted with c is the power sum of c at x. */
  lemma {:induction false} PowerRowSum(row: Vector, c: Vector, x: real, m: nat)
    requires |row| == |c| && m <= |c|
    requires forall j :: 0 <= j < |c| ==> row[j] == Pow(x, |c| - 1 - j)
    ensures Sum(row, c, 0, m) == PartialEval(c, x, m)
  {
    if m > 0 {
      PowerRowSum(row, c, x, m - 1);
    }
  }

  /** A row of powers of x, dotted with k coefficients, evaluates them at x. */
  lemma PowerRowEvaluates(x: real, k: nat, c: Vector)
    requires |c| == k
    ensures Dot(PowerRow(x, k), c) == Eval(c, x)
  {
    PowerRowSum(PowerRow(x, k), c, x, k);
  }

  /** Row i of the system evaluates a coefficient sequence at x = i + 1. */
  lemma SystemRowIsEvaluation(k: nat, i: nat, c: Vector)
    requires i < k && |c| == k
    ensures Dot(SystemMatrix(k)[i], c) == Eval(c, XCoord(i))
  {
    PowerRowEvaluates(XCoord(i), k, c);
  }

  /** The solutions of the system are exactly the polynomials with k
      coefficients through the first k shares. */
  lemma SystemSolutionsInterpolate(tc: TestCase, c: Vector)
    requires Reconstructible(tc)
    ensures Solves(SystemMatrix(tc.k), SystemRhs(tc), c)
        <==> |c| == tc.k && forall i :: 0 <= i < tc.k ==> OnCurve(tc, i, c)
  {
    var a, b := SystemMatrix(tc.k), SystemRhs(tc);
    if |c| == tc.k {
      forall i | 0 <= i < tc.k
        ensures Dot(a[i], c) == b[i] <==> OnCurve(tc, i, c)
      {
        SystemRowIsEvaluation(tc.k, i, c);
      }
      if Solves(a, b, c) {
        forall i | 0 <= i < tc.k
          ensures OnCurve(tc, i, c)
        {
          assert Dot(a[i], c) == b[i];
        }
      }
    }
  }

  /** The system for x = 1..k is nonsingular, for every k. */
  lemma SystemNonsingular(k: nat)
    ensures Nonsingular(SystemMatrix(k))
  {
    var a := SystemMatrix(k);
    forall z | Solves(a, Zeros(k), z)
      ensures z == Zeros(k)
    {
      var xs := Abscissas(k);
      forall j | 0 <= j < k
        ensures Horner(z, xs[j]) == 0.0
      {
        SystemRowIsEvaluation(k, j, z);
        EvalIsHorner(z, xs[j]);
      }
      ZeroPolynomial(z, xs);
    }
  }

  /** The first k shares determine the polynomial: any two coefficient
      sequences through them are equal. Sampling a polynomial at 1..k and
      reconstructing therefore gives it back. */
  lemma ReconstructionUnique(tc: TestCase, c1: Vector, c2: Vector)
    requires Reconstructible(tc)
    requires |c1| == tc.k && forall i :: 0 <= i < tc.k ==> OnCurve(tc, i, c1)
    requires |c2| == tc.k && forall i :: 0 <= i < tc.k ==> OnCurve(tc, i, c2)
    ensures c1 == c2
  {
    var xs := Abscissas(tc.k);
    forall j | 0 <= j < tc.k
      ensures Eval(c1, xs[j]) == Eval(c2, xs[j])
    {
      assert OnCurve(tc, j, c1) && OnCurve(tc, j, c2);
    }
    InterpolationUnique(c1, c2, xs);
  }

  /** Building the system from the first k shares (both implementations):
      row i holds (i+1)^(k-1-j), the right-hand side the decoded y-values. */
  method BuildSystem(tc: TestCase) returns (a: Matrix, b: Vector)
    requires Reconstructible(tc)
    ensures a == SystemMatrix(tc.k) && b == SystemRhs(tc)
    ensures IsSquare(a, tc.k) && |b| == tc.k && Nonsingular(a)
    ensures forall c :: Solves(a, b, c) <==> |c| == tc.k && forall i :: 0 <= i < tc.k ==> OnCurve(tc, i, c)
  {
    var k := tc.k;
    a, b := [], [];
    var i := 0;
    while i < k
      invariant 0 <= i <= k && |a| == i && |b| == i
      invariant forall r :: 0 <= r < i ==> a[r] == SystemMatrix(k)[r] && b[r] == SystemRhs(tc)[r]
    {
      var xi := XCoord(i);
      var yi := DecodeValue(tc.points[i].value, tc.points[i].base);
      DecodeIsPositional(tc.points[i].value, tc.points[i].base);
      a, b := a + [PowerRow(xi, k)], b + [yi as real];
      i := i + 1;
    }
    assert a == SystemMatrix(k) && b == SystemRhs(tc);
    SystemFacts(tc);
  }

  /** The interpolation system is nonsingular, and solved exactly by the
      polynomials through the first k shares. */
  lemma SystemFacts(tc: TestCase)
    requires Reconstructible(tc)
    ensures Nonsingular(SystemMatrix(tc.k))
    ensures forall c :: (Solves(SystemMatrix(tc.k), SystemRhs(tc), c)
      <==> |c| == tc.k && forall i :: 0 <= i < tc.k ==> OnCurve(tc, i, c))
  {
    SystemNonsingular(tc.k);
    forall c
      ensures Solves(SystemMatrix(tc.k), SystemRhs(tc), c)
        <==> |c| == tc.k && forall i :: 0 <= i < tc.k ==> OnCurve(tc, i, c)
    {
      SystemSolutionsInterpolate(tc, c);
    }
  }

  /** With a single share, the polynomial is that share's value. */
  lemma SingleShareSecret(tc: TestCase, c: Vector)
    requires Reconstructible(tc) && tc.k == 1 && |c| == 1 && OnCurve(tc, 0, c)
    ensures c[0] == ShareY(tc.points[0]) as real
  {
    assert XCoord(0) == 1.0;
    assert PartialEval(c, 1.0, 1) == PartialEval(c, 1.0, 0) + c[0] * Pow(1.0, 0);
    assert Eval(c, 1.0) == c[0];
  }

  /** findSecret (JavaScript): never reports a singular matrix, and returns
      the k coefficients of the polynomial through the first k shares. */
  method FindSecret(tc: TestCase) returns (result: SolveResult)
    requires Reconstructible(tc)
    ensures result.Solved? && |result.x| == tc.k
    ensures forall i :: 0 <= i < tc.k ==> OnCurve(tc, i, result.x)
    ensures tc.k == 1 ==> result.x[0] == ShareY(tc.points[0]) as real
  {
    var a, b := BuildSystem(tc);
    result := GaussianElimination(tc.k, a, b);
    if tc.k == 1 {
      SingleShareSecret(tc, result.x);
    }
  }

  /** find_secret (C): the same, through the solver without a pivot check. */
  method FindSecretC(tc: TestCase) returns (coefficients: Vector)
    requires Reconstructible(tc)
    ensures |coefficients| == tc.k
    ensures forall i :: 0 <= i < tc.k ==> OnCurve(tc, i, coefficients)
    ensures tc.k == 1 ==> coefficients[0] == ShareY(tc.points[0]) as real
  {
    var a, b := BuildSystem(tc);
    coefficients := GaussianEliminationC(tc.k, a, b);
    if tc.k == 1 {
      SingleShareSecret(tc, coefficients);
    }
  }

  /** is_point_on_curve / isPointOnCurve: evaluates the power sum term by term
      at x = index + 1 and compares with the decoded y-value. */
  method IsPointOnCurve(tc: TestCase, index: nat, coefficients: Vector) returns (onCurve: bool)
    requires index < |tc.points| && ValidShare(tc.points[index])
    requires |coefficients| == tc.k
    ensures onCurve <==> OnCurve(tc, index, coefficients)
    ensures onCurve <==> ShareY(tc.points[index]) as real == Horner(coefficients, XCoord(index))
  {
    var k := tc.k;
    var x := XCoord(index);
    var y := DecodeValue(tc.points[index].value, tc.points[index].base);
    DecodeIsPositional(tc.points[index].value, tc.points[index].base);
    var calculated := 0.0;
    var i := 0;
    while i < k
      invariant 0 <= i <= k
      invariant calculated == PartialEval(coefficients, x, i)
    {
      var e: nat := k - 1 - i;
      PartialEvalNext(coefficients, x, i, e);
      calculated := calculated + coefficients[i] * Pow(x, e);
      i := i + 1;
    }
    assert calculated == Eval(coefficients, x);
    assert y == ShareY(tc.points[index]);
    EvalIsHorner(coefficients, x);
    onCurve := y as real == calculated;
  }

  /** The 1-based indices of the shares among the first m that are off the curve c. */
  function WrongPoints(tc: TestCase, c: Vector, m: nat): (w: seq<int>)
    requires m <= |tc.points| && forall i :: 0 <= i < m ==> ValidShare(tc.points[i])
    ensures forall v :: v in w <==> 1 <= v <= m && !OnCurve(tc, v - 1, c)
    ensures forall p, q :: 0 <= p < q < |w| ==> w[p] < w[q]
  {
    if m == 0 then []
    else
      var before := WrongPoints(tc, c, m - 1);
      var last: seq<int> := if OnCurve(tc, m - 1, c) then [] else [m];
      assert forall p :: 0 <= p < |before| ==> before[p] in before;
      assert forall v :: v in last <==> v == m && !OnCurve(tc, m - 1, c);
      before + last
  }

  /** The validation loop of both implementations over all n shares. */
  method CollectWrongPoints(tc: TestCase, coefficients: Vector) returns (wrong: seq<int>)
    requires WellFormed(tc) && |coefficients| == tc.k
    ensures wrong == WrongPoints(tc, coefficients, tc.n)
  {
    wrong := [];
    var i := 0;
    while i < tc.n
      invariant 0 <= i <= tc.n
      invariant wrong == WrongPoints(tc, coefficients, i)
    {
      var onCurve := IsPointOnCurve(tc, i, coefficients);
      if !onCurve {
        wrong := wrong + [i + 1];
      }
      i := i + 1;
    }
  }

  /** No share is reported exactly when every share is on the curve. */
  lemma NoneWrongIffAllOnCurve(tc: TestCase, c: Vector, m: nat)
    requires m <= |tc.points| && forall i :: 0 <= i < m ==> ValidShare(tc.points[i])
    ensures WrongPoints(tc, c, m) == [] <==> forall i :: 0 <= i < m ==> OnCurve(tc, i, c)
  {
  }

  /** When every share but one lies on the curve, exactly that share is
      reported (once the scan has passed it). */
  lemma {:induction false} SingleCorruptionReported(tc: TestCase, c: Vector, m: nat, bad: nat)
    requires m <= |tc.points| && forall i :: 0 <= i < m ==> ValidShare(tc.points[i])
    requires bad < m ==> !OnCurve(tc, bad, c)
    requires forall i :: 0 <= i < m && i != bad ==> OnCurve(tc, i, c)
    ensures WrongPoints(tc, c, m) == if bad < m then [bad + 1] else []
  {
    if m > 0 {
      SingleCorruptionReported(tc, c, m - 1, bad);
      var before := WrongPoints(tc, c, m - 1);
      assert WrongPoints(tc, c, m) == before + (if OnCurve(tc, m - 1, c) then [] else [m]);
      if m - 1 == bad {
        assert !OnCurve(tc, m - 1, c);
      } else {
        assert OnCurve(tc, m - 1, c);
      }
    }
  }

  /** solveTestCase (JavaScript): the secret is the constant term of the
      polynomial through the first k shares; whenever n > k, the report lists
      the off-curve shares, none of them among the first k, in increasing order. */
  method SolveTestCase(tc: TestCase) returns (report: Report)
    requires WellFormed(tc)
    ensures |report.coefficients| == tc.k
    ensures forall i :: 0 <= i < tc.k ==> OnCurve(tc, i, report.coefficients)
    ensures report.secret == report.coefficients[tc.k - 1] == Eval(report.coefficients, 0.0)
    ensures report.validation.Checked? <==> tc.n > tc.k
    ensures report.validation.Checked? ==>
      report.validation.wrong == WrongPoints(tc, report.coefficients, tc.n)
    ensures report.validation.Checked? ==>
      (forall v :: v in report.validation.wrong <==> tc.k < v <= tc.n && !OnCurve(tc, v - 1, report.coefficients))
  {
    var result := FindSecret(tc);
    var coefficients := result.x;
    var secret := coefficients[|coefficients| - 1];
    ValueAtZeroIsConstantTerm(coefficients);
    var validation := NotChecked;
    if tc.n > tc.k {
      var wrong := CollectWrongPoints(tc, coefficients);
      validation := Checked(wrong);
    }
    report := Report(coefficients, secret, validation);
  }

  /** solve_test_case (C): as above, but validation runs only for test case
      number 2 (and n > k), so only then must the shares after the first k
      decode. */
  method SolveTestCaseC(tc: TestCase, testCaseNumber: int) returns (report: Report)
    requires Reconstructible(tc) && tc.k <= tc.n <= |tc.points|
    requires testCaseNumber == 2 && tc.n > tc.k ==> WellFormed(tc)
    ensures |report.coefficients| == tc.k
    ensures forall i :: 0 <= i < tc.k ==> OnCurve(tc, i, report.coefficients)
    ensures report.secret == report.coefficients[tc.k - 1] == Eval(report.coefficients, 0.0)
    ensures report.validation.Checked? <==> testCaseNumber == 2 && tc.n > tc.k
    ensures report.validation.Checked? ==>
      report.validation.wrong == WrongPoints(tc, report.coefficients, tc.n)
    ensures report.validation.Checked? ==>
      (forall v :: v in report.validation.wrong <==> tc.k < v <= tc.n && !OnCurve(tc, v - 1, report.coefficients))
  {
    var coefficients := FindSecretC(tc);
    var secret := coefficients[tc.k - 1];
    ValueAtZeroIsConstantTerm(coefficients);
    var validation := NotChecked;
    if testCaseNumber == 2 && tc.n > tc.k {
      var wrong := CollectWrongPoints(tc, coefficients);
      validation := Checked(wrong);
    }
    report := Report(coefficients, secret, validation);
  }

  /** The test case of the worked example: shares 3, 6, 11, 19 in base 10. */
  function ExampleCase(): (tc: TestCase) {
    TestCase(4, 3, [Share(10, "3"), Share(10, "6"), Share(10, "11"), Share(10, "19")])
  }

  lemma ExampleDecodes()
    ensures WellFormed(ExampleCase())
    ensures ShareY(ExampleCase().points[0]) == 3 && ShareY(ExampleCase().points[1]) == 6
    ensures ShareY(ExampleCase().points[2]) == 11 && ShareY(ExampleCase().points[3]) == 19
  {
  }

  /** Three shares 3, 6, 11 at x = 1, 2, 3 reconstruct x² + 2 (secret 2); the
      fourth share 19 at x = 4, where the curve gives 18, is the one reported. */
  lemma QuadraticExample()
    ensures WellFormed(ExampleCase())
    ensures forall c :: |c| == 3 && (forall i :: 0 <= i < 3 ==> OnCurve(ExampleCase(), i, c)) ==> c == [1.0, 0.0, 2.0]
    ensures Eval([1.0, 0.0, 2.0], 0.0) == 2.0
    ensures WrongPoints(ExampleCase(), [1.0, 0.0, 2.0], 4) == [4]
  {
    var tc := ExampleCase();
    var c := [1.0, 0.0, 2.0];
    ExampleDecodes();
    assert Eval(c, 1.0) == 3.0 && Eval(c, 2.0) == 6.0 && Eval(c, 3.0) == 11.0 && Eval(c, 4.0) == 18.0;
    assert forall i :: 0 <= i < 3 ==> OnCurve(tc, i, c);
    assert !OnCurve(tc, 3, c);
    forall c' | |c'| == 3 && (forall i :: 0 <= i < 3 ==> OnCurve(tc, i, c'))
      ensures c' == c
    {
      ReconstructionUnique(tc, c', c);
    }
    ValueAtZeroIsConstantTerm(c);
    SingleCorruptionReported(tc, c, 4, 3);
  }
}
