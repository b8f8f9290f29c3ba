# Shamir-style secret reconstruction, modelled in Dafny

The modelled program reconstructs a secret from shares of a polynomial.
It is written twice, in C (`main.c`) and in JavaScript (`main_code.js`).

- Each share carries a y-value written as a digit string in some base from 2 to 36.
- The share at 0-based position i lies at x = i + 1.
- The first k shares give a k×k Vandermonde-style system. Row i holds the
  powers (i+1)^(k-1-j), and the right-hand side holds the decoded y-values.
- The system is solved by Gaussian elimination with partial pivoting,
  followed by back substitution.
- The solution is the coefficient sequence of the polynomial, highest power
  first. Its last entry, the constant term, is the secret.
- When more shares are supplied than needed (n > k), every share is
  evaluated against the recovered polynomial. The 1-based indices of the
  shares that do not lie on it are reported, or "None" when there are none.

The model uses five modules.

| module | file | contents |
|---|---|---|
| `Decoder` | `decoder.dfy` | the radix decoder, proved to compute positional notation, to stay below base^length and to read letters without regard to case |
| `Matrices` | `matrices.dfy` | vectors and square matrices over exact reals, and what it means to solve A·x = b, to be nonsingular and to be equivalent |
| `Polynomials` | `polynomial.dfy` | power-sum and Horner evaluation, synthetic division, and the theorem that a polynomial with more distinct roots than its degree is zero |
| `Gauss` | `gauss.dfy` | both versions of the solver, proved correct |
| `Reconstruction` | `reconstruction.dfy` | building the system, the secret, the on-curve test and the report of wrong points |

Highlights of the solver and reconstruction proofs:

- The JavaScript solver reports a singular matrix exactly when the matrix is
  singular. Otherwise its result solves the original system.
- The C solver, which never checks its pivot, solves every nonsingular system.
- The interpolation system for x = 1..k is proved nonsingular for every k.
  Reconstruction therefore always succeeds, and its result is the unique
  polynomial with k coefficients through the first k shares.

## Model

| member | source | states |
|---|---|---|
| Decoder.Decode | main.c:27-40 | for a string of valid digits, the Horner accumulation lies in [0, base^len) |
| Decoder.DecodeIsPositional | main.c:37 | the Horner accumulation equals positional notation Σ digit(s[i])·base^(len-1-i) |
| Decoder.DecodeValue | main.c:27-40 | the decoding loop (the same in decodeValue) returns the positional value of the string, and it is non-negative and below base^len |
| Decoder.DigitValueFacts | main.c:32-36 | decimal digits give their face value, 'A'..'Z' and 'a'..'z' both give 10 and up, and every such digit is below 36 |
| Decoder.DecodeIgnoresCase | main_code.js:9-13 | two strings that differ only in letter case decode to the same value |
| Decoder.DecodeExamples | main.c:27-40 | "1A" and "1a" in base 16 are 26, and "111" in base 2 is 7 |
| Gauss.FindPivotRow | main.c:43-49 | the pivot row lies in [i, n), its entry in column i has the largest absolute value, and no earlier row in range ties with it (first occurrence, as in both versions) |
| Gauss.SwapTailIsSwap | main.c:50-57 | swapping only columns i.. of rows i and p is a full row swap once columns before i are zero below the diagonal |
| Gauss.SwapStep | main_code.js:33-36 | swapping rows i and p of a and b keeps the solution set, the kernel and the triangular invariants |
| Gauss.PivotAfterSwap | main_code.js:33-36 | after the swap, the entry at (i, i) dominates column i from row i down |
| Gauss.EliminationZeroesColumn | main.c:59-65 | eliminating column i makes every entry below the pivot zero, keeps rows 0..i, and extends the triangular invariant to i + 1 (the same step in both versions) |
| Gauss.EliminatedRowDot | main.c:60-64 | an eliminated row is the old row minus factor times the pivot row, as a dot product with any x |
| Gauss.EliminationPreservesSolutions | main.c:59-65 | eliminating column i leaves the solution set of A·x = b unchanged, and a zero right-hand side stays zero |
| Gauss.BackSub | main.c:68-74 | back substitution from row i-1 down to 0 sets each x[r] so that row r holds from the diagonal on, and leaves the entries from i on unchanged |
| Gauss.BackSubRow | main.c:69-73 | setting x[r] to the v with a[r][r]·v + Σ_{j>r} a[r][j]·x[j] = b[r] solves row r, whatever is later written before r |
| Gauss.SubtractKnown | main.c:69-72 | the inner loop computes b[i] minus the sum of a[i][j]·x[j] over j > i |
| Gauss.BackSubstitution | main_code.js:54-60 | on an upper triangular matrix with a nonzero diagonal, the result solves A·x = b |
| Gauss.TriangularRowsSolve | main.c:68-74 | on an upper triangular matrix, rows that hold from the diagonal on make the whole system hold |
| Gauss.TriangularNonsingular | main.c:68-74 | an upper triangular matrix with a nonzero diagonal is nonsingular |
| Gauss.ZeroPivotSingular | main_code.js:39-41 | if the selected pivot is zero, the matrix has a nonzero kernel vector, so the error is only raised for a singular matrix |
| Gauss.PivotNonzero | main.c:60 | in a nonsingular matrix the selected pivot is never zero, so C's division by the pivot is defined |
| Gauss.GaussianElimination | main_code.js:20-63 | the result is an error exactly when the matrix is singular, and otherwise solves the original system |
| Gauss.GaussianEliminationC | main.c:42-75 | for a nonsingular matrix, the result solves the original system |
| Matrices.SolutionUnique | main.c:42-75 | a nonsingular system has at most one solution |
| Matrices.SumRowCombination | main.c:62-64 | subtracting f times one row from another subtracts f times its sum |
| Polynomials.EvalIsHorner | main.c:101-103 | the power sum Σ c[i]·x^(k-1-i) equals Horner's rule on the same coefficients |
| Polynomials.ValueAtZeroIsConstantTerm | main.c:113 | the last coefficient, the printed secret, is the polynomial's value at x = 0 |
| Polynomials.DivisionIdentity | main.c:82-92 | the factor theorem c(x) = (x - r)·q(x) + c(r), for the synthetic quotient q of c by x - r; no division happens in the source, and this identity is what proves the system built there nonsingular |
| Polynomials.ZeroPolynomial | main.c:82-92 | a polynomial with k coefficients that vanishes at k distinct points has every coefficient zero |
| Polynomials.InterpolationUnique | main.c:82-92 | two polynomials with k coefficients that agree at k distinct points are equal |
| Reconstruction.PowerRowEvaluates | main.c:86-88 | a row of powers x^(k-1-j) dotted with k coefficients is the polynomial's value at x |
| Reconstruction.SystemRowIsEvaluation | main.c:82-90 | row i of the system dotted with c evaluates c at x = i + 1 |
| Reconstruction.SystemSolutionsInterpolate | main.c:82-90 | the solutions of the system are exactly the coefficient sequences of length k through the first k shares |
| Reconstruction.SystemNonsingular | main.c:82-92 | the system for x = 1..k is nonsingular for every k |
| Reconstruction.SystemFacts | main_code.js:71-79 | the built system is nonsingular and is solved exactly by the polynomials through the first k shares |
| Reconstruction.BuildSystem | main.c:82-90 | the loop builds exactly the system whose row i holds (i+1)^(k-1-j) and whose b[i] is the decoded y-value of share i, reading only the first k shares; the result is nonsingular and solved exactly by the interpolating polynomials |
| Reconstruction.ReconstructionUnique | main.c:77-93 | the first k shares determine the coefficients: any two sequences through them are equal |
| Reconstruction.SingleShareSecret | main.c:77-93 | with k = 1 the only coefficient is the first share's decoded value |
| Reconstruction.FindSecret | main_code.js:66-88 | no error is raised; the k coefficients put each of the first k shares on the curve, and for k = 1 the coefficient is the first share's value |
| Reconstruction.FindSecretC | main.c:77-93 | the k coefficients put each of the first k shares on the curve, and for k = 1 the coefficient is the first share's value |
| Reconstruction.IsPointOnCurve | main.c:95-106 | the test holds exactly when the decoded y-value equals the polynomial's value at x = index + 1, both as a power sum and by Horner's rule (the same computation in isPointOnCurve) |
| Reconstruction.WrongPoints | main.c:119-124 | the list holds exactly the 1-based indices of off-curve shares, in increasing order |
| Reconstruction.CollectWrongPoints | main_code.js:112-117 | the validation loop over all n shares produces exactly that list |
| Reconstruction.NoneWrongIffAllOnCurve | main.c:125-127 | "None" is printed exactly when every share lies on the curve |
| Reconstruction.SingleCorruptionReported | main_code.js:113-117 | when exactly one share is off the curve, its index alone is reported |
| Reconstruction.SolveTestCase | main_code.js:105-124 | the secret is the last coefficient and the value at 0; validation runs exactly when n > k and reports exactly the off-curve shares, never one of the first k |
| Reconstruction.SolveTestCaseC | main.c:108-130 | as above, but validation runs exactly for test case number 2 with n > k, and only then must the shares after the first k decode |
| Reconstruction.ExampleDecodes | main.c:84 | the example shares 3, 6, 11 and 19 in base 10 decode to those values |
| Reconstruction.QuadraticExample | main.c:108-130 | shares 3, 6, 11 at x = 1, 2, 3 reconstruct only x² + 2, with secret 2, and share 4 (value 19, where the curve gives 18) is the one reported |

## Left out

- JSON loading is not part of this model. This covers `read_test_case_from_json` with cJSON, `fopen`, `malloc` and `strcpy`, and `readTestCases` with `fs`. They are I/O through a foreign library. A test case is a value: n, k and a sequence of shares.
- Printing is not modelled: `printf`, `console.log`, the `%.0f` and `Math.round` formatting of the secret, and the logging inside `findSecret`. The model returns a `Report` that holds the coefficients, the secret and the list of wrong points. An empty list stands for the printed "None".
- The `main` entry points and the fixed two-file workflow are not modelled. The C test-case number is a parameter of `SolveTestCaseC`.
- Floating point is replaced by exact arithmetic: `real` for the solver and evaluation, `int` for decoding. This means:
  - the 1e-9 pivot tolerance becomes a test for an exactly zero pivot;
  - the 1e-6 on-curve tolerance becomes exact equality;
  - rounding error, `pow` and `fabs` are not modelled.
- Decoder.DecodeValue: does not model the wrap-around of C `long long` or the precision loss of a JavaScript number for large values; the result is an unbounded integer.
- The fixed capacities `MAX_N`, `MAX_K` and `MAX_VALUE_LEN` are not modelled. Sequences have any length.
- Decoder.Decode: demands valid digits as a precondition. Neither implementation checks that a character is a digit of the base; on other characters they produce a value that depends on the character set.
- Gauss.GaussianEliminationC: demands a nonsingular matrix as a precondition. The C code has no pivot check and would divide by a zero pivot. Only the JavaScript version reports a singular matrix (`GaussianElimination`). For the reconstruction system the precondition is proved (`SystemNonsingular`), so neither version meets a zero pivot in exact arithmetic.
- Reconstruction.SolveTestCaseC: runs validation only for test case number 2. The JavaScript version validates whenever n > k (`SolveTestCase`). The model follows each implementation. Since C decodes the shares after the first k only when it validates, `SolveTestCaseC` asks for them to be valid digits only in that case.
- Reconstruction.WellFormed: requires 1 <= k <= n <= number of shares; neither implementation checks this. With k = 0 the JavaScript version returns an empty coefficient list and prints NaN, and the C version reads `coefficients[-1]`; neither is modelled. `Reconstructible` likewise requires 1 <= k <= number of shares.
- The C version writes its result into caller-provided arrays. The JavaScript version returns a fresh array. Both are modelled as returned values. Both solvers also overwrite their a and b arguments in place (main.c:50-65, main_code.js:34-50); the model works on copies. No caller can observe the difference, because `find_secret` and `findSecret` build those arrays locally.
