/**
  Polynomials as coefficient sequences, highest power first:
  c represents  c[0]·x^(|c|-1) + … + c[|c|-2]·x + c[|c|-1],
  so the last coefficient is the constant term (the secret).

  Eval is the power sum both implementations compute term by term;
  Horner is an independent definition used for the algebra, and
  EvalIsHorner connects the two. The main result, ZeroPolynomial, says
  that a polynomial with more distinct roots than its degree is zero;
  it makes the interpolation system built from x = 1..k nonsingular.
*/
module Polynomials {

  function Pow(x: real, e: nat): (p: real) {
    if e == 0 then 1.0 else x * Pow(x, e - 1)
  }

  /** The first m terms of the power sum: Σ_{i<m} c[i]·x^(|c|-1-i). */
  function PartialEval(c: seq<real>, x: real, m: nat): (v: real)
    requires m <= |c|
  {
    if m == 0 then 0.0 else PartialEval(c, x, m - 1) + c[m - 1] * Pow(x, |c| - m)
  }

  /** One more term of the power sum: the term of c[m], of degree e = |c| - 1 - m. */
  lemma PartialEvalNext(c: seq<real>, x: real, m: nat, e: nat)
    requires m < |c| && e == |c| - 1 - m
    ensures PartialEval(c, x, m + 1) == PartialEval(c, x, m) + c[m] * Pow(x, e)
  {
  }

  /** The polynomial c evaluated at x, as a power sum. */
  function Eval(c: seq<real>, x: real): (v: real) {
    PartialEval(c, x, |c|)
  }

  /** Horner's rule over the first n coefficients:
      ((c[0]·x + c[1])·x + …)·x + c[n-1]. */
  function HornerN(c: seq<real>, n: nat, x: real): (v: real)
    requires n <= |c|
  {
    if n == 0 then 0.0 else HornerN(c, n - 1, x) * x + c[n - 1]
  }

  /** The polynomial c evaluated at x by Horner's rule. */
  function Horner(c: seq<real>, x: real): (v: real) {
    HornerN(c, |c|, x)
  }

  /** The first m terms of the power sum are the Horner value of the first
      m coefficients, shifted up by the |c| - m powers still to come. */
  lemma {:induction false} PartialEvalIsScaledHorner(c: seq<real>, x: real, m: nat)
    requires m <= |c|
    ensures PartialEval(c, x, m) == HornerN(c, m, x) * Pow(x, |c| - m)
  {
    if m > 0 {
      var k := m - 1;
      PartialEvalIsScaledHorner(c, x, k);
      ScaledHornerStep(c, x, k);
    }
  }

  /** One step of PartialEvalIsScaledHorner: from k terms to k + 1. */
  lemma ScaledHornerStep(c: seq<real>, x: real, k: nat)
    requires k < |c|
    requires PartialEval(c, x, k) == HornerN(c, k, x) * Pow(x, |c| - k)
    ensures PartialEval(c, x, k + 1) == HornerN(c, k + 1, x) * Pow(x, |c| - (k + 1))
  {
  }

  /** The power sum and Horner's rule agree on every polynomial and point. */
  lemma EvalIsHorner(c: seq<real>, x: real)
    ensures Eval(c, x) == Horner(c, x)
  {
    PartialEvalIsScaledHorner(c, x, |c|);
  }

  /** The value at x = 0 is the last coefficient: the secret is the constant term. */
  lemma ValueAtZeroIsConstantTerm(c: seq<real>)
    requires |c| >= 1
    ensures Eval(c, 0.0) == c[|c| - 1]
  {
    EvalIsHorner(c, 0.0);
  }

  /** Horner's rule reads only the first n coefficients. */
  lemma {:induction false} HornerNFrame(c: seq<real>, e: seq<real>, n: nat, x: real)
    requires n <= |c| && n <= |e|
    requires forall i :: 0 <= i < n ==> c[i] == e[i]
    ensures HornerN(c, n, x) == HornerN(e, n, x)
  {
    if n > 0 {
      var k := n - 1;
      HornerNFrame(c, e, k, x);
      assert c[k] == e[k];
    }
  }

  /** Horner's rule, read from the appended end. */
  lemma HornerSnoc(p: seq<real>, d: real, x: real)
    ensures Horner(p + [d], x) == Horner(p, x) * x + d
  {
    var c := p + [d];
    HornerNFrame(c, p, |p|, x);
  }

  /** Synthetic division by (x - r): the quotient's coefficients are the
      Horner values of the prefixes of c at r. */
  function Quotient(c: seq<real>, r: real): (q: seq<real>)
    requires |c| >= 1
    ensures |q| == |c| - 1
  {
    seq(|c| - 1, i requires 0 <= i < |c| - 1 => HornerN(c, i + 1, r))
  }

  /** Appending a coefficient appends one more Horner value to the quotient. */
  lemma QuotientSnoc(p: seq<real>, d: real, r: real)
    requires |p| >= 1
    ensures Quotient(p + [d], r) == Quotient(p, r) + [Horner(p, r)]
  {
    var c := p + [d];
    var q := Quotient(c, r);
    var qp := Quotient(p, r);
    forall i | 0 <= i < |qp|
      ensures q[i] == qp[i]
    {
      HornerNFrame(c, p, i + 1, r);
    }
    HornerNFrame(c, p, |p|, r);
  }

  /** c(x) = (x - r)·q(x) + c(r) for the synthetic quotient q. */
  lemma {:induction false} DivisionIdentity(c: seq<real>, r: real, x: real)
    requires |c| >= 1
    ensures Horner(c, x) == (x - r) * Horner(Quotient(c, r), x) + Horner(c, r)
    decreases |c|
  {
    var p := c[..|c| - 1];
    var d := c[|c| - 1];
    assert c == p + [d];
    if |c| == 1 {
      assert Quotient(c, r) == [];
      HornerSnoc(p, d, x);
      HornerSnoc(p, d, r);
    } else {
      DivisionIdentity(p, r, x);
      var qp := Quotient(p, r);
      DivisionInductiveStep(p, d, qp, r, x);
      QuotientSnoc(p, d, r);
    }
  }

  /** One step of DivisionIdentity: appending d to p and p(r) to qp
      multiplies the residual p(x) - (x - r)·qp(x) - p(r) by x. */
  lemma DivisionInductiveStep(p: seq<real>, d: real, qp: seq<real>, r: real, x: real)
    ensures Horner(p + [d], x) - (x - r) * Horner(qp + [Horner(p, r)], x) - Horner(p + [d], r)
         == (Horner(p, x) - (x - r) * Horner(qp, x) - Horner(p, r)) * x
  {
    var h := Horner(p, r);
    HornerSnoc(qp, h, x);
    HornerSnoc(p, d, r);
    HornerSnoc(p, d, x);
    DivisionStep(Horner(p + [d], x), Horner(qp + [h], x), Horner(p + [d], r), Horner(p, x), Horner(qp, x), h, d, r, x);
  }

  /** The ring identity behind DivisionInductiveStep. */
  lemma DivisionStep(hcx: real, hqx: real, hcr: real, hpx: real, hq: real, h: real, d: real, r: real, x: real)
    requires hcx == hpx * x + d && hqx == hq * x + h && hcr == h * r + d
    ensures hcx - (x - r) * hqx - hcr == (hpx - (x - r) * hq - h) * x
  {
  }

  /** Subtraction of coefficient sequences commutes with evaluation. */
  lemma {:induction false} HornerNDifference(c1: seq<real>, c2: seq<real>, d: seq<real>, n: nat, x: real)
    requires n <= |c1| && n <= |c2| && n <= |d|
    requires forall i :: 0 <= i < n ==> d[i] == c1[i] - c2[i]
    ensures HornerN(d, n, x) == HornerN(c1, n, x) - HornerN(c2, n, x)
  {
    if n > 0 {
      var k := n - 1;
      HornerNDifference(c1, c2, d, k, x);
      assert HornerN(d, k, x) * x == HornerN(c1, k, x) * x - HornerN(c2, k, x) * x;
    }
  }

  predicate Distinct(xs: seq<real>) {
    forall i, j :: 0 <= i < j < |xs| ==> xs[i] != xs[j]
  }

  /** If every prefix of c vanishes at r, every coefficient of c is zero. */
  lemma PrefixesVanish(c: seq<real>, r: real)
    requires forall n :: 1 <= n <= |c| ==> HornerN(c, n, r) == 0.0
    ensures forall i :: 0 <= i < |c| ==> c[i] == 0.0
  {
    forall i | 0 <= i < |c|
      ensures c[i] == 0.0
    {
      assert HornerN(c, i + 1, r) == 0.0;
      if i > 0 {
        assert HornerN(c, i, r) == 0.0;
      }
    }
  }

  /** A polynomial with |c| coefficients (degree below |c|) that vanishes at
      |c| distinct points is the zero polynomial. */
  lemma {:induction false} ZeroPolynomial(c: seq<real>, xs: seq<real>)
    requires |xs| == |c| && Distinct(xs)
    requires forall j :: 0 <= j < |xs| ==> Horner(c, xs[j]) == 0.0
    ensures forall i :: 0 <= i < |c| ==> c[i] == 0.0
    decreases |c|
  {
    if |c| > 0 {
      var r := xs[0];
      var q := Quotient(c, r);
      var rest := xs[1..];
      forall j | 0 <= j < |rest|
        ensures Horner(q, rest[j]) == 0.0
      {
        DivisionIdentity(c, r, rest[j]);
        assert rest[j] == xs[j + 1];
        assert (rest[j] - r) * Horner(q, rest[j]) == 0.0;
        assert rest[j] - r != 0.0;
      }
      ZeroPolynomial(q, rest);
      forall n | 1 <= n <= |c|
        ensures HornerN(c, n, r) == 0.0
      {
        if n < |c| {
          assert q[n - 1] == HornerN(c, n, r);
        }
      }
      PrefixesVanish(c, r);
    }
  }

  /** Two polynomials with |xs| coefficients that agree on |xs| distinct
      points are the same polynomial. */
  lemma InterpolationUnique(c1: seq<real>, c2: seq<real>, xs: seq<real>)
    requires |c1| == |c2| == |xs| && Distinct(xs)
    requires forall j :: 0 <= j < |xs| ==> Eval(c1, xs[j]) == Eval(c2, xs[j])
    ensures c1 == c2
  {
    var d := seq(|c1|, i requires 0 <= i < |c1| => c1[i] - c2[i]);
    forall j | 0 <= j < |xs|
      ensures Horner(d, xs[j]) == 0.0
    {
      EvalIsHorner(c1, xs[j]);
      EvalIsHorner(c2, xs[j]);
      HornerNDifference(c1, c2, d, |d|, xs[j]);
    }
    ZeroPolynomial(d, xs);
    assert forall i :: 0 <= i < |c1| ==> c1[i] == c2[i] + d[i];
  }
}
