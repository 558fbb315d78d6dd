/** Bernstein polynomials and their derivatives. */
module Bernstein {
  import opened Sums
  import opened Binomial

  /** The i-th Bernstein polynomial of degree n at x, zero for an index that does not exist. */
  function Bern(i: int, n: nat, x: real): real {
    if 0 <= i <= n then Choose(n, i) as real * Pow(x, i) * Pow(1.0 - x, n - i) else 0.0
  }

  method BernsteinPoly(i: int, n: int, x: real) returns (r: real)
    requires 0 <= i <= n
    ensures r == Bern(i, n, x)
  {
    var b := Binom(n, i);
    var p := PowInt(x, i);
    var q := PowInt(1.0 - x, n - i);
    r := b as real * p * q;
  }

  lemma BernAlgebra(a: real, b: real, x: real, p: real, q: real)
    ensures (a + b) * (x * p) * ((1.0 - x) * q) == (1.0 - x) * (b * (x * p) * q) + x * (a * p * ((1.0 - x) * q))
  {
  }

  /** The triangle of the Bernstein polynomials. */
  lemma BernRecursion(i: int, n: nat, x: real)
    requires n > 0
    ensures Bern(i, n, x) == (1.0 - x) * Bern(i, n - 1, x) + x * Bern(i - 1, n - 1, x)
  {
    if 0 < i < n {
      BernAlgebra(Choose(n - 1, i - 1) as real, Choose(n - 1, i) as real, x, Pow(x, i - 1), Pow(1.0 - x, n - 1 - i));
    } else if i == n {
      ChooseOutside(n - 1, n);
    } else if i == 0 {
      assert Choose(n, 0) == Choose(n - 1, 0) == 1;
    }
  }

  // ----- polynomials as coefficient lists -----

  function Term(p: seq<real>, x: real, m: nat): real {
    if m < |p| then p[m] * Pow(x, m) else 0.0
  }

  function Eval(p: seq<real>, x: real): real {
    Sum((m: nat) => Term(p, x, m), |p|)
  }

  /** The formal derivative. */
  function Deriv(p: seq<real>): (r: seq<real>)
    ensures |r| == if p == [] then 0 else |p| - 1
  {
    if p == [] then [] else seq(|p| - 1, m requires 0 <= m < |p| - 1 => (m + 1) as real * p[m + 1])
  }

  function DerivN(p: seq<real>, k: nat): (r: seq<real>)
    ensures |r| == if |p| < k then 0 else |p| - k
    decreases k
  {
    if k == 0 then p else DerivN(Deriv(p), k - 1)
  }

  /** The coefficient of x^m in the i-th Bernstein polynomial of degree n. */
  function Coefficient(i: int, n: nat, m: int): real
    decreases n
  {
    if m < 0 then 0.0
    else if n == 0 then (if i == 0 && m == 0 then 1.0 else 0.0)
    else Coefficient(i, n - 1, m) - Coefficient(i, n - 1, m - 1) + Coefficient(i - 1, n - 1, m - 1)
  }

  function Coefficients(i: int, n: nat): (r: seq<real>)
    ensures |r| == n + 1 && forall m :: 0 <= m <= n ==> r[m] == Coefficient(i, n, m)
  {
    seq(n + 1, m requires 0 <= m => Coefficient(i, n, m))
  }

  lemma {:induction false} CoefficientBeyond(i: int, n: nat, m: int)
    requires m > n
    ensures Coefficient(i, n, m) == 0.0
    decreases n
  {
    if n > 0 {
      CoefficientBeyond(i, n - 1, m);
      CoefficientBeyond(i, n - 1, m - 1);
      CoefficientBeyond(i - 1, n - 1, m - 1);
    }
  }

  function CoefficientTerm(i: int, n: nat, x: real): nat -> real {
    (m: nat) => Coefficient(i, n, m) * Pow(x, m)
  }

  lemma EvalOfCoefficients(i: int, n: nat, x: real, k: nat)
    requires k > n
    ensures Eval(Coefficients(i, n), x) == Sum(CoefficientTerm(i, n, x), k)
  {
    var f := CoefficientTerm(i, n, x);
    SumEq((m: nat) => Term(Coefficients(i, n), x, m), f, n + 1);
    forall m: nat | n + 1 <= m < k
      ensures f(m) == 0.0
    {
      CoefficientBeyond(i, n, m);
    }
    SumExtend(f, n + 1, k);
  }

  lemma TermRecursion(i: int, n: nat, x: real, m: nat)
    requires n > 0
    ensures CoefficientTerm(i, n, x)(m + 1)
         == CoefficientTerm(i, n - 1, x)(m + 1)
            + x * (CoefficientTerm(i - 1, n - 1, x)(m) - CoefficientTerm(i, n - 1, x)(m))
  {
    TermAlgebra(Coefficient(i, n - 1, m + 1), Coefficient(i, n - 1, m), Coefficient(i - 1, n - 1, m), x, Pow(x, m));
  }

  lemma TermAlgebra(a: real, b: real, c: real, x: real, p: real)
    ensures (a - b + c) * (x * p) == a * (x * p) + x * (c * p - b * p)
  {
  }

  lemma EvalStep(i: int, n: nat, x: real)
    requires n > 0
    requires Eval(Coefficients(i, n - 1), x) == Bern(i, n - 1, x)
    requires Eval(Coefficients(i - 1, n - 1), x) == Bern(i - 1, n - 1, x)
    ensures Eval(Coefficients(i, n), x) == Bern(i, n, x)
  {
    hide *;
    BernRecursion(i, n, x);
    SumRecursion(i, n, x);
    EvalOfCoefficients(i, n, x, n + 1);
    EvalOfCoefficients(i, n - 1, x, n);
    EvalOfCoefficients(i - 1, n - 1, x, n);
  }

  /** The coefficients are those of the Bernstein polynomial. */
  lemma {:induction false} EvalBernstein(i: int, n: nat, x: real)
    ensures Eval(Coefficients(i, n), x) == Bern(i, n, x)
    decreases n
  {
    if n == 0 {
      EvalOfCoefficients(i, 0, x, 1);
      assert CoefficientTerm(i, 0, x)(0) == Bern(i, 0, x);
    } else {
      EvalBernstein(i, n - 1, x);
      EvalBernstein(i - 1, n - 1, x);
      EvalStep(i, n, x);
    }
  }

  function TermDifference(i: int, n: nat, x: real): nat -> real
    requires n > 0
  {
    (m: nat) => CoefficientTerm(i - 1, n - 1, x)(m) - CoefficientTerm(i, n - 1, x)(m)
  }

  function ScaledDifference(i: int, n: nat, x: real): nat -> real
    requires n > 0
  {
    (m: nat) => x * TermDifference(i, n, x)(m)
  }

  lemma DifferenceSum(i: int, n: nat, x: real)
    requires n > 0
    ensures Sum(ScaledDifference(i, n, x), n)
         == x * (Sum(CoefficientTerm(i - 1, n - 1, x), n) - Sum(CoefficientTerm(i, n - 1, x), n))
  {
    hide Sum, CoefficientTerm;
    var a, b, d := CoefficientTerm(i, n - 1, x), CoefficientTerm(i - 1, n - 1, x), TermDifference(i, n, x);
    SumScale(x, d, ScaledDifference(i, n, x), n);
    SumAdd(a, d, b, n);
    assert Sum(d, n) == Sum(b, n) - Sum(a, n);
  }

  lemma FirstAndLastTerm(i: int, n: nat, x: real)
    requires n > 0
    ensures CoefficientTerm(i, n, x)(0) == CoefficientTerm(i, n - 1, x)(0)
    ensures CoefficientTerm(i, n - 1, x)(n) == 0.0
  {
    assert Coefficient(i, n - 1, -1) == Coefficient(i - 1, n - 1, -1) == 0.0;
    assert Coefficient(i, n, 0) == Coefficient(i, n - 1, 0);
    CoefficientBeyond(i, n - 1, n);
  }

  lemma ShiftedSum(i: int, n: nat, x: real)
    requires n > 0
    ensures Sum(CoefficientTerm(i, n, x), n + 1) == Sum(CoefficientTerm(i, n - 1, x), n)
            + Sum(ScaledDifference(i, n, x), n)
  {
    hide Sum, CoefficientTerm, ScaledDifference;
    var f, a, e := CoefficientTerm(i, n, x), CoefficientTerm(i, n - 1, x), ScaledDifference(i, n, x);
    var f', a' := (m: nat) => f(m + 1), (m: nat) => a(m + 1);
    forall m: nat | m < n
      ensures f'(m) == a'(m) + e(m)
    {
      ShiftedTerm(i, n, x, m);
    }
    SumAdd(a', e, f', n);
    SumShift(f, f', n);
    SumShift(a, a', n);
    SumLast(a, n);
    FirstAndLastTerm(i, n, x);
  }

  lemma ShiftedTerm(i: int, n: nat, x: real, m: nat)
    requires n > 0
    ensures CoefficientTerm(i, n, x)(m + 1) == CoefficientTerm(i, n - 1, x)(m + 1) + ScaledDifference(i, n, x)(m)
  {
    hide CoefficientTerm;
    TermRecursion(i, n, x, m);
    var d := TermDifference(i, n, x)(m);
    assert d == CoefficientTerm(i - 1, n - 1, x)(m) - CoefficientTerm(i, n - 1, x)(m);
    assert ScaledDifference(i, n, x)(m) == x * d;
  }

  lemma SumRecursion(i: int, n: nat, x: real)
    requires n > 0
    ensures Sum(CoefficientTerm(i, n, x), n + 1)
         == (1.0 - x) * Sum(CoefficientTerm(i, n - 1, x), n) + x * Sum(CoefficientTerm(i - 1, n - 1, x), n)
  {
    hide *;
    ShiftedSum(i, n, x);
    DifferenceSum(i, n, x);
    SumAlgebra(x, Sum(CoefficientTerm(i, n - 1, x), n), Sum(CoefficientTerm(i - 1, n - 1, x), n));
  }

  lemma SumAlgebra(x: real, a: real, b: real)
    ensures a + x * (b - a) == (1.0 - x) * a + x * b
  {
  }

  // ----- derivatives -----

  /** Differentiating lowers the degree: the derivative of one polynomial is a difference of two of the next lower
      degree. */
  predicate DerivativeLaw(i: int, n: nat, m: int)
    requires n > 0
  {
    (m + 1) as real * Coefficient(i, n, m + 1) == n as real * (Coefficient(i - 1, n - 1, m) - Coefficient(i, n - 1, m))
  }

  lemma DerivativeBase(i: int, m: nat)
    ensures DerivativeLaw(i, 1, m)
  {
    assert Coefficient(i, 0, m - 1) == Coefficient(i - 1, 0, m - 1) == 0.0 || m > 0;
  }

  lemma {:induction false} DerivativeCoefficient(i: int, n: nat, m: nat)
    requires n > 0
    ensures DerivativeLaw(i, n, m)
    decreases n
  {
    hide *;
    if n == 1 {
      DerivativeBase(i, m);
    } else {
      DerivativeCoefficient(i, n - 1, m);
      if m > 0 {
        DerivativeCoefficient(i, n - 1, m - 1);
        DerivativeCoefficient(i - 1, n - 1, m - 1);
      }
      DerivativeStep(i, n, m);
    }
  }

  lemma DerivativeStep(i: int, n: nat, m: nat)
    requires n > 1 && DerivativeLaw(i, n - 1, m)
    requires m > 0 ==> DerivativeLaw(i, n - 1, m - 1) && DerivativeLaw(i - 1, n - 1, m - 1)
    ensures DerivativeLaw(i, n, m)
  {
    var c, k := (n - 1) as real, m as real;
    var a, a1, a2 := Coefficient(i, n - 2, m), Coefficient(i - 1, n - 2, m), Coefficient(i - 2, n - 2, m);
    var b, b1, b2 := Coefficient(i, n - 2, m - 1), Coefficient(i - 1, n - 2, m - 1), Coefficient(i - 2, n - 2, m - 1);
    var p, q, q1 := Coefficient(i, n - 1, m + 1), Coefficient(i, n - 1, m), Coefficient(i - 1, n - 1, m);
    assert Coefficient(i, n, m + 1) == p - q + q1;
    assert q == a - b + b1 && q1 == a1 - b1 + b2;
    assert k * q == c * (b1 - b) && k * q1 == c * (b2 - b1) by {
      if m == 0 {
        assert b == b1 == b2 == 0.0;
      }
    }
    DerivativeAlgebra(c, k, a, a1, b, b1, b2, p, q, q1);
  }

  lemma DerivativeAlgebra(c: real, k: real, a: real, a1: real, b: real, b1: real, b2: real, p: real, q: real, q1: real)
    requires (k + 1.0) * p == c * (a1 - a) && k * q == c * (b1 - b) && k * q1 == c * (b2 - b1)
    requires q == a - b + b1 && q1 == a1 - b1 + b2
    ensures (k + 1.0) * (p - q + q1) == (c + 1.0) * (q1 - q)
  {
    assert (k + 1.0) * (p - q + q1) == (k + 1.0) * p - k * q + k * q1 + (q1 - q);
    assert c * (a1 - a) - c * (b1 - b) + c * (b2 - b1) == c * (q1 - q);
  }

  /** n times the difference of two coefficient lists */
  function ScaledGap(n: nat, p: seq<real>, q: seq<real>): (r: seq<real>)
    requires |p| == |q|
    ensures |r| == |p|
  {
    seq(|p|, m requires 0 <= m < |p| => n as real * (p[m] - q[m]))
  }

  lemma DerivOfBernstein(i: int, n: nat)
    requires n > 0
    ensures Deriv(Coefficients(i, n)) == ScaledGap(n, Coefficients(i - 1, n - 1), Coefficients(i, n - 1))
  {
    hide Coefficient;
    var d, g := Deriv(Coefficients(i, n)), ScaledGap(n, Coefficients(i - 1, n - 1), Coefficients(i, n - 1));
    forall m | 0 <= m < n
      ensures d[m] == g[m]
    {
      DerivativeCoefficient(i, n, m);
      assert Coefficients(i, n)[m + 1] == Coefficient(i, n, m + 1);
    }
  }

  lemma DerivAt(p: seq<real>, m: nat)
    requires m + 1 < |p|
    ensures Deriv(p)[m] == (m + 1) as real * p[m + 1]
  {
  }

  lemma GapAt(n: nat, p: seq<real>, q: seq<real>, m: nat)
    requires m < |p| == |q|
    ensures ScaledGap(n, p, q)[m] == n as real * (p[m] - q[m])
  {
  }

  lemma DerivOfGapAt(n: nat, p: seq<real>, q: seq<real>, m: nat)
    requires m + 1 < |p| == |q|
    ensures Deriv(ScaledGap(n, p, q))[m] == ScaledGap(n, Deriv(p), Deriv(q))[m]
  {
    hide Deriv, ScaledGap;
    DerivAt(ScaledGap(n, p, q), m);
    GapAt(n, p, q, m + 1);
    GapAt(n, Deriv(p), Deriv(q), m);
    DerivAt(p, m);
    DerivAt(q, m);
    GapAlgebra((m + 1) as real, n as real, p[m + 1], q[m + 1]);
  }

  lemma DerivOfGap(n: nat, p: seq<real>, q: seq<real>)
    requires |p| == |q|
    ensures Deriv(ScaledGap(n, p, q)) == ScaledGap(n, Deriv(p), Deriv(q))
  {
    hide Deriv, ScaledGap;
    forall m | 0 <= m < |p| - 1
      ensures Deriv(ScaledGap(n, p, q))[m] == ScaledGap(n, Deriv(p), Deriv(q))[m]
    {
      DerivOfGapAt(n, p, q, m);
    }
  }

  lemma {:induction false} DerivNOfGap(n: nat, p: seq<real>, q: seq<real>, k: nat)
    requires |p| == |q|
    ensures DerivN(ScaledGap(n, p, q), k) == ScaledGap(n, DerivN(p, k), DerivN(q, k))
    decreases k
  {
    hide Deriv, ScaledGap;
    if k > 0 {
      DerivOfGap(n, p, q);
      DerivNOfGap(n, Deriv(p), Deriv(q), k - 1);
    }
  }

  lemma GapAlgebra(a: real, n: real, x: real, y: real)
    ensures a * (n * (x - y)) == n * (a * x - a * y)
  {
  }

  lemma TermOfGap(n: nat, p: seq<real>, q: seq<real>, x: real, m: nat)
    requires m < |p| == |q|
    ensures Term(ScaledGap(n, p, q), x, m) == n as real * (Term(p, x, m) - Term(q, x, m))
  {
    GapAlgebra(Pow(x, m), n as real, p[m], q[m]);
  }

  lemma EvalOfGap(n: nat, p: seq<real>, q: seq<real>, x: real)
    requires |p| == |q|
    ensures Eval(ScaledGap(n, p, q), x) == n as real * (Eval(p, x) - Eval(q, x))
  {
    hide Term, Sum;
    var f, g, h := (m: nat) => Term(p, x, m), (m: nat) => Term(q, x, m), (m: nat) => Term(ScaledGap(n, p, q), x, m);
    var d := (m: nat) => f(m) - g(m);
    forall m: nat | m < |p|
      ensures h(m) == n as real * d(m)
    {
      TermOfGap(n, p, q, x, m);
    }
    SumScale(n as real, d, h, |p|);
    SumAdd(g, d, f, |p|);
    assert Sum(d, |p|) == Sum(f, |p|) - Sum(g, |p|);
  }

  /** The k-fold difference of Bernstein polynomials of degree m. */
  function Alternating(k: nat, i: int, m: nat, x: real): real
    decreases k
  {
    if k == 0 then Bern(i, m, x) else Alternating(k - 1, i - 1, m, x) - Alternating(k - 1, i, m, x)
  }

  lemma EvalDerivBase(i: int, n: nat, x: real)
    ensures Eval(DerivN(Coefficients(i, n), 0), x) == Falling(n, 0) as real * Alternating(0, i, n, x)
  {
    hide Eval, Coefficients, Bern;
    EvalBernstein(i, n, x);
  }

  lemma {:induction false} EvalDerivN(k: nat, i: int, n: nat, x: real)
    requires k <= n
    ensures Eval(DerivN(Coefficients(i, n), k), x) == Falling(n, k) as real * Alternating(k, i, n - k, x)
    decreases k
  {
    hide *;
    if k == 0 {
      EvalDerivBase(i, n, x);
    } else {
      EvalDerivN(k - 1, i - 1, n - 1, x);
      EvalDerivN(k - 1, i, n - 1, x);
      EvalDerivStep(k, i, n, x);
    }
  }

  lemma DerivUnfolds(k: nat, i: int, n: nat, x: real)
    requires 0 < k <= n
    ensures DerivN(Coefficients(i, n), k) == DerivN(Deriv(Coefficients(i, n)), k - 1)
    ensures Falling(n, k) == n * Falling(n - 1, k - 1)
    ensures Alternating(k, i, n - k, x) == Alternating(k - 1, i - 1, n - k, x) - Alternating(k - 1, i, n - k, x)
  {
  }

  lemma EvalDerivStep(k: nat, i: int, n: nat, x: real)
    requires 0 < k <= n
    requires Eval(DerivN(Coefficients(i - 1, n - 1), k - 1), x)
             == Falling(n - 1, k - 1) as real * Alternating(k - 1, i - 1, n - k, x)
    requires Eval(DerivN(Coefficients(i, n - 1), k - 1), x)
             == Falling(n - 1, k - 1) as real * Alternating(k - 1, i, n - k, x)
    ensures Eval(DerivN(Coefficients(i, n), k), x) == Falling(n, k) as real * Alternating(k, i, n - k, x)
  {
    hide *;
    var p, q := Coefficients(i - 1, n - 1), Coefficients(i, n - 1);
    DerivUnfolds(k, i, n, x);
    DerivOfBernstein(i, n);
    DerivNOfGap(n, p, q, k - 1);
    EvalOfGap(n, DerivN(p, k - 1), DerivN(q, k - 1), x);
    FallingAlgebra(n, Falling(n - 1, k - 1), Alternating(k - 1, i - 1, n - k, x), Alternating(k - 1, i, n - k, x));
  }

  lemma FallingAlgebra(n: nat, f: nat, a: real, b: real)
    ensures n as real * (f as real * a - f as real * b) == (n * f) as real * (a - b)
  {
    assert (n * f) as real == n as real * f as real;
  }

  // ----- the closed sum -----

  function SumTerm(k: nat, i: int, m: nat, x: real, j: nat): real {
    Pow(-1.0, j + k) * Choose(k, j) as real * Bern(i - j, m, x)
  }

  /** The terms of index less than n. */
  function PartialSum(k: nat, i: int, m: nat, x: real, n: nat): real {
    if n == 0 then 0.0 else PartialSum(k, i, m, x, n - 1) + SumTerm(k, i, m, x, n - 1)
  }

  lemma SignFlips(n: nat)
    ensures Pow(-1.0, n + 1) == -Pow(-1.0, n)
  {
  }

  lemma FirstTermSplits(k: nat, i: int, m: nat, x: real)
    requires k > 0
    ensures SumTerm(k, i, m, x, 0) == -SumTerm(k - 1, i, m, x, 0)
  {
    hide Bern;
    SignFlips(k - 1);
    assert Choose(k, 0) == Choose(k - 1, 0) == 1;
  }

  lemma TermSplits(k: nat, i: int, m: nat, x: real, j: nat)
    requires k > 0 && j > 0
    ensures SumTerm(k, i, m, x, j) == SumTerm(k - 1, i - 1, m, x, j - 1) - SumTerm(k - 1, i, m, x, j)
  {
    hide Bern, Pow;
    SignFlips(j + k - 1);
    SignFlips(j + k - 2);
    assert Choose(k, j) == Choose(k - 1, j - 1) + Choose(k - 1, j);
    assert i - 1 - (j - 1) == i - j;
    hide Choose;
    SplitAlgebra(Pow(-1.0, j + k - 2), Choose(k - 1, j - 1) as real, Choose(k - 1, j) as real, Bern(i - j, m, x));
  }

  lemma SplitAlgebra(s: real, a: real, b: real, y: real)
    ensures s * (a + b) * y == s * a * y - (-s) * b * y
  {
  }

  lemma {:induction false} PartialSumSplits(k: nat, i: int, m: nat, x: real, n: nat)
    requires k > 0 && n > 0
    ensures PartialSum(k, i, m, x, n) == PartialSum(k - 1, i - 1, m, x, n - 1) - PartialSum(k - 1, i, m, x, n)
    decreases n
  {
    hide SumTerm;
    if n == 1 {
      FirstTermSplits(k, i, m, x);
    } else {
      TermSplits(k, i, m, x, n - 1);
      PartialSumSplits(k, i, m, x, n - 1);
    }
  }

  lemma {:induction false} AlternatingIsSum(k: nat, i: int, m: nat, x: real)
    ensures PartialSum(k, i, m, x, k + 1) == Alternating(k, i, m, x)
    decreases k
  {
    if k == 0 {
      assert SumTerm(0, i, m, x, 0) == Bern(i, m, x);
    } else {
      PartialSumSplits(k, i, m, x, k + 1);
      AlternatingIsSum(k - 1, i - 1, m, x);
      AlternatingIsSum(k - 1, i, m, x);
      ChooseOutside(k - 1, k);
      assert SumTerm(k - 1, i, m, x, k) == 0.0;
    }
  }

  /** Terms below the clamped range of summation vanish. */
  lemma {:induction false} EarlyTerms(k: nat, i: int, m: nat, x: real, n: nat)
    requires n <= (if i > m then i - m else 0)
    ensures PartialSum(k, i, m, x, n) == 0.0
  {
    if n > 0 {
      EarlyTerms(k, i, m, x, n - 1);
      assert SumTerm(k, i, m, x, n - 1) == 0.0;
    }
  }

  /** So do the terms above it. */
  lemma {:induction false} LateTerms(k: nat, i: int, m: nat, x: real, n: nat, n': nat)
    requires n <= n' && (n == n' || n > i)
    ensures PartialSum(k, i, m, x, n) == PartialSum(k, i, m, x, n')
  {
    if n < n' {
      LateTerms(k, i, m, x, n, n' - 1);
      assert SumTerm(k, i, m, x, n' - 1) == 0.0;
    }
  }

  lemma {:induction false} DerivNVanishes(p: seq<real>, k: nat, x: real)
    requires k >= |p|
    ensures Eval(DerivN(p, k), x) == 0.0
  {
    assert DerivN(p, k) == [];
  }

  function Clamp(k: int): nat { if k < 0 then 0 else k }

  lemma ZerothDerivative(i: int, n: nat, x: real)
    ensures Eval(DerivN(Coefficients(i, n), 0), x) == Bern(i, n, x)
  {
    EvalBernstein(i, n, x);
  }

  /** The k-th derivative of the i-th Bernstein polynomial of degree n, by the closed sum over the clamped range. */
  method BernsteinPolyDeriv(k: int, i: int, n: int, x: real) returns (result: real)
    requires 0 <= i <= n
    ensures result == Eval(DerivN(Coefficients(i, n), Clamp(k)), x)
  {
    hide Eval, DerivN, Coefficients, Alternating, Falling, Factorial, Bern;
    if k <= 0 {
      ZerothDerivative(i, n, x);
      result := BernsteinPoly(i, n, x);
      return;
    }
    if k > n {
      DerivNVanishes(Coefficients(i, n), k, x);
      return 0.0;
    }
    var jmin := if i + k - n > 0 then i + k - n else 0;
    var jmax := if i < k then i else k;
    result := ClampedSum(k, i, n, x, jmin, jmax);
    var a := FactorialOf(n);
    var b := FactorialOf(n - k);
    FallingQuotient(n, k);
    EvalDerivN(k, i, n, x);
    result := result * (a / b) as real;
  }

  method ClampedSum(k: int, i: int, n: int, x: real, jmin: int, jmax: int) returns (result: real)
    requires 0 <= i <= n && 0 < k <= n
    requires jmin == (if i + k - n > 0 then i + k - n else 0) && jmax == (if i < k then i else k)
    ensures result == Alternating(k, i, n - k, x)
  {
    hide Bern, Alternating, Choose, Pow;
    EarlyTerms(k, i, n - k, x, jmin);
    LateTerms(k, i, n - k, x, jmax + 1, k + 1);
    AlternatingIsSum(k, i, n - k, x);
    result := 0.0;
    for j := jmin to jmax + 1
      invariant result == PartialSum(k, i, n - k, x, j)
    {
      var s := PowInt(-1.0, j + k);
      var c := Binom(k, j);
      var b := BernsteinPoly(i - j, n - k, x);
      result := result + s * c as real * b;
    }
  }

  lemma FallingQuotient(n: nat, k: nat)
    requires k <= n
    ensures Factorial(n - k) > 0
    ensures Factorial(n) / Factorial(n - k) == Falling(n, k)
  {
    FactorialPositive(n - k);
    FallingSplits(n, k);
    ExactQuotient(Factorial(n), Falling(n, k), Factorial(n - k));
  }
}
