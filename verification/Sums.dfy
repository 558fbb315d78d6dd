/** Finite sums and powers of reals. */
module Sums {
  /** f(0) + ... + f(n - 1) */
  function Sum(f: nat -> real, n: nat): real {
    if n == 0 then 0.0 else Sum(f, n - 1) + f(n - 1)
  }

  lemma SumLast(f: nat -> real, n: nat)
    ensures Sum(f, n + 1) == Sum(f, n) + f(n)
  {
  }

  lemma {:induction false} SumEq(f: nat -> real, g: nat -> real, n: nat)
    requires forall i: nat :: i < n ==> f(i) == g(i)
    ensures Sum(f, n) == Sum(g, n)
  {
    if n > 0 {
      SumEq(f, g, n - 1);
    }
  }

  lemma {:induction false} SumAdd(f: nat -> real, g: nat -> real, h: nat -> real, n: nat)
    requires forall i: nat :: i < n ==> h(i) == f(i) + g(i)
    ensures Sum(h, n) == Sum(f, n) + Sum(g, n)
  {
    if n > 0 {
      SumAdd(f, g, h, n - 1);
    }
  }

  lemma {:induction false} SumScale(a: real, f: nat -> real, h: nat -> real, n: nat)
    requires forall i: nat :: i < n ==> h(i) == a * f(i)
    ensures Sum(h, n) == a * Sum(f, n)
  {
    if n > 0 {
      SumScale(a, f, h, n - 1);
      Distribute(a, Sum(f, n - 1), f(n - 1));
    }
  }

  lemma Distribute(a: real, x: real, y: real)
    ensures a * (x + y) == a * x + a * y
  {
  }

  /** Terms that vanish do not count. */
  lemma {:induction false} SumExtend(f: nat -> real, n: nat, m: nat)
    requires n <= m && forall i: nat :: n <= i < m ==> f(i) == 0.0
    ensures Sum(f, m) == Sum(f, n)
  {
    if n < m {
      SumExtend(f, n, m - 1);
    }
  }

  lemma {:induction false} SumShift(f: nat -> real, g: nat -> real, n: nat)
    requires forall i: nat :: i < n ==> g(i) == f(i + 1)
    ensures Sum(f, n + 1) == f(0) + Sum(g, n)
  {
    if n > 0 {
      SumShift(f, g, n - 1);
    }
  }

  // ----- inner products and matrices -----

  /** f(0) * g(0) + ... + f(n - 1) * g(n - 1) */
  function Dot(f: nat -> real, g: nat -> real, n: nat): real {
    if n == 0 then 0.0 else Dot(f, g, n - 1) + f(n - 1) * g(n - 1)
  }

  type Matrix = (nat, nat) -> real

  function Row(a: Matrix, i: nat): nat -> real {
    (j: nat) => a(i, j)
  }

  function Column(a: Matrix, j: nat): nat -> real {
    (i: nat) => a(i, j)
  }

  /** a times the vector u of length m */
  function Apply(a: Matrix, u: nat -> real, m: nat): nat -> real {
    (i: nat) => Dot(Row(a, i), u, m)
  }

  /** The vector v of length n times a */
  function ApplyLeft(v: nat -> real, a: Matrix, n: nat): nat -> real {
    (j: nat) => Dot(Column(a, j), v, n)
  }

  /** a times b, where a has m columns */
  function Product(a: Matrix, b: Matrix, m: nat): Matrix {
    (i: nat, j: nat) => Dot(Row(a, i), Column(b, j), m)
  }

  lemma {:induction false} DotEq(f: nat -> real, f': nat -> real, g: nat -> real, g': nat -> real, n: nat)
    requires forall i: nat {:trigger f(i)} {:trigger f'(i)} :: i < n ==> f(i) == f'(i)
    requires forall i: nat {:trigger g(i)} {:trigger g'(i)} :: i < n ==> g(i) == g'(i)
    ensures Dot(f, g, n) == Dot(f', g', n)
  {
    if n > 0 {
      DotEq(f, f', g, g', n - 1);
    }
  }

  lemma {:induction false} DotZero(f: nat -> real, g: nat -> real, n: nat)
    requires forall i: nat :: i < n ==> g(i) == 0.0
    ensures Dot(f, g, n) == 0.0
  {
    if n > 0 {
      DotZero(f, g, n - 1);
    }
  }

  lemma DotStep(u: real, g: real, h: real, s: real, t: real, w: real)
    ensures (s + w * t) + u * (g + w * h) == (s + u * g) + w * (t + u * h)
  {
  }

  /** The inner product is linear: k == g + w * h. */
  lemma {:induction false} DotLinear(u: nat -> real, g: nat -> real, h: nat -> real, w: real, k: nat -> real, n: nat)
    requires forall i: nat {:trigger k(i)} :: i < n ==> k(i) == g(i) + w * h(i)
    ensures Dot(u, k, n) == Dot(u, g, n) + w * Dot(u, h, n)
  {
    if n > 0 {
      DotLinear(u, g, h, w, k, n - 1);
      assert k(n - 1) == g(n - 1) + w * h(n - 1);
      DotStep(u(n - 1), g(n - 1), h(n - 1), Dot(u, g, n - 1), Dot(u, h, n - 1), w);
    }
  }

  lemma {:induction false} DotSymmetric(f: nat -> real, g: nat -> real, n: nat)
    ensures Dot(f, g, n) == Dot(g, f, n)
  {
    if n > 0 {
      DotSymmetric(f, g, n - 1);
    }
  }

  /** A matrix between two vectors may be applied to either of them first. */
  lemma {:induction false} ApplyEitherSide(v: nat -> real, a: Matrix, u: nat -> real, n: nat, m: nat)
    ensures Dot(Apply(a, u, m), v, n) == Dot(u, ApplyLeft(v, a, n), m)
  {
    if n == 0 {
      DotZero(u, ApplyLeft(v, a, 0), m);
    } else {
      ApplyEitherSide(v, a, u, n - 1, m);
      DotLinear(u, ApplyLeft(v, a, n - 1), Row(a, n - 1), v(n - 1), ApplyLeft(v, a, n), m);
      DotSymmetric(u, Row(a, n - 1), m);
    }
  }

  function Pow(x: real, n: nat): real {
    if n == 0 then 1.0 else x * Pow(x, n - 1)
  }

  /** The power x^n by repeated multiplication. */
  method PowInt(x: real, n: nat) returns (result: real)
    ensures result == Pow(x, n)
  {
    result := 1.0;
    for i := 0 to n
      invariant result == Pow(x, i)
    {
      result := result * x;
    }
  }
}
