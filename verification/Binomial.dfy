/** Binomial coefficients and factorials in exact integers. */
module Binomial {
  /** Pascal's triangle. */
  function Choose(n: nat, k: nat): nat {
    if k == 0 then 1 else if n == 0 then 0 else Choose(n - 1, k - 1) + Choose(n - 1, k)
  }

  function Factorial(n: nat): nat {
    if n == 0 then 1 else n * Factorial(n - 1)
  }

  /** n * (n - 1) * ... with k factors */
  function Falling(n: nat, k: nat): nat
    requires k <= n
  {
    if k == 0 then 1 else n * Falling(n - 1, k - 1)
  }

  lemma {:induction false} ChooseAbsorbs(n: nat, k: nat)
    ensures (k + 1) * Choose(n + 1, k + 1) == (n + 1) * Choose(n, k)
  {
    if n == 0 {
      assert Choose(0, k + 1) == 0;
      assert k > 0 ==> Choose(0, k) == 0;
    } else {
      ChooseAbsorbs(n - 1, k);
      if k > 0 {
        ChooseAbsorbs(n - 1, k - 1);
      } else {
        assert Choose(n, 0) == 1 == Choose(n - 1, 0);
      }
      AbsorbStep(n, k);
    }
  }

  lemma AbsorbStep(n: nat, k: nat)
    requires n > 0 && (k + 1) * Choose(n, k + 1) == n * Choose(n - 1, k)
    requires k > 0 ==> k * Choose(n, k) == n * Choose(n - 1, k - 1)
    ensures (k + 1) * Choose(n + 1, k + 1) == (n + 1) * Choose(n, k)
  {
    if k == 0 {
      assert Choose(n, 0) == Choose(n - 1, 0) == 1;
    } else {
      AbsorbAlgebra(n, k, Choose(n, k), Choose(n, k + 1), Choose(n - 1, k - 1), Choose(n - 1, k));
    }
  }

  lemma AbsorbAlgebra(n: int, k: int, a: int, b: int, c: int, d: int)
    requires (k + 1) * b == n * d && k * a == n * c && a == c + d
    ensures (k + 1) * (a + b) == (n + 1) * a
  {
    assert (k + 1) * (a + b) == k * a + a + (k + 1) * b;
    assert n * (c + d) == n * c + n * d;
  }

  lemma {:induction false} ChooseOutside(n: nat, k: nat)
    requires k > n
    ensures Choose(n, k) == 0
  {
    if n > 0 {
      ChooseOutside(n - 1, k - 1);
      ChooseOutside(n - 1, k);
    }
  }

  lemma {:induction false} ChooseSymmetric(n: nat, k: nat)
    requires k <= n
    ensures Choose(n, k) == Choose(n, n - k) > 0
  {
    if n > 0 {
      if k == 0 {
        ChooseSymmetric(n - 1, 0);
        ChooseOutside(n - 1, n);
      } else if k == n {
        ChooseSymmetric(n - 1, 0);
        ChooseOutside(n - 1, n);
      } else {
        ChooseSymmetric(n - 1, k - 1);
        ChooseSymmetric(n - 1, k);
      }
    }
  }

  lemma {:induction false} FallingSplits(n: nat, k: nat)
    requires k <= n
    ensures Falling(n, k) * Factorial(n - k) == Factorial(n)
  {
    if k > 0 {
      FallingSplits(n - 1, k - 1);
      FallingStep(n, k);
      FactorialStep(n);
      Regroup(n, Falling(n - 1, k - 1), Factorial(n - k), Factorial(n - 1), Falling(n, k)) by {
        hide Falling, Factorial;
      }
    }
  }

  lemma FallingStep(n: nat, k: nat)
    requires 0 < k <= n
    ensures Falling(n, k) == n * Falling(n - 1, k - 1)
  {
  }

  lemma FactorialStep(n: nat)
    requires n > 0
    ensures Factorial(n) == n * Factorial(n - 1)
  {
  }

  lemma Regroup(n: int, a: int, b: int, c: int, d: int)
    requires a * b == c && d == n * a
    ensures d * b == n * c
  {
    assert (n * a) * b == n * (a * b);
  }

  lemma {:induction false} ChooseOfFalling(n: nat, k: nat)
    requires k <= n
    ensures Choose(n, k) * Factorial(k) == Falling(n, k)
  {
    if k > 0 {
      ChooseOfFalling(n - 1, k - 1);
      ChooseAbsorbs(n - 1, k - 1);
      FactorialStep(k);
      FallingStep(n, k);
      MoveFactor(n, k, Choose(n, k), Choose(n - 1, k - 1), Factorial(k - 1), Factorial(k), Falling(n - 1, k - 1)) by {
        hide Choose, Falling, Factorial;
      }
    } else {
      assert Choose(n, 0) == 1 && Factorial(0) == 1 && Falling(n, 0) == 1;
    }
  }

  lemma MoveFactor(n: int, k: int, a: int, b: int, c: int, d: int, e: int)
    requires k * a == n * b && d == k * c && b * c == e
    ensures a * d == n * e
  {
    assert a * (k * c) == (k * a) * c;
    assert (n * b) * c == n * (b * c);
  }

  /** A binomial coefficient is a quotient of factorials. */
  lemma ChooseByFactorials(n: nat, k: nat)
    requires k <= n
    ensures Choose(n, k) * Factorial(k) * Factorial(n - k) == Factorial(n)
  {
    ChooseOfFalling(n, k);
    FallingSplits(n, k);
  }

  lemma {:induction false} FactorialPositive(n: nat)
    ensures Factorial(n) > 0
  {
    if n > 0 {
      FactorialPositive(n - 1);
      assert n * Factorial(n - 1) >= 1 * 1;
    }
  }

  lemma MulMonotone(a: int, b: int, d: nat)
    requires a <= b
    ensures a * d <= b * d
  {
  }

  lemma SameFactor(p: int, q: int, r: nat, d: nat)
    requires r < d && p * d + r == q * d
    ensures p == q
  {
    if p < q {
      MulMonotone(p + 1, q, d);
    } else if q < p {
      MulMonotone(q + 1, p, d);
    }
  }

  lemma Division(n: nat, d: nat)
    requires d > 0
    ensures n == (n / d) * d + n % d
  {
  }

  lemma ExactQuotient(n: nat, q: nat, d: nat)
    requires d > 0 && n == q * d
    ensures n / d == q
  {
    Division(n, d);
    SameFactor(n / d, q, n % d, d);
  }

  /** One turn of the loop below divides without remainder. */
  lemma ExactStep(m: nat, i: nat)
    requires i > 0
    ensures Choose(m + i - 1, i - 1) * (m + i) / i == Choose(m + i, i)
    ensures Choose(m + i - 1, i - 1) * (m + i) % i == 0
  {
    hide *;
    ChooseAbsorbs(m + i - 1, i - 1);
    Exactly(Choose(m + i - 1, i - 1) * (m + i), Choose(m + i, i), i);
  }

  lemma Exactly(n: nat, q: nat, d: nat)
    requires d > 0 && n == q * d
    ensures n / d == q && n % d == 0
  {
    ExactQuotient(n, q, d);
    Division(n, d);
  }

  /** The binomial coefficient; every division in the loop is exact. */
  method Binom(n: int, k: int) returns (result: int)
    requires 0 <= k <= n
    ensures result == Choose(n, k)
    decreases k
  {
    if k == 0 {
      return 1;
    }
    if 2 * k > n {
      ChooseSymmetric(n, k);
      result := Binom(n, n - k);
    } else {
      result := n - k + 1;
      ChooseAbsorbs(n - k, 0);
      assert Choose(n - k, 0) == 1;
      for i := 2 to k + 1
        invariant result == Choose(n - k + i - 1, i - 1)
      {
        ExactStep(n - k, i);
        result := result * (n - k + i);
        result := result / i;
      }
    }
  }

  method FactorialOf(n: int) returns (result: int)
    requires n >= 0
    ensures result == Factorial(n)
  {
    result := 1;
    var i := 2;
    while i <= n
      invariant 2 <= i && (i <= n + 1 || i == 2) && result == Factorial(i - 1)
    {
      result := result * i;
      i := i + 1;
    }
  }
}
