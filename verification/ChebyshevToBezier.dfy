/** From Chebyshev coefficients through monomials to Bezier control points. */
module ChebyshevToBezier {
  import opened Sums
  import opened Binomial
  import opened Bernstein
  import opened Geometry

  // ----- Chebyshev polynomials in powers of x -----

  /** The j-th Chebyshev polynomial at y. */
  function Chebyshev(j: nat, y: real): real {
    if j == 0 then 1.0 else if j == 1 then y else 2.0 * y * Chebyshev(j - 1, y) - Chebyshev(j - 2, y)
  }

  /** The coefficient of x^i in the j-th Chebyshev polynomial at 2 * x - 1. */
  function ChebCoefficient(i: int, j: nat): real
    decreases j
  {
    if i < 0 || i > j then 0.0
    else if j == 0 then 1.0
    else if j == 1 then (if i == 0 then -1.0 else 2.0)
    else 4.0 * ChebCoefficient(i - 1, j - 1) - 2.0 * ChebCoefficient(i, j - 1) - ChebCoefficient(i, j - 2)
  }

  function ChebMatrix(): Matrix {
    (i: nat, j: nat) => ChebCoefficient(i, j)
  }

  function Powers(x: real): nat -> real {
    (i: nat) => Pow(x, i)
  }

  /** The polynomial of column j, up to the power n - 1. */
  function ChebPartial(j: nat, x: real, n: nat): real {
    Dot(Column(ChebMatrix(), j), Powers(x), n)
  }

  lemma ChebRecursion(i: int, j: nat)
    requires j >= 2
    ensures ChebCoefficient(i, j)
            == 4.0 * ChebCoefficient(i - 1, j - 1) - 2.0 * ChebCoefficient(i, j - 1) - ChebCoefficient(i, j - 2)
  {
  }

  lemma ChebTermAlgebra(x: real, p: real, a: real, b: real, c: real)
    ensures (4.0 * a - 2.0 * b - c) * (x * p) == 4.0 * x * (a * p) - 2.0 * (b * (x * p)) - c * (x * p)
  {
  }

  lemma ChebPartialLast(j: nat, x: real, n: nat)
    ensures ChebPartial(j, x, n + 1) == ChebPartial(j, x, n) + ChebCoefficient(n, j) * Pow(x, n)
  {
  }

  lemma {:induction false} ChebPartialRecursion(j: nat, x: real, n: nat)
    requires j >= 2
    ensures ChebPartial(j, x, n + 1)
         == 4.0 * x * ChebPartial(j - 1, x, n) - 2.0 * ChebPartial(j - 1, x, n + 1) - ChebPartial(j - 2, x, n + 1)
    decreases n
  {
    hide ChebPartial, ChebCoefficient, Dot;
    ChebPartialLast(j, x, n);
    ChebPartialLast(j - 1, x, n);
    ChebPartialLast(j - 2, x, n);
    ChebRecursion(n, j);
    if n == 0 {
      ChebPartialEmpty(x, j);
    } else {
      ChebPartialRecursion(j, x, n - 1);
      ChebPartialLast(j - 1, x, n - 1);
      var p := Pow(x, n - 1);
      assert Pow(x, n) == x * p;
      hide Pow;
      ChebTermAlgebra(x, p, ChebCoefficient(n - 1, j - 1), ChebCoefficient(n, j - 1), ChebCoefficient(n, j - 2));
      assert 4.0 * x * (ChebPartial(j - 1, x, n - 1) + ChebCoefficient(n - 1, j - 1) * p)
          == 4.0 * x * ChebPartial(j - 1, x, n - 1) + 4.0 * x * (ChebCoefficient(n - 1, j - 1) * p);
    }
  }

  lemma ChebPartialEmpty(x: real, j: nat)
    requires j >= 2
    ensures ChebPartial(j, x, 0) == ChebPartial(j - 1, x, 0) == ChebPartial(j - 2, x, 0) == 0.0
    ensures ChebCoefficient(-1, j - 1) == 0.0 && Pow(x, 0) == 1.0
  {
  }

  lemma ChebBase(x: real, n: nat)
    ensures ChebPartial(0, x, n) == if n >= 1 then 1.0 else 0.0
    ensures ChebPartial(1, x, n) == if n >= 2 then 2.0 * x - 1.0 else if n == 1 then -1.0 else 0.0
    decreases n
  {
    if n > 0 {
      ChebBase(x, n - 1);
      ChebPartialLast(0, x, n - 1);
      ChebPartialLast(1, x, n - 1);
      assert Pow(x, 0) == 1.0 && Pow(x, 1) == x;
    }
  }

  lemma ChebAlgebra(x: real, a: real, b: real)
    ensures 4.0 * x * a - 2.0 * a - b == 2.0 * (2.0 * x - 1.0) * a - b
  {
  }

  /** Column j holds the coefficients of the j-th Chebyshev polynomial on the interval from 0 to 1. */
  lemma {:induction false} ChebColumn(j: nat, x: real, n: nat)
    requires j < n
    ensures ChebPartial(j, x, n) == Chebyshev(j, 2.0 * x - 1.0)
    decreases j
  {
    hide ChebPartial;
    if j < 2 {
      ChebBase(x, n);
    } else {
      ChebPartialRecursion(j, x, n - 1);
      ChebColumn(j - 1, x, n - 1);
      ChebColumn(j - 1, x, n);
      ChebColumn(j - 2, x, n);
      ChebAlgebra(x, Chebyshev(j - 1, 2.0 * x - 1.0), Chebyshev(j - 2, 2.0 * x - 1.0));
    }
  }

  // ----- powers of x in Bernstein polynomials -----

  function BernVector(n: nat, x: real): nat -> real {
    (i: nat) => Bern(i, n, x)
  }

  /** Pascal's triangle in reals, zero to the left of its first column. */
  function Weight(n: nat, j: int): real {
    if j < 0 then 0.0 else Choose(n, j) as real
  }

  lemma WeightRecursion(n: nat, j: int)
    ensures Weight(n + 1, j) == Weight(n, j) + Weight(n, j - 1)
  {
    if j == 0 {
      assert Choose(n + 1, 0) == Choose(n, 0) == 1;
    }
  }

  /** Weight(0, j) * B(0) + ... + Weight(m - 1, j) * B(m - 1) */
  function WeightedSum(j: int, n: nat, x: real, m: nat): real {
    if m == 0 then 0.0 else WeightedSum(j, n, x, m - 1) + Weight(m - 1, j) * Bern(m - 1, n, x)
  }

  lemma BernOutside(i: int, n: nat, x: real)
    requires i < 0 || i > n
    ensures Bern(i, n, x) == 0.0
  {
  }

  lemma WeightedSumLast(j: int, n: nat, x: real, m: nat)
    ensures WeightedSum(j, n, x, m + 1) == WeightedSum(j, n, x, m) + Weight(m, j) * Bern(m, n, x)
  {
  }

  lemma {:induction false} WeightedSumRecursion(j: int, n: nat, x: real, m: nat)
    requires n > 0
    ensures WeightedSum(j, n, x, m + 1)
         == (1.0 - x) * WeightedSum(j, n - 1, x, m + 1)
             + x * (WeightedSum(j, n - 1, x, m) + WeightedSum(j - 1, n - 1, x, m))
    decreases m
  {
    hide *;
    BernRecursion(m, n, x);
    WeightedSumLast(j, n, x, m);
    WeightedSumLast(j, n - 1, x, m);
    if m == 0 {
      EmptyWeightedSums(j, n, x);
      BernOutside(-1, n - 1, x);
      FirstTermAlgebra(x, Weight(0, j), Bern(0, n - 1, x), Bern(0, n, x));
    } else {
      WeightedSumRecursion(j, n, x, m - 1);
      WeightedSumLast(j, n - 1, x, m - 1);
      WeightedSumLast(j - 1, n - 1, x, m - 1);
      WeightRecursion(m - 1, j);
      NextTermAlgebra(x, Weight(m - 1, j), Weight(m - 1, j - 1), Bern(m, n - 1, x), Bern(m - 1, n - 1, x),
                      Bern(m, n, x),
                      WeightedSum(j, n - 1, x, m), WeightedSum(j, n - 1, x, m - 1), WeightedSum(j - 1, n - 1, x, m - 1),
                      WeightedSum(j, n, x, m));
    }
  }

  lemma EmptyWeightedSums(j: int, n: nat, x: real)
    requires n > 0
    ensures WeightedSum(j, n, x, 0) == WeightedSum(j, n - 1, x, 0) == WeightedSum(j - 1, n - 1, x, 0) == 0.0
  {
  }

  lemma FirstTermAlgebra(x: real, c: real, p: real, b: real)
    requires b == (1.0 - x) * p + x * 0.0
    ensures 0.0 + c * b == (1.0 - x) * (0.0 + c * p) + x * (0.0 + 0.0)
  {
  }

  lemma NextTermAlgebra(x: real, c: real, d: real, p: real, q: real, b: real, s: real, t: real, u: real, v: real)
    requires v == (1.0 - x) * s + x * (t + u)
    requires b == (1.0 - x) * p + x * q
    ensures v + (c + d) * b == (1.0 - x) * (s + (c + d) * p) + x * ((t + c * q) + (u + d * q))
  {
    var e := c + d;
    assert e * b == (1.0 - x) * (e * p) + x * (e * q);
    assert e * q == c * q + d * q;
  }

  function PowerOf(x: real, j: int): real {
    if j < 0 then 0.0 else Pow(x, j)
  }

  lemma PowerStep(x: real, j: int)
    ensures PowerOf(x, j) == x * PowerOf(x, j - 1) || (j == 0 && PowerOf(x, -1) == 0.0)
  {
  }

  /** The Bernstein polynomials weighted with one column of Pascal's triangle add up to a multiple of a power of x. */
  lemma {:induction false} WeightedTotal(j: int, n: nat, x: real)
    ensures WeightedSum(j, n, x, n + 1) == Weight(n, j) * PowerOf(x, j)
    decreases n
  {
    hide *;
    WeightedSumLast(j, n, x, n);
    if n == 0 {
      WeightedTotalBase(j, x);
    } else {
      WeightedSumRecursion(j, n, x, n);
      WeightedTotal(j, n - 1, x);
      WeightedTotal(j - 1, n - 1, x);
      WeightedSumLast(j, n - 1, x, n);
      BernOutside(n, n - 1, x);
      WeightRecursion(n - 1, j);
      PowerStep(x, j);
      WeightOutside(n - 1);
      TotalAlgebra(x, Weight(n - 1, j), Weight(n - 1, j - 1), PowerOf(x, j), PowerOf(x, j - 1), Weight(n, j));
    }
  }

  lemma WeightOutside(n: nat)
    ensures Weight(n, -1) == 0.0
  {
  }

  lemma WeightedTotalBase(j: int, x: real)
    ensures WeightedSum(j, 0, x, 1) == Weight(0, j) * PowerOf(x, j)
  {
    assert Bern(0, 0, x) == 1.0;
    assert WeightedSum(j, 0, x, 1) == Weight(0, j);
  }

  lemma TotalAlgebra(x: real, a: real, b: real, p: real, q: real, c: real)
    requires (p == x * q || (b == 0.0 && q == 0.0)) && c == a + b
    ensures (1.0 - x) * (a * p + c * 0.0) + x * (a * p + b * q) == c * p
  {
    assert (1.0 - x) * (a * p) + x * (a * p + b * q) == a * p + b * (x * q);
  }

  function BezierEntry(n: nat, i: nat, j: nat): real {
    if j <= i && j <= n && Choose(n, j) > 0 then Choose(i, i - j) as real / Choose(n, j) as real else 0.0
  }

  function BezierMatrix(n: nat): Matrix {
    (i: nat, j: nat) => BezierEntry(n, i, j)
  }

  lemma EntryIsQuotient(n: nat, i: nat, j: nat)
    requires j <= n
    ensures Choose(n, j) > 0
    ensures Choose(n, j) as real * BezierEntry(n, i, j) == Choose(i, j) as real
  {
    ChooseSymmetric(n, j);
    if j <= i {
      ChooseSymmetric(i, j);
    } else {
      ChooseOutside(i, j);
    }
  }

  lemma {:induction false} BezierColumnPartial(j: nat, n: nat, x: real, m: nat)
    requires j <= n
    ensures Choose(n, j) as real * Dot(Column(BezierMatrix(n), j), BernVector(n, x), m) == WeightedSum(j, n, x, m)
    decreases m
  {
    hide Bern, BezierEntry, Choose;
    if m > 0 {
      BezierColumnPartial(j, n, x, m - 1);
      EntryIsQuotient(n, m - 1, j);
      QuotientAlgebra(Choose(n, j) as real, Dot(Column(BezierMatrix(n), j), BernVector(n, x), m - 1),
                      BezierEntry(n, m - 1, j), Choose(m - 1, j) as real, Bern(m - 1, n, x));
    }
  }

  lemma QuotientAlgebra(c: real, d: real, e: real, f: real, b: real)
    requires c * e == f
    ensures c * (d + e * b) == c * d + f * b
  {
  }

  lemma CancelFactor(c: real, a: real, b: real)
    requires c > 0.0 && c * a == c * b
    ensures a == b
  {
    assert c * (a - b) == 0.0;
  }

  lemma WeightInside(n: nat, j: nat, x: real)
    ensures Weight(n, j) == Choose(n, j) as real && PowerOf(x, j) == Pow(x, j)
  {
  }

  /** Column j of the conversion matrix writes x^j in Bernstein polynomials of degree n. */
  lemma BezierColumn(j: nat, n: nat, x: real)
    requires j <= n
    ensures Dot(Column(BezierMatrix(n), j), BernVector(n, x), n + 1) == Pow(x, j)
  {
    hide *;
    BezierColumnPartial(j, n, x, n + 1);
    WeightedTotal(j, n, x);
    WeightInside(n, j, x);
    EntryIsQuotient(n, 0, j);
    CancelFactor(Choose(n, j) as real, Dot(Column(BezierMatrix(n), j), BernVector(n, x), n + 1), Pow(x, j));
  }

  // ----- the whole conversion -----

  function ChebVector(y: real): nat -> real {
    (j: nat) => Chebyshev(j, y)
  }

  /** The control points that the two matrices make of the Chebyshev coefficients c. */
  function ControlPoints(n: nat, c: nat -> real): nat -> real {
    Apply(Product(BezierMatrix(n), ChebMatrix(), n + 1), c, n + 1)
  }

  lemma ConversionColumn(j: nat, n: nat, x: real)
    requires j <= n
    ensures ApplyLeft(BernVector(n, x), Product(BezierMatrix(n), ChebMatrix(), n + 1), n + 1)(j)
            == Chebyshev(j, 2.0 * x - 1.0)
  {
    var a, l, b := BezierMatrix(n), ChebMatrix(), BernVector(n, x);
    var lj := Column(l, j);
    DotEq(Column(Product(a, l, n + 1), j), Apply(a, lj, n + 1), b, b, n + 1);
    ApplyEitherSide(b, a, lj, n + 1, n + 1);
    forall i: nat | i < n + 1
      ensures ApplyLeft(b, a, n + 1)(i) == Powers(x)(i)
    {
      BezierColumn(i, n, x);
    }
    DotEq(lj, lj, ApplyLeft(b, a, n + 1), Powers(x), n + 1);
    ChebColumn(j, x, n + 1);
  }

  /** The Bezier curve with these control points is the Chebyshev expansion, at every x. */
  lemma ConversionKeepsPolynomial(n: nat, c: nat -> real, x: real)
    ensures Dot(ControlPoints(n, c), BernVector(n, x), n + 1) == Dot(c, ChebVector(2.0 * x - 1.0), n + 1)
  {
    var p, b := Product(BezierMatrix(n), ChebMatrix(), n + 1), BernVector(n, x);
    ApplyEitherSide(b, p, c, n + 1, n + 1);
    var t, t' := ApplyLeft(b, p, n + 1), ChebVector(2.0 * x - 1.0);
    forall j: nat | j < n + 1
      ensures t(j) == t'(j)
    {
      ConversionColumn(j, n, x);
    }
    DotEq(c, c, t, t', n + 1);
  }

  // ----- the matrices as they are built -----

  lemma ChebFirstColumns()
    ensures forall i :: ChebCoefficient(i, 0) == if i == 0 then 1.0 else 0.0
    ensures forall i :: ChebCoefficient(i, 1) == if i == 0 then -1.0 else if i == 1 then 2.0 else 0.0
    ensures forall i: int, j: nat :: i < 0 || i > j ==> ChebCoefficient(i, j) == 0.0
  {
  }

  method ChebToMonomial(N: nat) returns (matrix: array2<real>)
    requires N >= 2
    ensures fresh(matrix) && matrix.Length0 == N && matrix.Length1 == N
    ensures forall i, j :: 0 <= i < N && 0 <= j < N ==> matrix[i, j] == ChebCoefficient(i, j)
  {
    hide ChebCoefficient;
    ChebFirstColumns();
    matrix := new real[N, N]((i, j) => 0.0);
    matrix[0, 0] := 1.0;
    matrix[0, 1] := -1.0;
    matrix[1, 1] := 2.0;
    for j := 2 to N
      invariant forall r, c :: 0 <= r < N && 0 <= c < j ==> matrix[r, c] == ChebCoefficient(r, c)
      invariant forall r, c :: 0 <= r < N && j <= c < N ==> matrix[r, c] == 0.0
    {
      for i := 0 to j + 1
        invariant forall r, c :: 0 <= r < N && 0 <= c < j ==> matrix[r, c] == ChebCoefficient(r, c)
        invariant forall r, c :: 0 <= r < N && j < c < N ==> matrix[r, c] == 0.0
        invariant forall r :: 0 <= r < i ==> matrix[r, j] == ChebCoefficient(r, j)
        invariant forall r :: i <= r < N ==> matrix[r, j] == 0.0
      {
        var val := 0.0;
        if i > 0 {
          val := val + 4.0 * matrix[i - 1, j - 1];
        }
        val := val - (2.0 * matrix[i, j - 1] + matrix[i, j - 2]);
        ChebRecursion(i, j);
        matrix[i, j] := val;
      }
    }
  }

  method MonomialToBezier(N: nat) returns (matrix: array2<real>)
    ensures fresh(matrix) && matrix.Length0 == N && matrix.Length1 == N
    ensures forall i, j :: 0 <= i < N && 0 <= j < N ==> matrix[i, j] == BezierEntry(N - 1, i, j)
  {
    matrix := new real[N, N]((i, j) => 0.0);
    for j := 0 to N
      invariant forall r, c :: 0 <= r < N && 0 <= c < j ==> matrix[r, c] == BezierEntry(N - 1, r, c)
      invariant forall r, c :: 0 <= r < N && j <= c < N ==> matrix[r, c] == 0.0
    {
      for i := j to N
        invariant forall r, c :: 0 <= r < N && 0 <= c < j ==> matrix[r, c] == BezierEntry(N - 1, r, c)
        invariant forall r, c :: 0 <= r < N && j < c < N ==> matrix[r, c] == 0.0
        invariant forall r :: 0 <= r < i ==> matrix[r, j] == BezierEntry(N - 1, r, j)
        invariant forall r :: i <= r < N ==> matrix[r, j] == 0.0
      {
        var div1 := Binom(i, i - j);
        var div2 := Binom(N - 1, j);
        EntryIsQuotient(N - 1, i, j);
        matrix[i, j] := div1 as real / div2 as real;
      }
    }
  }

  function VectorOf(c: seq<real>): nat -> real {
    (i: nat) => if i < |c| then c[i] else 0.0
  }

  method MatrixProduct(a: array2<real>, b: array2<real>, ghost n: nat) returns (p: array2<real>)
    requires a.Length0 == a.Length1 == b.Length0 == b.Length1 == n + 1
    requires forall i, j :: 0 <= i <= n && 0 <= j <= n ==>
             a[i, j] == BezierEntry(n, i, j) && b[i, j] == ChebCoefficient(i, j)
    ensures fresh(p) && p.Length0 == p.Length1 == n + 1
    ensures forall i, j :: 0 <= i <= n && 0 <= j <= n ==> p[i, j] == Product(BezierMatrix(n), ChebMatrix(), n + 1)(i, j)
  {
    hide BezierEntry, ChebCoefficient;
    var N := a.Length0;
    p := new real[N, N];
    for i := 0 to N
      invariant forall r, c :: 0 <= r < i && 0 <= c < N ==>
                p[r, c] == Product(BezierMatrix(n), ChebMatrix(), n + 1)(r, c)
    {
      for j := 0 to N
        invariant forall r, c :: 0 <= r < i && 0 <= c < N ==>
                  p[r, c] == Product(BezierMatrix(n), ChebMatrix(), n + 1)(r, c)
        invariant forall c :: 0 <= c < j ==> p[i, c] == Product(BezierMatrix(n), ChebMatrix(), n + 1)(i, c)
      {
        var sum := 0.0;
        for k := 0 to N
          invariant sum == Dot(Row(BezierMatrix(n), i), Column(ChebMatrix(), j), k)
        {
          sum := sum + a[i, k] * b[k, j];
        }
        p[i, j] := sum;
      }
    }
  }

  method MatrixTimesVector(p: array2<real>, c: seq<real>, ghost m: Matrix) returns (r: seq<real>)
    requires p.Length0 == p.Length1 == |c|
    requires forall i, j :: 0 <= i < |c| && 0 <= j < |c| ==> p[i, j] == m(i, j)
    ensures |r| == |c| && forall i :: 0 <= i < |c| ==> r[i] == Apply(m, VectorOf(c), |c|)(i)
  {
    r := [];
    for i := 0 to |c|
      invariant |r| == i && forall k :: 0 <= k < i ==> r[k] == Apply(m, VectorOf(c), |c|)(k)
    {
      var sum := 0.0;
      for j := 0 to |c|
        invariant sum == Dot(Row(m, i), VectorOf(c), j)
      {
        sum := sum + p[i, j] * c[j];
      }
      r := r + [sum];
    }
  }

  /** The control points of one segment: those of its Chebyshev expansion, but for the two ends, which are set to the
      ends of the approximated curve. */
  method SegmentPoles(degree: nat, cx: seq<real>, cy: seq<real>, cz: seq<real>, start: Point,
                      stop: Point)
    returns (cp: seq<Point>)
    requires degree >= 1 && |cx| == |cy| == |cz| == degree + 1
    ensures |cp| == degree + 1 && cp[0] == start && cp[degree] == stop
    ensures forall i :: 0 < i < degree ==>
              cp[i] == Point(ControlPoints(degree, VectorOf(cx))(i), ControlPoints(degree, VectorOf(cy))(i),
                             ControlPoints(degree, VectorOf(cz))(i))
  {
    var a := MonomialToBezier(degree + 1);
    var b := ChebToMonomial(degree + 1);
    var p := MatrixProduct(a, b, degree);
    ghost var m := Product(BezierMatrix(degree), ChebMatrix(), degree + 1);
    var cpx := MatrixTimesVector(p, cx, m);
    var cpy := MatrixTimesVector(p, cy, m);
    var cpz := MatrixTimesVector(p, cz, m);
    cp := [];
    for i := 0 to degree + 1
      invariant |cp| == i && forall k :: 0 <= k < i ==> cp[k] == Point(cpx[k], cpy[k], cpz[k])
    {
      cp := cp + [Point(cpx[i], cpy[i], cpz[i])];
    }
    cp := cp[0 := start];
    cp := cp[degree := stop];
  }

  // ----- what setting the ends does to the curve -----

  function WithEnds(f: nat -> real, n: nat, first: real, last: real): nat -> real {
    (i: nat) => if i == 0 then first else if i == n then last else f(i)
  }

  lemma {:induction false} DotWithEnds(f: nat -> real, g: nat -> real, n: nat, first: real, last: real, m: nat)
    requires 0 < n && m <= n + 1
    ensures Dot(WithEnds(f, n, first, last), g, m)
         == Dot(f, g, m) + (if m > 0 then (first - f(0)) * g(0) else 0.0)
             + (if m > n then (last - f(n)) * g(n) else 0.0)
    decreases m
  {
    if m > 0 {
      DotWithEnds(f, g, n, first, last, m - 1);
      if m == 1 {
        assert first * g(0) == f(0) * g(0) + (first - f(0)) * g(0);
      } else if m == n + 1 {
        assert last * g(n) == f(n) * g(n) + (last - f(n)) * g(n);
      }
    }
  }

  lemma {:induction false} PowOfOneAndZero(n: nat)
    ensures Pow(1.0, n) == 1.0 && Pow(0.0, n) == if n == 0 then 1.0 else 0.0
  {
    if n > 0 {
      PowOfOneAndZero(n - 1);
    }
  }

  lemma BernEnds(n: nat, x: real)
    requires n > 0
    ensures Bern(0, n, x) == Pow(1.0 - x, n) && Bern(n, n, x) == Pow(x, n)
  {
    ChooseSymmetric(n, n);
    assert Choose(n, 0) == 1;
  }

  /** A segment differs from its Chebyshev expansion by the moves of its two ends alone, each weighted with a power. */
  lemma SegmentCurve(n: nat, c: nat -> real, first: real, last: real, x: real)
    requires n >= 1
    ensures Dot(WithEnds(ControlPoints(n, c), n, first, last), BernVector(n, x), n + 1)
         == Dot(c, ChebVector(2.0 * x - 1.0), n + 1)
            + (first - ControlPoints(n, c)(0)) * Pow(1.0 - x, n) + (last - ControlPoints(n, c)(n)) * Pow(x, n)
  {
    hide ControlPoints;
    DotWithEnds(ControlPoints(n, c), BernVector(n, x), n, first, last, n + 1);
    ConversionKeepsPolynomial(n, c, x);
    BernEnds(n, x);
  }

  lemma {:induction false} DotOfUnit(f: nat -> real, g: nat -> real, k: nat, n: nat)
    requires k < n && g(k) == 1.0 && forall i: nat :: i < n && i != k ==> g(i) == 0.0
    ensures Dot(f, g, n) == f(k)
  {
    if n == k + 1 {
      DotZero(f, g, k);
    } else {
      DotOfUnit(f, g, k, n - 1);
    }
  }

  lemma BernAtEnds(i: nat, n: nat)
    requires i <= n
    ensures Bern(i, n, 0.0) == (if i == 0 then 1.0 else 0.0) && Bern(i, n, 1.0) == if i == n then 1.0 else 0.0
  {
    PowOfOneAndZero(i);
    PowOfOneAndZero(n - i);
    ChooseSymmetric(n, n);
    assert Choose(n, 0) == 1;
  }

  /** Each segment runs from the first to the last of its control points. */
  lemma SegmentMeetsEnds(n: nat, f: nat -> real)
    ensures Dot(f, BernVector(n, 0.0), n + 1) == f(0)
    ensures Dot(f, BernVector(n, 1.0), n + 1) == f(n)
  {
    hide Bern;
    forall i: nat | i <= n
      ensures BernVector(n, 0.0)(i) == (if i == 0 then 1.0 else 0.0)
              && BernVector(n, 1.0)(i) == if i == n then 1.0 else 0.0
    {
      BernAtEnds(i, n);
    }
    DotOfUnit(f, BernVector(n, 0.0), 0, n + 1);
    DotOfUnit(f, BernVector(n, 1.0), n, n + 1);
  }
}
