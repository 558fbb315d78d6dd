/** How flat a control polygon is, and when it has to be flat enough. */
module Flatness {
  import opened Bezier
  import opened Geometry
  import opened IntersectBSplines
  import opened Legs

  ghost predicate IsRoot(d: real, square: real) {
    d >= 0.0 && d * d == square
  }

  ghost predicate IsDistance(dist: (Point, Point) -> real) {
    forall p, q :: IsRoot(dist(p, q), SquareDistance(p, q))
  }

  function LengthOf(ps: seq<Point>, dist: (Point, Point) -> real): real {
    if |ps| < 2 then 0.0 else LengthOf(ps[..|ps| - 1], dist) + dist(ps[|ps| - 2], ps[|ps| - 1])
  }

  function ShapeOf(length: real, chord: real): Shape {
    if length == 0.0 && chord == 0.0 then Degenerate else if length <= 1.0005 * chord then Flat else Bent
  }

  /** The shape of a curve is told from the length of its polygon and the distance of its ends. */
  ghost predicate Measures(shape: Curve -> Shape, dist: (Point, Point) -> real) {
    IsDistance(dist) && forall c: Curve :: IsMeasured(shape, dist, c)
  }

  predicate IsMeasured(shape: Curve -> Shape, dist: (Point, Point) -> real, c: Curve) {
    shape(c) == ShapeOf(LengthOf(c.poles, dist), dist(c.poles[0], c.poles[|c.poles| - 1]))
  }

  lemma SquareIsPositive(x: real)
    ensures x * x >= 0.0
  {
    if x >= 0.0 {
      ProductNonNegative(x, x);
    } else {
      ProductNonNegative(-x, -x);
    }
  }

  lemma TimesIsPositive(k: real, x: real)
    requires k > 0.0 && x > 0.0
    ensures Times(k, x) > 0.0
  {
    ProductPositive(k, x);
  }

  /** A square is zero just for zero. */
  lemma TimesItself(x: real)
    ensures Times(x, x) >= 0.0 && (Times(x, x) > 0.0 <==> x != 0.0)
  {
    if x != 0.0 {
      TimesIsPositive(if x < 0.0 then -x else x, if x < 0.0 then -x else x);
      assert Times(-x, -x) == Times(x, x);
      hide Times;
    }
  }

  lemma RootIsPositive(d: real, square: real)
    requires IsRoot(d, square)
    ensures d > 0.0 <==> square > 0.0
  {
    TimesItself(d);
    assert Times(d, d) == square;
    hide Times;
  }

  lemma DistanceOfSame(dist: (Point, Point) -> real, p: Point, q: Point)
    requires IsDistance(dist)
    ensures dist(p, q) >= 0.0 && (dist(p, q) == 0.0 <==> p == q)
  {
    assert IsRoot(dist(p, q), SquareDistance(p, q));
    RootIsPositive(dist(p, q), SquareDistance(p, q));
    var x, y, z := p.x - q.x, p.y - q.y, p.z - q.z;
    TimesItself(x);
    TimesItself(y);
    TimesItself(z);
    assert SquareDistance(p, q) == Times(x, x) + Times(y, y) + Times(z, z);
    hide Times, SquareDistance;
  }

  lemma {:induction false} LengthIsZero(ps: seq<Point>, dist: (Point, Point) -> real)
    requires IsDistance(dist)
    ensures LengthOf(ps, dist) >= 0.0
    ensures LengthOf(ps, dist) == 0.0 <==> forall i :: 0 <= i < |ps| ==> ps[i] == ps[0]
  {
    var n := |ps| - 1;
    if n > 0 {
      LengthIsZero(ps[..n], dist);
      DistanceOfSame(dist, ps[n - 1], ps[n]);
      assert ps[..n][n - 1] == ps[n - 1] && ps[..n][0] == ps[0];
      hide LengthOf, IsDistance;
      if LengthOf(ps[..n], dist) == 0.0 && ps[n - 1] == ps[n] {
        forall i | 0 <= i < |ps|
          ensures ps[i] == ps[0]
        {
          assert i < n ==> ps[i] == ps[..n][i];
        }
      }
    }
  }

  /** Measured like that, the curves without a flatness are the points. */
  lemma MeasuringSeesPoints(shape: Curve -> Shape, dist: (Point, Point) -> real)
    requires Measures(shape, dist)
    ensures SeesPoints(shape)
  {
    hide LengthOf;
    forall c: Curve
      ensures shape(c).Degenerate? <==> IsPoint(c)
    {
      assert IsMeasured(shape, dist, c);
      LengthIsZero(c.poles, dist);
      DistanceOfSame(dist, c.poles[0], c.poles[|c.poles| - 1]);
    }
  }

  // Squares and products.

  function Dot(p: Point, q: Point): real {
    p.x * q.x + p.y * q.y + p.z * q.z
  }

  function Minus(p: Point, q: Point): Point {
    Point(p.x - q.x, p.y - q.y, p.z - q.z)
  }

  lemma CauchySchwarz(p: Point, q: Point)
    ensures Dot(p, q) * Dot(p, q) <= Dot(p, p) * Dot(q, q)
  {
    var a, b, c := p.x * q.y - p.y * q.x, p.x * q.z - p.z * q.x, p.y * q.z - p.z * q.y;
    SquareIsPositive(a);
    SquareIsPositive(b);
    SquareIsPositive(c);
    Lagrange(p.x, p.y, p.z, q.x, q.y, q.z);
  }

  lemma Lagrange(a: real, b: real, c: real, x: real, y: real, z: real)
    ensures (a * a + b * b + c * c) * (x * x + y * y + z * z) - (a * x + b * y + c * z) * (a * x + b * y + c * z)
            == (a * y - b * x) * (a * y - b * x) + (a * z - c * x) * (a * z - c * x) + (b * z - c * y) * (b * z - c * y)
  {
  }

  lemma SquareGrows(a: real, b: real)
    requires a > b >= 0.0
    ensures a * a > b * b
  {
    ProductPositive(a - b, a + b);
    assert (a - b) * (a + b) == a * a - b * b;
  }

  lemma LessBySquares(a: real, b: real)
    requires b >= 0.0 && a * a <= b * b
    ensures a <= b
  {
    if a > b {
      SquareGrows(a, b);
    }
  }

  lemma ProductOfSquares(a: real, b: real, s: real, t: real)
    requires a * a == s && b * b == t
    ensures (a * b) * (a * b) == s * t
  {
    assert (a * b) * (a * b) == (a * a) * (b * b);
  }

  lemma Monotone(a: real, b: real, k: real)
    requires a <= b && k >= 0.0
    ensures k * a <= k * b
  {
    ProductNonNegative(k, b - a);
    assert k * (b - a) == k * b - k * a;
  }

  lemma StrictlyMonotone(a: real, b: real, k: real)
    requires a < b && k > 0.0
    ensures k * a < k * b
  {
    ProductPositive(k, b - a);
    assert k * (b - a) == k * b - k * a;
  }

  /** |p . q| is at most the product of the lengths. */
  lemma DotBound(p: Point, q: Point, a: real, b: real)
    requires IsRoot(a, Dot(p, p)) && b >= 0.0 && Dot(q, q) <= b * b
    ensures Dot(p, q) <= a * b
  {
    CauchySchwarz(p, q);
    SquareIsPositive(a);
    Monotone(Dot(q, q), b * b, Dot(p, p));
    assert (a * b) * (a * b) == Dot(p, p) * (b * b) by {
      ProductOfSquares(a, b, Dot(p, p), b * b);
    }
    ProductNonNegative(a, b);
    hide Dot;
    LessBySquares(Dot(p, q), a * b);
  }

  /** A vector is not much longer than one that is close to it. */
  lemma NotMuchLonger(p: Point, c: Point, a: real, b: real, r: real)
    requires IsRoot(a, Dot(p, p)) && IsRoot(b, Dot(c, c)) && r >= 0.0
    requires Dot(Minus(p, c), Minus(p, c)) <= r * r
    ensures a <= b + r
  {
    var e := Minus(p, c);
    DotBound(c, e, b, r);
    SquareOfSum(p, c);
    assert (b + r) * (b + r) == b * b + 2.0 * (b * r) + r * r;
    hide Dot, Minus;
    LessBySquares(a, b + r);
  }

  lemma SquareOfSum(p: Point, c: Point)
    ensures Dot(p, p) == Dot(c, c) + 2.0 * Dot(c, Minus(p, c)) + Dot(Minus(p, c), Minus(p, c))
  {
    OneSquare(p.x, c.x);
    OneSquare(p.y, c.y);
    OneSquare(p.z, c.z);
  }

  lemma OneSquare(p: real, c: real)
    ensures p * p == c * c + 2.0 * (c * (p - c)) + (p - c) * (p - c)
  {
  }

  lemma SquareOfBounded(x: real, b: real)
    requires -b <= x <= b
    ensures x * x <= b * b
  {
    ProductNonNegative(b - x, b + x);
    assert (b - x) * (b + x) == b * b - x * x;
  }

  lemma SmallVector(e: Point, b: real)
    requires -b <= e.x <= b && -b <= e.y <= b && -b <= e.z <= b
    ensures Dot(e, e) <= (2.0 * b) * (2.0 * b)
  {
    SquareOfBounded(e.x, b);
    SquareOfBounded(e.y, b);
    SquareOfBounded(e.z, b);
    SquareIsPositive(b);
    assert (2.0 * b) * (2.0 * b) == 4.0 * (b * b);
  }

  // The legs of a polygon that advances in a direction and bends little.

  ghost predicate AtLeast(p: seq<real>, m: real) {
    forall i :: 0 <= i < |p| ==> m <= p[i]
  }

  ghost predicate Bounded(p: seq<real>, b: real) {
    forall i :: 0 <= i < |p| ==> -b <= p[i] <= b
  }

  function Zeros(n: nat): (r: seq<real>)
    ensures |r| == n && forall i :: 0 <= i < n ==> r[i] == 0.0
  {
    seq(n, i => 0.0)
  }

  /** How far the points are in the direction w. */
  function Along(ps: seq<Point>, w: Point): (r: seq<real>)
    ensures |r| == |ps|
  {
    Combined(Combined(Combined(Zeros(|ps|), Xs(ps), w.x), Ys(ps), w.y), Zs(ps), w.z)
  }

  lemma AlongIsDot(ps: seq<Point>, w: Point, i: nat)
    requires i < |ps|
    ensures Along(ps, w)[i] == Dot(ps[i], w)
  {
  }

  function Seconds(p: seq<real>): (r: seq<real>)
    ensures |r| == if |p| < 2 then 0 else |p| - 2
  {
    if |p| < 2 then [] else Differences(Differences(p))
  }

  ghost predicate Bends(ps: seq<Point>, b: real) {
    Bounded(Seconds(Xs(ps)), b) && Bounded(Seconds(Ys(ps)), b) && Bounded(Seconds(Zs(ps)), b)
  }

  /** k times x, by adding up. */
  function Multiple(k: nat, x: real): real {
    if k == 0 then 0.0 else Multiple(k - 1, x) + x
  }

  lemma {:induction false} MultipleIsProduct(k: nat, x: real)
    ensures Multiple(k, x) == k as real * x
  {
    if k > 0 {
      MultipleIsProduct(k - 1, x);
      OneMore((k - 1) as real, x);
    }
  }

  lemma OneMore(k: real, x: real)
    ensures (k + 1.0) * x == k * x + x
  {
  }

  lemma {:induction false} MultipleGrows(k: nat, l: nat, x: real)
    requires k <= l && x >= 0.0
    ensures 0.0 <= Multiple(k, x) <= Multiple(l, x)
    decreases l
  {
    if k < l {
      MultipleGrows(k, l - 1, x);
    } else if k > 0 {
      MultipleGrows(k - 1, k - 1, x);
    }
  }

  lemma {:induction false} NeighboursClose(p: seq<real>, b: real, i: nat, j: nat)
    requires p != [] && Bounded(Differences(p), b) && i <= j < |p|
    ensures -Multiple(j - i, b) <= p[j] - p[i] <= Multiple(j - i, b)
    decreases j
  {
    hide Differences;
    if i < j {
      NeighboursClose(p, b, i, j - 1);
      var d := Differences(p)[j - 1];
      assert -b <= d <= b && d == p[j - 1 + 1] - p[j - 1];
    }
  }

  /** Any two legs differ by no more than this. */
  lemma LegsClose(p: seq<real>, b: real, i: nat, j: nat)
    requires |p| >= 2 && Bounded(Seconds(p), b) && b >= 0.0 && i < |p| - 1 && j < |p| - 1
    ensures var l, d := Differences(p), Multiple(|p|, b); -d <= l[j] - l[i] <= d
  {
    hide Differences, Bounded, Multiple;
    var lo, hi := if i < j then i else j, if i < j then j else i;
    NeighboursClose(Differences(p), b, lo, hi);
    MultipleGrows(hi - lo, |p|, b);
  }

  ghost predicate LegsNear(p: seq<real>, v: real, d: real)
    requires p != []
  {
    forall i :: 0 <= i < |p| - 1 ==> -d <= v - Differences(p)[i] <= d
  }

  /** The sum of the first k legs is close to k times any value that is close to all of them. */
  lemma {:induction false} NearMean(p: seq<real>, v: real, d: real, k: nat)
    requires k < |p| && LegsNear(p, v, d)
    ensures -Multiple(k, d) <= Multiple(k, v) - (p[k] - p[0]) <= Multiple(k, d)
  {
    hide Differences;
    if k > 0 {
      NearMean(p, v, d, k - 1);
      var l := Differences(p)[k - 1];
      assert -d <= v - l <= d && l == p[k - 1 + 1] - p[k - 1];
    }
  }

  lemma MeanLeg(p: seq<real>, b: real, i: nat)
    requires |p| >= 2 && Bounded(Seconds(p), b) && b >= 0.0 && i < |p| - 1
    ensures var n, d := |p| - 1, Multiple(|p| - 1, Multiple(|p|, b));
            -d <= Multiple(n, p[i + 1] - p[i]) - (p[n] - p[0]) <= d
  {
    hide Differences, Bounded, Multiple, Seconds;
    var v := Differences(p)[i];
    forall j | 0 <= j < |p| - 1
      ensures -Multiple(|p|, b) <= v - Differences(p)[j] <= Multiple(|p|, b)
    {
      LegsClose(p, b, j, i);
    }
    NearMean(p, v, Multiple(|p|, b), |p| - 1);
  }

  lemma {:induction false} LengthBound(ps: seq<Point>, dist: (Point, Point) -> real, b: real)
    requires |ps| >= 1 && forall i :: 0 < i < |ps| ==> dist(ps[i - 1], ps[i]) <= b
    ensures LengthOf(ps, dist) <= Multiple(|ps| - 1, b)
  {
    var k := |ps| - 1;
    if k > 0 {
      LengthBound(ps[..k], dist, b);
      assert ps[k - 1] == ps[|ps| - 2];
    }
  }

  lemma {:induction false} AdvanceOfAll(p: seq<real>, m: real, k: nat)
    requires k < |p| && AtLeast(Differences(p), m)
    ensures Multiple(k, m) <= p[k] - p[0]
  {
    hide Differences;
    if k > 0 {
      AdvanceOfAll(p, m, k - 1);
      var l := Differences(p)[k - 1];
      assert m <= l && l == p[k - 1 + 1] - p[k - 1];
    }
  }

  /** An upper bound for the length of w. */
  function Size(w: Point): real {
    Distance(w.x) + Distance(w.y) + Distance(w.z)
  }

  function Distance(x: real): real {
    if x < 0.0 then -x else x
  }

  lemma SizeBound(w: Point)
    ensures Size(w) >= 0.0 && Dot(w, w) <= Size(w) * Size(w)
  {
    var a, b, c := Distance(w.x), Distance(w.y), Distance(w.z);
    ProductNonNegative(a, b);
    ProductNonNegative(a, c);
    ProductNonNegative(b, c);
    assert w.x * w.x == a * a && w.y * w.y == b * b && w.z * w.z == c * c;
    assert (a + b + c) * (a + b + c) == a * a + b * b + c * c + 2.0 * (a * b) + 2.0 * (a * c) + 2.0 * (b * c);
  }

  lemma DotOfDifference(p: Point, q: Point, w: Point)
    ensures Dot(Minus(q, p), w) == Dot(q, w) - Dot(p, w)
    ensures Dot(Minus(q, p), Minus(q, p)) == SquareDistance(p, q)
  {
  }

  /** The chord, multiplied by the size of the direction, is at least as long as the advance. */
  lemma ChordBound(ps: seq<Point>, dist: (Point, Point) -> real, w: Point, m: real)
    requires IsDistance(dist) && |ps| >= 1 && AtLeast(Differences(Along(ps, w)), m)
    ensures Multiple(|ps| - 1, m) <= dist(ps[0], ps[|ps| - 1]) * Size(w)
  {
    hide Along, Multiple, Differences, Size, AtLeast;
    var n := |ps| - 1;
    AdvanceOfAll(Along(ps, w), m, n);
    AlongIsDot(ps, w, 0);
    AlongIsDot(ps, w, n);
    SizeBound(w);
    DotOfDifference(ps[0], ps[n], w);
    assert IsRoot(dist(ps[0], ps[n]), SquareDistance(ps[0], ps[n]));
    DotBound(Minus(ps[n], ps[0]), w, dist(ps[0], ps[n]), Size(w));
  }

  function Times3(k: real, p: Point): Point {
    Point(k * p.x, k * p.y, k * p.z)
  }

  lemma RootOfScaled(k: real, p: Point, a: real)
    requires k >= 0.0 && IsRoot(a, Dot(p, p))
    ensures IsRoot(k * a, Dot(Times3(k, p), Times3(k, p)))
  {
    ProductNonNegative(k, a);
    ProductOfSquares(k, a, k * k, Dot(p, p));
    ProductOfSquares(k, p.x, k * k, p.x * p.x);
    ProductOfSquares(k, p.y, k * k, p.y * p.y);
    ProductOfSquares(k, p.z, k * k, p.z * p.z);
    Distribute(k * k, p.x * p.x, p.y * p.y, p.z * p.z);
  }

  lemma Distribute(k: real, a: real, b: real, c: real)
    ensures k * (a + b + c) == k * a + k * b + k * c
  {
  }

  /** How far n times a leg can be from the chord, in each coordinate. */
  function Deviation(n: nat, b: real): real {
    Multiple(n, Multiple(n + 1, b))
  }

  ghost predicate WithinBox(e: Point, b: real) {
    -b <= e.x <= b && -b <= e.y <= b && -b <= e.z <= b
  }

  lemma LegDeviation(ps: seq<Point>, b: real, i: nat)
    requires |ps| >= 2 && Bends(ps, b) && b >= 0.0 && i < |ps| - 1
    ensures var n := |ps| - 1;
            WithinBox(Minus(Times3(n as real, Minus(ps[i + 1], ps[i])), Minus(ps[n], ps[0])), Deviation(n, b))
  {
    hide Multiple, Differences, Seconds, Bounded;
    var n := |ps| - 1;
    var leg := Minus(ps[i + 1], ps[i]);
    MeanLeg(Xs(ps), b, i);
    MeanLeg(Ys(ps), b, i);
    MeanLeg(Zs(ps), b, i);
    MultipleIsProduct(n, leg.x);
    MultipleIsProduct(n, leg.y);
    MultipleIsProduct(n, leg.z);
  }

  lemma LegBound(ps: seq<Point>, dist: (Point, Point) -> real, b: real, i: nat)
    requires IsDistance(dist) && |ps| >= 2 && Bends(ps, b) && b >= 0.0 && i < |ps| - 1
    ensures var n := |ps| - 1;
            n as real * dist(ps[i], ps[i + 1]) <= dist(ps[0], ps[n]) + 2.0 * Deviation(n, b)
  {
    hide Multiple, Bends, Dot, SquareDistance, Minus, Times3;
    var n := |ps| - 1;
    var leg, chord := Minus(ps[i + 1], ps[i]), Minus(ps[n], ps[0]);
    var far := Times3(n as real, leg);
    LegDeviation(ps, b, i);
    SmallVector(Minus(far, chord), Deviation(n, b));
    DotOfDifference(ps[i], ps[i + 1], leg);
    DotOfDifference(ps[0], ps[n], chord);
    assert IsRoot(dist(ps[i], ps[i + 1]), SquareDistance(ps[i], ps[i + 1]));
    assert IsRoot(dist(ps[0], ps[n]), SquareDistance(ps[0], ps[n]));
    RootOfScaled(n as real, leg, dist(ps[i], ps[i + 1]));
    MultipleGrows(0, n + 1, b);
    MultipleGrows(0, n, Multiple(n + 1, b));
    NotMuchLonger(far, chord, n as real * dist(ps[i], ps[i + 1]), dist(ps[0], ps[n]), 2.0 * Deviation(n, b));
  }

  lemma Quotient(n: real, d: real, t: real)
    requires n > 0.0 && n * d <= t
    ensures d <= t / n && n * (t / n) == t
  {
    var q := t / n;
    assert n * q == t;
    if d > q {
      StrictlyMonotone(q, d, n);
    }
  }

  lemma PolygonBound(ps: seq<Point>, dist: (Point, Point) -> real, b: real)
    requires IsDistance(dist) && |ps| >= 2 && Bends(ps, b) && b >= 0.0
    ensures LengthOf(ps, dist) <= dist(ps[0], ps[|ps| - 1]) + 2.0 * Deviation(|ps| - 1, b)
  {
    hide Bends, Deviation, IsDistance, LengthOf, Multiple;
    var n := |ps| - 1;
    var t := dist(ps[0], ps[n]) + 2.0 * Deviation(n, b);
    forall i | 0 < i < |ps|
      ensures dist(ps[i - 1], ps[i]) <= t / n as real
    {
      LegBound(ps, dist, b, i - 1);
      Quotient(n as real, dist(ps[i - 1], ps[i]), t);
    }
    LegBound(ps, dist, b, 0);
    Quotient(n as real, dist(ps[0], ps[1]), t);
    LengthBound(ps, dist, t / n as real);
    MultipleIsProduct(n, t / n as real);
  }

  /** The chord is so long that the deviation does not matter. */
  lemma DeviationIsSmall(n: nat, b: real, w: real, m: real, chord: real)
    requires n > 0 && m > 0.0 && b >= 0.0 && w >= 0.0 && chord >= 0.0 && Multiple(n, m) <= chord * w
    requires 4000.0 * Multiple(n + 1, b) * w <= m
    ensures 4000.0 * Deviation(n, b) <= chord && chord > 0.0
  {
    hide Multiple;
    var d := Multiple(n + 1, b);
    MultipleIsProduct(n, m);
    MultipleIsProduct(n, d);
    Spacious(n as real, d, w, m, chord);
  }

  lemma Spacious(n: real, d: real, w: real, m: real, chord: real)
    requires n > 0.0 && m > 0.0 && w >= 0.0 && chord >= 0.0 && n * m <= chord * w && 4000.0 * d * w <= m
    ensures 4000.0 * (n * d) <= chord && chord > 0.0
  {
    ProductPositive(n, m);
    assert w > 0.0 && chord > 0.0;
    Monotone(4000.0 * d * w, m, n);
    var e := 4000.0 * (n * d);
    assert n * (4000.0 * d * w) == e * w;
    if e > chord {
      StrictlyMonotone(chord, e, w);
    }
  }

  /** A polygon that advances and bends little in comparison is flat. */
  lemma FlatPolygon(ps: seq<Point>, dist: (Point, Point) -> real, w: Point, m: real, b: real)
    requires IsDistance(dist) && |ps| >= 2 && Bends(ps, b) && b >= 0.0 && m > 0.0
    requires AtLeast(Differences(Along(ps, w)), m) && 4000.0 * Multiple(|ps|, b) * Size(w) <= m
    ensures ShapeOf(LengthOf(ps, dist), dist(ps[0], ps[|ps| - 1])) == Flat
  {
    hide Bends, Deviation, LengthOf, Multiple, AtLeast, Along, Size;
    var n := |ps| - 1;
    assert IsRoot(dist(ps[0], ps[n]), SquareDistance(ps[0], ps[n]));
    hide IsDistance;
    ChordBound(ps, dist, w, m);
    SizeBound(w);
    DeviationIsSmall(n, b, Size(w), m, dist(ps[0], ps[n]));
    PolygonBound(ps, dist, b);
  }
}
