/** What the approximating curve is on each of its segments. */
module ApproximationSpans {
  import opened Bernstein
  import opened BernsteinForm
  import opened Binomial
  import opened ChebyshevToBezier
  import opened Concatenation
  import opened FunctionApproximation
  import opened Geometry
  import opened SmoothJoin
  import opened Sums

  datatype Axis = X | Y | Z

  function Coordinate(axis: Axis, p: Point): real {
    match axis
    case X => p.x
    case Y => p.y
    case Z => p.z
  }

  function Coefficients(axis: Axis, e: Expansion): seq<real> {
    match axis
    case X => e.cx
    case Y => e.cy
    case Z => e.cz
  }

  function Selector(axis: Axis): (Point, real) -> real {
    (p: Point, w: real) => Coordinate(axis, p)
  }

  /** The k-th control point that a segment is converted to, before its ends are set. */
  function ControlOf(s: ChebSegment, axis: Axis, degree: nat, k: nat): real {
    ControlPoints(degree, VectorOf(Coefficients(axis, s.expansion)))(k)
  }

  /** A joint lies on the line between the inner control points around it. */
  function JointBetween(before: ChebSegment, s: ChebSegment, axis: Axis, degree: nat): real
    requires degree > 0
  {
    Mix(Ratio(s.umin, before.umin, s.umax), ControlOf(before, axis, degree, degree - 1), ControlOf(s, axis, degree, 1))
  }

  /** Where the approximation begins segment i, or, for i == |segments|, where it ends. */
  function JointOf(func: real -> Point, segments: seq<ChebSegment>, i: nat, axis: Axis, degree: nat): real
    requires degree > 0 && segments != [] && i <= |segments|
  {
    if i == 0 then Coordinate(axis, func(segments[0].umin))
    else if i == |segments| then Coordinate(axis, func(segments[i - 1].umax))
    else JointBetween(segments[i - 1], segments[i], axis, degree)
  }

  /** The Chebyshev sum, and what moving its ends to first and last adds to it. */
  function MovedSum(c: nat -> real, degree: nat, first: real, last: real, t: real): real {
    Dot(c, ChebVector(2.0 * t - 1.0), degree + 1)
    + (first - ControlPoints(degree, c)(0)) * Pow(1.0 - t, degree)
    + (last - ControlPoints(degree, c)(degree)) * Pow(t, degree)
  }

  /** The expansion of a segment with its ends moved. */
  function MovedExpansion(s: ChebSegment, axis: Axis, degree: nat, first: real, last: real, x: real): real
    requires s.umin < s.umax
  {
    MovedSum(VectorOf(Coefficients(axis, s.expansion)), degree, first, last, (x - s.umin) / (s.umax - s.umin))
  }

  lemma SumOfMovedControls(c: nat -> real, degree: nat, first: real, last: real, t: real)
    requires degree >= 1
    ensures Dot(ChebyshevToBezier.WithEnds(ControlPoints(degree, c), degree, first, last), BernVector(degree, t),
                degree + 1)
            == MovedSum(c, degree, first, last, t)
  {
    hide ControlPoints, Dot, Pow, ChebyshevToBezier.WithEnds;
    SegmentCurve(degree, c, first, last, t);
  }

  lemma PoleOfSpline(func: real -> Point, degree: nat, s: ChebSegment, axis: Axis, m: nat)
    requires degree >= 1 && |s.expansion.cx| == |s.expansion.cy| == |s.expansion.cz| == degree + 1 && m <= degree
    ensures var q := Controls(SegmentSpline(func, degree, s), Selector(axis));
            && |q| == degree + 1
            && q[m] == if m == 0 then Coordinate(axis, func(s.umin))
                       else if m == degree then Coordinate(axis, func(s.umax)) else ControlOf(s, axis, degree, m)
  {
    hide ControlPoints;
  }

  lemma RatioAtEnds(a: real, b: real, x: real, y: real)
    requires a < b
    ensures Mix(Ratio(a, a, b), x, y) == x && Mix(Ratio(b, a, b), x, y) == y
  {
    assert (b - a) / (b - a) == 1.0;
  }

  ghost predicate AreSplines(cs: seq<Curve>, func: real -> Point, degree: nat, segments: seq<ChebSegment>) {
    && degree >= 2 && Sized(segments, degree) && cs == SegmentSplines(func, degree, segments)
    && AreSegments(cs, degree) && (forall i :: 0 <= i < |segments| ==> segments[i].umin < segments[i].umax)
    && (forall i {:trigger segments[i]} :: 0 < i < |segments| ==> segments[i - 1].umax == segments[i].umin)
  }

  lemma SmoothedFirst(cs: seq<Curve>, func: real -> Point, degree: nat, segments: seq<ChebSegment>, i: nat, axis: Axis)
    requires AreSplines(cs, func, degree, segments) && i < |segments|
    ensures Smoothed(cs, i, degree, Selector(axis))[0] == JointOf(func, segments, i, axis, degree)
  {
    hide ControlPoints, SegmentSpline, Controls, Mix, Ratio, ControlOf, Coordinate, Selector;
    var f, seg := Selector(axis), segments[i];
    SmoothedIs(cs, i, degree, f);
    SegmentNeighbours(cs, degree, i);
    PoleOfSpline(func, degree, seg, axis, 0);
    PoleOfSpline(func, degree, seg, axis, 1);
    KnotsOfSpline(cs, func, degree, segments, i);
    var rows := Rows(cs, degree, f);
    if i > 0 {
      KnotsOfSpline(cs, func, degree, segments, i - 1);
      PoleOfSpline(func, degree, segments[i - 1], axis, degree - 1);
    } else {
      RatioAtEnds(seg.umin, seg.umax, rows[i][0], rows[i][1]);
    }
  }

  lemma SmoothedLast(cs: seq<Curve>, func: real -> Point, degree: nat, segments: seq<ChebSegment>, i: nat, axis: Axis)
    requires AreSplines(cs, func, degree, segments) && i < |segments|
    ensures Smoothed(cs, i, degree, Selector(axis))[degree] == JointOf(func, segments, i + 1, axis, degree)
  {
    hide ControlPoints, SegmentSpline, Controls, Mix, Ratio, ControlOf, Coordinate, Selector;
    var f, seg := Selector(axis), segments[i];
    SmoothedIs(cs, i, degree, f);
    SegmentNeighbours(cs, degree, i);
    PoleOfSpline(func, degree, seg, axis, degree - 1);
    PoleOfSpline(func, degree, seg, axis, degree);
    KnotsOfSpline(cs, func, degree, segments, i);
    var rows := Rows(cs, degree, f);
    if i + 1 < |segments| {
      KnotsOfSpline(cs, func, degree, segments, i + 1);
      PoleOfSpline(func, degree, segments[i + 1], axis, 1);
      assert segments[i + 1 - 1].umax == segments[i + 1].umin;
    } else {
      RatioAtEnds(seg.umin, seg.umax, rows[i][degree - 1], rows[i][degree]);
    }
  }

  /** The smoothed segment: the inner control points are those of the conversion, and the ends are the joints. */
  lemma SmoothedPoles(cs: seq<Curve>, func: real -> Point, degree: nat, segments: seq<ChebSegment>, i: nat, axis: Axis,
                      m: nat)
    requires AreSplines(cs, func, degree, segments) && i < |segments| && m <= degree
    ensures Smoothed(cs, i, degree, Selector(axis))[m]
            == if m == 0 then JointOf(func, segments, i, axis, degree)
               else if m == degree then JointOf(func, segments, i + 1, axis, degree)
               else ControlOf(segments[i], axis, degree, m)
  {
    if m == 0 {
      SmoothedFirst(cs, func, degree, segments, i, axis);
    } else if m == degree {
      SmoothedLast(cs, func, degree, segments, i, axis);
    } else {
      hide SegmentSpline, Controls, ControlOf, Smoothed, Selector;
      SmoothedInside(cs, i, degree, Selector(axis));
      KnotsOfSpline(cs, func, degree, segments, i);
      PoleOfSpline(func, degree, segments[i], axis, m);
    }
  }

  lemma KnotsOfSpline(cs: seq<Curve>, func: real -> Point, degree: nat, segments: seq<ChebSegment>, i: nat)
    requires AreSplines(cs, func, degree, segments) && i < |segments|
    ensures |cs| == |segments| && |cs[i].knots| == 2 && cs[i].knots[0] == segments[i].umin
            && cs[i].knots[1] == segments[i].umax
    ensures cs[i] == SegmentSpline(func, degree, segments[i])
    ensures var e := segments[i].expansion; |e.cx| == |e.cy| == |e.cz| == degree + 1
  {
    hide Poles;
  }

  /** The Bernstein sum of converted control points with other ends. */
  lemma SumOfMoved(q: seq<real>, s: ChebSegment, axis: Axis, degree: nat, first: real, last: real, x: real)
    requires degree >= 1 && |q| == degree + 1 && s.umin < s.umax
    requires forall m :: 0 <= m <= degree ==>
               q[m] == if m == 0 then first else if m == degree then last else ControlOf(s, axis, degree, m)
    ensures Dot(VectorOf(q), BernVector(degree, (x - s.umin) / (s.umax - s.umin)), degree + 1)
            == MovedExpansion(s, axis, degree, first, last, x)
  {
    hide ControlPoints, Dot, MovedSum;
    var t, c := (x - s.umin) / (s.umax - s.umin), VectorOf(Coefficients(axis, s.expansion));
    var moved := ChebyshevToBezier.WithEnds(ControlPoints(degree, c), degree, first, last);
    DotEq(VectorOf(q), moved, BernVector(degree, t), BernVector(degree, t), degree + 1);
    SumOfMovedControls(c, degree, first, last, t);
  }

  /** On every segment the joined curve is the Chebyshev sum of that segment, with its ends moved to the joints. */
  lemma JoinedIsMovedExpansion(cs: seq<Curve>, func: real -> Point, degree: nat, segments: seq<ChebSegment>, i: nat,
                               axis: Axis, x: real)
    requires AreSplines(cs, func, degree, segments) && i < |segments|
    ensures AllWellFormed(cs) && HasSpan(Joined(cs, degree, true), degree, SpanIndex(cs, i, degree))
    ensures SpanValue(Joined(cs, degree, true), degree, Selector(axis), SpanIndex(cs, i, degree), x)
            == MovedExpansion(segments[i], axis, degree, JointOf(func, segments, i, axis, degree),
                              JointOf(func, segments, i + 1, axis, degree), x)
  {
    hide *;
    IsSplines(cs, func, degree, segments);
    var s, seg := Smoothed(cs, i, degree, Selector(axis)), segments[i];
    KnotsOfSpline(cs, func, degree, segments, i);
    SmoothSpan(cs, i, degree, Selector(axis), x);
    DeBoorIsBernstein(seg.umin, seg.umax, s, degree, x);
    forall m | 0 <= m <= degree
      ensures s[m] == if m == 0 then JointOf(func, segments, i, axis, degree)
                      else if m == degree then JointOf(func, segments, i + 1, axis, degree)
                      else ControlOf(seg, axis, degree, m)
    {
      SmoothedPoles(cs, func, degree, segments, i, axis, m);
    }
    SumOfMoved(s, seg, axis, degree, JointOf(func, segments, i, axis, degree),
               JointOf(func, segments, i + 1, axis, degree), x);
  }

  lemma IsSplines(cs: seq<Curve>, func: real -> Point, degree: nat, segments: seq<ChebSegment>)
    requires AreSplines(cs, func, degree, segments)
    ensures degree >= 2 && AreSegments(cs, degree) && |cs| == |segments|
    ensures forall i :: 0 <= i < |segments| ==> segments[i].umin < segments[i].umax
  {
  }

  lemma JoinedSingle(c: Curve, degree: nat)
    requires c.WellFormed() && degree > 0
    ensures Joined([c], degree, true) == c
  {
    var s := Start([c], 1, degree, true);
    assert Start([c], 0, degree, true) == Curve([], [], [], []);
    assert s.knots + [c.LastParameter()] == c.knots;
    assert s.mults + [c.mults[|c.mults| - 1]] == c.mults;
    assert s.poles + [c.poles[|c.poles| - 1]] == c.poles;
    assert s.weights + [c.weights[|c.weights| - 1]] == c.weights;
  }

  /** The approximation of a function, segment by segment. */
  lemma ApproximationOnSegment(func: real -> Point, expand: Expand, umin: real, umax: real, degree: nat, tol: real,
                               maxDepth: int, i: nat, axis: Axis, x: real)
    requires degree >= 2 && HasDegree(expand, degree) && umin < umax
    requires i < |ApproxSegment(expand, umin, umax, 1, maxDepth, tol)|
    ensures var segments := ApproxSegment(expand, umin, umax, 1, maxDepth, tol);
            && Sized(segments, degree) && segments[i].umin < segments[i].umax
            && var splines := SegmentSplines(func, degree, segments);
               var r := if |splines| == 1 then splines[0] else Joined(splines, degree, true);
               && AreSegments(splines, degree) && HasSpan(r, degree, SpanIndex(splines, i, degree))
               && SpanValue(r, degree, Selector(axis), SpanIndex(splines, i, degree), x)
                  == MovedExpansion(segments[i], axis, degree, JointOf(func, segments, i, axis, degree),
                                    JointOf(func, segments, i + 1, axis, degree), x)
  {
    hide ApproxSegment, HasDegree, Sized, SegmentSpline, SpanValue, HasSpan, SpanIndex, MovedExpansion, JointOf,
        Joined, NonRational;
    var segments := ApproxSegment(expand, umin, umax, 1, maxDepth, tol);
    ApproxIsPartition(expand, umin, umax, 1, maxDepth, tol);
    ApproxIsSized(expand, umin, umax, 1, maxDepth, tol, degree);
    SplinesAreSegments(func, degree, segments, umin, umax);
    var splines := SegmentSplines(func, degree, segments);
    if |splines| == 1 {
      assert splines == [splines[0]];
      JoinedSingle(splines[0], degree);
    }
    JoinedIsMovedExpansion(splines, func, degree, segments, i, axis, x);
  }

  /** Where a segment ends, the curve is at the joint. */
  lemma ValueAtJoint(cs: seq<Curve>, func: real -> Point, degree: nat, segments: seq<ChebSegment>, i: nat, axis: Axis)
    requires AreSplines(cs, func, degree, segments) && i < |segments|
    ensures AllWellFormed(cs) && HasSpan(Joined(cs, degree, true), degree, SpanIndex(cs, i, degree))
    ensures SpanValue(Joined(cs, degree, true), degree, Selector(axis), SpanIndex(cs, i, degree), segments[i].umax)
            == JointOf(func, segments, i + 1, axis, degree)
  {
    hide *;
    IsSplines(cs, func, degree, segments);
    KnotsOfSpline(cs, func, degree, segments, i);
    SmoothSpan(cs, i, degree, Selector(axis), segments[i].umax);
    SmoothedLast(cs, func, degree, segments, i, axis);
    DeBoorAtEnds(Smoothed(cs, i, degree, Selector(axis)), segments[i].umin, segments[i].umax, degree, degree, degree);
  }

  // A function with a kink that both expansions meet exactly and the joined curve misses.

  /** Zero up to 1, then rising. */
  function Ramp(t: real): Point {
    Point(if t < 1.0 then 0.0 else t - 1.0, 0.0, 0.0)
  }

  const NONE: seq<real> := [0.0, 0.0, 0.0]

  function ExpandRamp(): Expand {
    (a: real, b: real) =>
      if b <= 1.0 then Expansion(NONE, NONE, NONE, 0.0)
      else if a == 1.0 && b == 2.0 then Expansion([0.5, 0.5, 0.0], NONE, NONE, 0.0)
      else Expansion(NONE, NONE, NONE, 1.0)
  }

  lemma ChebyshevUpToTwo(y: real)
    ensures Chebyshev(0, y) == 1.0 && Chebyshev(1, y) == y && Chebyshev(2, y) == 2.0 * y * y - 1.0
  {
  }

  lemma DotOfThree(f: nat -> real, g: nat -> real)
    ensures Dot(f, g, 3) == f(0) * g(0) + f(1) * g(1) + f(2) * g(2)
  {
    assert Dot(f, g, 1) == f(0) * g(0);
    assert Dot(f, g, 2) == Dot(f, g, 1) + f(1) * g(1);
  }

  lemma QuadraticBernstein()
    ensures Bern(0, 2, 0.5) == 0.25 && Bern(1, 2, 0.5) == 0.5 && Bern(2, 2, 0.5) == 0.25
  {
    assert Choose(2, 0) == 1 && Choose(2, 1) == 2 && Choose(2, 2) == 1 by {
      assert Choose(1, 0) == 1 && Choose(1, 1) == 1 && Choose(1, 2) == 0;
    }
    assert Pow(0.5, 0) == 1.0 && Pow(0.5, 1) == 0.5 && Pow(0.5, 2) == 0.25;
  }

  lemma MiddleOfQuadratic(p: nat -> real)
    ensures Dot(p, BernVector(2, 0.5), 3) == 0.25 * p(0) + 0.5 * p(1) + 0.25 * p(2)
  {
    QuadraticBernstein();
    DotOfThree(p, BernVector(2, 0.5));
    assert BernVector(2, 0.5)(0) == 0.25 && BernVector(2, 0.5)(1) == 0.5 && BernVector(2, 0.5)(2) == 0.25;
  }

  lemma QuadraticSums(c: nat -> real)
    ensures Dot(c, ChebVector(2.0 * 0.0 - 1.0), 3) == c(0) - c(1) + c(2)
    ensures Dot(c, ChebVector(2.0 * 0.5 - 1.0), 3) == c(0) - c(2)
    ensures Dot(c, ChebVector(2.0 * 1.0 - 1.0), 3) == c(0) + c(1) + c(2)
  {
    QuadraticSum(c, 2.0 * 0.0 - 1.0);
    QuadraticSum(c, 2.0 * 0.5 - 1.0);
    QuadraticSum(c, 2.0 * 1.0 - 1.0);
  }

  /** The values of a quadratic expansion at both ends and in the middle give its middle control point. */
  lemma MiddleControl(c: nat -> real)
    ensures ControlPoints(2, c)(1) == c(0) - 3.0 * c(2)
  {
    hide *;
    var p := ControlPoints(2, c);
    SegmentMeetsEnds(2, p);
    ConversionKeepsPolynomial(2, c, 0.0);
    ConversionKeepsPolynomial(2, c, 0.5);
    ConversionKeepsPolynomial(2, c, 1.0);
    QuadraticSums(c);
    MiddleOfQuadratic(p);
  }

  lemma QuadraticSum(c: nat -> real, y: real)
    ensures Dot(c, ChebVector(y), 3) == c(0) + c(1) * y + c(2) * (2.0 * y * y - 1.0)
  {
    ChebyshevUpToTwo(y);
    DotOfThree(c, ChebVector(y));
    assert ChebVector(y)(0) == 1.0 && ChebVector(y)(1) == y && ChebVector(y)(2) == 2.0 * y * y - 1.0;
  }

  function RampSegments(): seq<ChebSegment> {
    [ChebSegment(Expansion(NONE, NONE, NONE, 0.0), 0.0, 1.0),
     ChebSegment(Expansion([0.5, 0.5, 0.0], NONE, NONE, 0.0), 1.0, 2.0)]
  }

  lemma RampIsHalved()
    ensures ApproxSegment(ExpandRamp(), 0.0, 2.0, 1, 2, 0.5) == RampSegments()
  {
    assert ApproxSegment(ExpandRamp(), 0.0, 1.0, 2, 2, 0.5) == [RampSegments()[0]];
    assert ApproxSegment(ExpandRamp(), 1.0, 2.0, 2, 2, 0.5) == [RampSegments()[1]];
  }

  /** Both expansions are the function itself. */
  lemma RampIsExact(t: real)
    ensures 0.0 <= t <= 1.0 ==> Dot(VectorOf(NONE), ChebVector(2.0 * t - 1.0), 3) == Ramp(t).x
    ensures 0.0 <= t <= 1.0 ==> Dot(VectorOf([0.5, 0.5, 0.0]), ChebVector(2.0 * t - 1.0), 3) == Ramp(t + 1.0).x
  {
    QuadraticSum(VectorOf(NONE), 2.0 * t - 1.0);
    QuadraticSum(VectorOf([0.5, 0.5, 0.0]), 2.0 * t - 1.0);
  }

  /** The joined curve is at 1/4 where the function, both expansions and both segments are 0. */
  lemma RampIsMissed()
    ensures HasDegree(ExpandRamp(), 2)
    ensures var splines := SegmentSplines(Ramp, 2, ApproxSegment(ExpandRamp(), 0.0, 2.0, 1, 2, 0.5));
            && |splines| == 2 && AreSegments(splines, 2)
                && HasSpan(Joined(splines, 2, true), 2, SpanIndex(splines, 0, 2))
            && SpanValue(Joined(splines, 2, true), 2, Selector(X), SpanIndex(splines, 0, 2), 1.0) == 0.25
            && HasSpan(splines[0], 2, 2) && SpanValue(splines[0], 2, Selector(X), 2, 1.0) == Ramp(1.0).x == 0.0
  {
    hide SpanValue, HasSpan, SpanIndex, Joined, ApproxSegment, ControlPoints, DeBoor, SegmentKnots;
    RampIsHalved();
    var segments := RampSegments();
    var splines := SegmentSplines(Ramp, 2, segments);
    assert AreSplines(splines, Ramp, 2, segments);
    ValueAtJoint(splines, Ramp, 2, segments, 0, X);
    MiddleControl(VectorOf(NONE));
    MiddleControl(VectorOf([0.5, 0.5, 0.0]));
    assert JointOf(Ramp, segments, 1, X, 2) == 0.25;
    SegmentSpan(splines[0], 2, Selector(X), 1.0);
    DeBoorAtEnds(Controls(splines[0], Selector(X)), 0.0, 1.0, 2, 2, 2);
  }
}
