/** When the bisection of Bezier curves ends: where their control polygons run forward in some direction. */
module SearchEnds {
  import opened Bezier
  import opened Boxes
  import opened Flatness
  import opened Geometry
  import opened IntersectBSplines
  import opened Legs

  // What halving does to the legs.

  lemma AlongOfSub(ps: seq<Point>, w: Point, u: real, v: real)
    requires ps != [] && 0.0 <= u <= 1.0 && 0.0 <= v <= 1.0
    ensures Along(SubPoles(ps, u, v), w) == Sub(Along(ps, w), u, v)
  {
    hide Sub, Combined, Zeros;
    var zeros := Zeros(|ps|);
    SubInHull(zeros, u, v, 0.0, 0.0);
    assert Sub(zeros, u, v) == zeros;
    var a := Combined(zeros, Xs(ps), w.x);
    SubOfCombined(zeros, Xs(ps), w.x, u, v);
    SubOfCombined(a, Ys(ps), w.y, u, v);
    SubOfCombined(Combined(a, Ys(ps), w.y), Zs(ps), w.z, u, v);
  }

  lemma HalvedIsAtLeast(p: seq<real>, m: real)
    requires AtLeast(p, m)
    ensures AtLeast(Scaled(p, 0.5), m / 2.0)
  {
  }

  lemma HalvedIsBounded(p: seq<real>, b: real)
    requires Bounded(p, b)
    ensures Bounded(Scaled(p, 0.5), b / 2.0)
  {
  }

  lemma HalfAdvances(p: seq<real>, u: real, v: real, m: real)
    requires p != [] && 0.0 <= u <= 1.0 && 0.0 <= v <= 1.0 && v - u == 0.5 && AtLeast(Differences(p), m)
    ensures AtLeast(Differences(Sub(p, u, v)), m / 2.0)
  {
    hide Sub, Differences, Scaled;
    if |p| >= 2 {
      DifferencesOfSub(p, u, v);
      AtLeastOfSub(Differences(p), u, v, m);
      HalvedIsAtLeast(Sub(Differences(p), u, v), m);
    }
  }

  lemma AtLeastOfSub(p: seq<real>, u: real, v: real, m: real)
    requires p != [] && 0.0 <= u <= 1.0 && 0.0 <= v <= 1.0 && AtLeast(p, m)
    ensures AtLeast(Sub(p, u, v), m)
  {
    hide Sub;
    var hi := Greatest(p);
    SubInHull(p, u, v, m, hi);
  }

  function Greatest(p: seq<real>): (g: real)
    requires p != []
    ensures forall i :: 0 <= i < |p| ==> p[i] <= g
  {
    if |p| == 1 then p[0]
    else
      var g := Greatest(p[1..]);
      assert forall i :: 0 < i < |p| ==> p[i] == p[1..][i - 1];
      if p[0] < g then g else p[0]
  }

  lemma DifferencesOfHalved(p: seq<real>)
    requires p != []
    ensures Differences(Scaled(p, 0.5)) == Scaled(Differences(p), 0.5)
  {
    forall i | 0 <= i < |p| - 1
      ensures Differences(Scaled(p, 0.5))[i] == Scaled(Differences(p), 0.5)[i]
    {
    }
  }

  lemma HalfBends(p: seq<real>, u: real, v: real, b: real)
    requires p != [] && 0.0 <= u <= 1.0 && 0.0 <= v <= 1.0 && v - u == 0.5 && Bounded(Seconds(p), b)
    ensures Bounded(Seconds(Sub(p, u, v)), b / 4.0)
  {
    hide Sub, Differences, Scaled, Bounded;
    if |p| >= 2 {
      var d := Differences(p);
      DifferencesOfSub(p, u, v);
      DifferencesOfHalved(Sub(d, u, v));
      if |p| > 2 {
        DifferencesOfSub(d, u, v);
        BoundedOfSub(Differences(d), u, v, b);
        HalvedIsBounded(Sub(Differences(d), u, v), b);
        HalvedIsBounded(Scaled(Sub(Differences(d), u, v), 0.5), b / 2.0);
      } else {
        NothingIsBounded(Seconds(Sub(p, u, v)), b / 4.0);
      }
    } else {
      NothingIsBounded(Seconds(Sub(p, u, v)), b / 4.0);
    }
  }

  lemma NothingIsBounded(p: seq<real>, b: real)
    requires p == []
    ensures Bounded(p, b)
  {
  }

  lemma BoundedOfSub(p: seq<real>, u: real, v: real, b: real)
    requires p != [] && 0.0 <= u <= 1.0 && 0.0 <= v <= 1.0 && Bounded(p, b)
    ensures Bounded(Sub(p, u, v), b)
  {
    hide Sub;
    SubInHull(p, u, v, -b, b);
  }

  /** The poles advance by at least m in the direction w, and their second differences are at most b. */
  ghost predicate IsTame(ps: seq<Point>, w: Point, m: real, b: real)
    requires ps != []
  {
    AtLeast(Differences(Along(ps, w)), m) && Bends(ps, b)
  }

  lemma HalfIsTame(ps: seq<Point>, u: real, v: real, w: Point, m: real, b: real)
    requires ps != [] && 0.0 <= u <= 1.0 && 0.0 <= v <= 1.0 && v - u == 0.5 && IsTame(ps, w, m, b)
    ensures IsTame(SubPoles(ps, u, v), w, m / 2.0, b / 4.0)
  {
    hide Sub, Differences, Seconds, Along, Bounded, AtLeast;
    AlongOfSub(ps, w, u, v);
    HalfAdvances(Along(ps, w), u, v, m);
    HalfBends(Xs(ps), u, v, b);
    HalfBends(Ys(ps), u, v, b);
    HalfBends(Zs(ps), u, v, b);
  }

  lemma HalvesAreTame(shape: Curve -> Shape, c: Curve, w: Point, m: real, b: real)
    requires IsTame(c.poles, w, m, b)
    ensures var k := BezierKernel(shape);
            && |k.LowerHalf(c).poles| == |k.UpperHalf(c).poles| == |c.poles|
            && IsTame(k.LowerHalf(c).poles, w, m / 2.0, b / 4.0) && IsTame(k.UpperHalf(c).poles, w, m / 2.0, b / 4.0)
  {
    hide Local, IsTame;
    LocalOfMid(c);
    HalfIsTame(c.poles, 0.0, 0.5, w, m, b);
    HalfIsTame(c.poles, 0.5, 1.0, w, m, b);
  }

  // The number of halvings.

  function Pow2(n: nat): (r: nat)
    ensures r >= 1
  {
    if n == 0 then 1 else 2 * Pow2(n - 1)
  }

  /** How often q has to be halved to get to 1. */
  function Halvings(q: real): (n: nat)
    ensures q <= Pow2(n) as real
    decreases if q <= 1.0 then 0 else q.Floor
  {
    if q <= 1.0 then 0 else 1 + Halvings(q / 2.0)
  }

  /** How much a polygon of n poles bends, at most, to be still flat with an advance of 1. */
  function Slack(n: nat, w: Point, b: real): real {
    4000.0 * Multiple(n, b) * Size(w)
  }

  lemma SlackOfQuarter(n: nat, w: Point, b: real)
    ensures Slack(n, w, b / 4.0) == Slack(n, w, b) / 4.0
  {
    MultipleIsProduct(n, b);
    MultipleIsProduct(n, b / 4.0);
    hide Multiple, Size;
    Quarter(n as real, b, Size(w));
  }

  lemma Quarter(n: real, b: real, s: real)
    ensures 4000.0 * (n * (b / 4.0)) * s == 4000.0 * (n * b) * s / 4.0
  {
    assert n * (b / 4.0) == (n * b) / 4.0;
  }

  lemma HalvedSlack(s: real, m: real, p: real)
    requires s <= m * (2.0 * p)
    ensures s / 4.0 <= (m / 2.0) * p
  {
    assert m * (2.0 * p) == 4.0 * ((m / 2.0) * p);
  }

  lemma SinglePoint(shape: Curve -> Shape, dist: (Point, Point) -> real, c: Curve)
    requires Measures(shape, dist) && |c.poles| == 1
    ensures shape(c) == Degenerate
  {
    MeasuringSeesPoints(shape, dist);
    hide Measures;
    assert IsPoint(c);
  }

  lemma {:induction false} TameEnds(shape: Curve -> Shape, dist: (Point, Point) -> real, c: Curve, w: Point, m: real,
                                    b: real, depth: nat)
    requires Measures(shape, dist) && IsTame(c.poles, w, m, b) && m > 0.0 && b >= 0.0
    requires Slack(|c.poles|, w, b) <= m * Pow2(depth) as real
    ensures EndsWithin(BezierKernel(shape), c, depth)
    decreases depth
  {
    var k := BezierKernel(shape);
    hide IsTame, Measures, Slack;
    if |c.poles| == 1 {
      SinglePoint(shape, dist, c);
    } else if depth == 0 {
      TameIsFlat(shape, dist, c, w, m, b);
    } else {
      HalvesAreTame(shape, c, w, m, b);
      SlackOfQuarter(|c.poles|, w, b);
      HalvedSlack(Slack(|c.poles|, w, b), m, Pow2(depth - 1) as real);
      TameEnds(shape, dist, k.LowerHalf(c), w, m / 2.0, b / 4.0, depth - 1);
      TameEnds(shape, dist, k.UpperHalf(c), w, m / 2.0, b / 4.0, depth - 1);
    }
  }

  lemma TameIsFlat(shape: Curve -> Shape, dist: (Point, Point) -> real, c: Curve, w: Point, m: real, b: real)
    requires Measures(shape, dist) && IsTame(c.poles, w, m, b) && m > 0.0 && b >= 0.0 && |c.poles| >= 2
    requires Slack(|c.poles|, w, b) <= m
    ensures shape(c) == Flat
  {
    hide AtLeast, Bends, Along, Multiple, Size, ShapeOf, LengthOf;
    assert IsMeasured(shape, dist, c);
    FlatPolygon(c.poles, dist, w, m, b);
  }

  // Curves that run forward.

  /** Every leg of the control polygon goes forward in the direction w. */
  predicate RunsAlong(c: Curve, w: Point) {
    forall i :: 0 <= i < |c.poles| - 1 ==> LegRunsAlong(c.poles[i], c.poles[i + 1], w)
  }

  predicate LegRunsAlong(p: Point, q: Point, w: Point) {
    Dot(Minus(q, p), w) > 0.0
  }

  function Least(p: seq<real>): (l: real)
    requires p != []
    ensures l in p && AtLeast(p, l)
  {
    if |p| == 1 then p[0]
    else
      var l := Least(p[1..]);
      assert forall i :: 0 < i < |p| ==> p[i] == p[1..][i - 1];
      if p[0] < l then p[0] else l
  }

  function BoundOf(p: seq<real>): (b: real)
    ensures b >= 0.0 && Bounded(p, b)
  {
    if p == [] then 0.0
    else
      var b, x := BoundOf(p[1..]), Distance(p[0]);
      assert forall i :: 0 < i < |p| ==> p[i] == p[1..][i - 1];
      if x > b then x else b
  }

  /** How much the polygon bends at most. */
  function BendOf(ps: seq<Point>): (b: real)
    ensures b >= 0.0 && Bends(ps, b)
  {
    Max(Max(BoundOf(Seconds(Xs(ps))), BoundOf(Seconds(Ys(ps)))), BoundOf(Seconds(Zs(ps))))
  }

  /** The number of halvings after which a curve that runs along w is flat, computed from its poles. */
  function StepsOf(c: Curve, w: Point): nat {
    if |c.poles| == 1 || Least(Differences(Along(c.poles, w))) <= 0.0 then 0
    else Halvings(Slack(|c.poles|, w, BendOf(c.poles)) / Least(Differences(Along(c.poles, w))))
  }

  lemma AdvanceOfRunning(c: Curve, w: Point)
    requires RunsAlong(c, w) && |c.poles| >= 2
    ensures Least(Differences(Along(c.poles, w))) > 0.0
  {
    hide Along, Dot, Minus;
    var d := Differences(Along(c.poles, w));
    forall i | 0 <= i < |d|
      ensures d[i] > 0.0
    {
      AlongIsDot(c.poles, w, i);
      AlongIsDot(c.poles, w, i + 1);
      DotOfDifference(c.poles[i], c.poles[i + 1], w);
      assert LegRunsAlong(c.poles[i], c.poles[i + 1], w);
    }
  }

  lemma QuotientBound(s: real, m: real, p: real)
    requires m > 0.0 && s / m <= p
    ensures s <= m * p
  {
    Monotone(s / m, p, m);
    assert m * (s / m) == s;
  }

  lemma StepsOfRunning(c: Curve, w: Point)
    requires |c.poles| >= 2
    ensures var m := Least(Differences(Along(c.poles, w)));
            m > 0.0 ==> StepsOf(c, w) == Halvings(Slack(|c.poles|, w, BendOf(c.poles)) / m)
  {
    hide Least, Slack, Along, BendOf, Halvings, Differences;
  }

  lemma LeastAndBend(c: Curve, w: Point)
    requires |c.poles| >= 2
    ensures IsTame(c.poles, w, Least(Differences(Along(c.poles, w))), BendOf(c.poles))
  {
    hide Least, Along, BendOf, Differences, Bends, AtLeast;
  }

  lemma StepsAreEnough(c: Curve, w: Point)
    requires RunsAlong(c, w) && |c.poles| >= 2
    ensures var m, b := Least(Differences(Along(c.poles, w))), BendOf(c.poles);
            m > 0.0 && IsTame(c.poles, w, m, b) && Slack(|c.poles|, w, b) <= m * Pow2(StepsOf(c, w)) as real
  {
    hide *;
    AdvanceOfRunning(c, w);
    var m, b := Least(Differences(Along(c.poles, w))), BendOf(c.poles);
    StepsOfRunning(c, w);
    LeastAndBend(c, w);
    QuotientBound(Slack(|c.poles|, w, b), m, Pow2(StepsOf(c, w)) as real);
  }

  /** The bisection of a curve that runs forward ends within the computed number of halvings. */
  lemma RunningEnds(shape: Curve -> Shape, dist: (Point, Point) -> real, c: Curve, w: Point)
    requires Measures(shape, dist) && RunsAlong(c, w)
    ensures EndsWithin(BezierKernel(shape), c, StepsOf(c, w))
  {
    hide *;
    if |c.poles| == 1 {
      PointEnds(shape, dist, c, StepsOf(c, w));
    } else {
      StepsAreEnough(c, w);
      var m, b := Least(Differences(Along(c.poles, w))), BendOf(c.poles);
      TameEnds(shape, dist, c, w, m, b, StepsOf(c, w));
    }
  }

  lemma PointEnds(shape: Curve -> Shape, dist: (Point, Point) -> real, c: Curve, depth: nat)
    requires Measures(shape, dist) && |c.poles| == 1
    ensures EndsWithin(BezierKernel(shape), c, depth)
  {
    SinglePoint(shape, dist, c);
  }

  lemma NotBentEnds(k: Kernel<Curve>, c: Curve, depth: nat)
    ensures !k.shape(c).Bent? ==> EndsWithin(k, c, depth)
  {
  }

  function Later(a: nat, b: nat): nat {
    if a < b then b else a
  }

  /** So the search for two such curves ends, at a depth that is computed from their poles. */
  lemma RunningSearchEnds(shape: Curve -> Shape, dist: (Point, Point) -> real, c1: Curve, c2: Curve, w1: Point,
                          w2: Point, tolerance: real, depth: nat)
    requires Measures(shape, dist) && RunsAlong(c1, w1) && RunsAlong(c2, w2)
    requires depth >= StepsOf(c1, w1) && depth >= StepsOf(c2, w2)
    ensures Ranges(BezierKernel(shape), c1, c2, tolerance, depth).Some?
  {
    hide Measures, RunsAlong, StepsOf, EndsWithin, Ranges;
    var k := BezierKernel(shape);
    RunningEnds(shape, dist, c1, w1);
    RunningEnds(shape, dist, c2, w2);
    EndsWithinMore(k, c1, StepsOf(c1, w1), depth);
    EndsWithinMore(k, c2, StepsOf(c2, w2), depth);
    BisectionsEndRanges(k, c1, c2, tolerance, depth);
  }

  /** And it finds every near pair: two curves that run forward lose no intersection. */
  lemma RunningIntersections(shape: Curve -> Shape, dist: (Point, Point) -> real, c1: Curve, c2: Curve, w1: Point,
                             w2: Point, tolerance: real, u: real, v: real)
    requires Measures(shape, dist) && RunsAlong(c1, w1) && RunsAlong(c2, w2) && |c1.poles| >= 2 && |c2.poles| >= 2
    requires IsNearPair(BezierKernel(shape), c1, c2, tolerance, u, v)
    ensures var ranges := Ranges(BezierKernel(shape), c1, c2, tolerance, Later(StepsOf(c1, w1), StepsOf(c2, w2)));
            && ranges.Some?
            && exists q :: q in FinalCandidates(ranges.value, tolerance) && q.b1.Covers(u) && q.b2.Covers(v)
  {
    hide Measures, StepsOf, Ranges, IsNearPair, SeesPoints, IsPoint;
    var depth := Later(StepsOf(c1, w1), StepsOf(c2, w2));
    RunningIsNoPoint(c1, w1);
    RunningIsNoPoint(c2, w2);
    MeasuringSeesPoints(shape, dist);
    RunningSearchEnds(shape, dist, c1, c2, w1, w2, tolerance, depth);
    BezierIntersections(shape, c1, c2, tolerance, depth, u, v);
  }

  lemma RunningIsNoPoint(c: Curve, w: Point)
    requires RunsAlong(c, w) && |c.poles| >= 2
    ensures !IsPoint(c)
  {
    assert LegRunsAlong(c.poles[0], c.poles[0 + 1], w);
    NoAdvance(c.poles[0], w);
  }

  lemma NoAdvance(p: Point, w: Point)
    ensures !LegRunsAlong(p, p, w)
  {
  }

  // Exactly when the search ends.

  /** The bisection of such a curve need not be followed further. */
  ghost predicate IsCalm(shape: Curve -> Shape, c: Curve) {
    !shape(c).Bent? || exists w :: RunsAlong(c, w)
  }

  /** After that many rounds of the recursion all curves that are left run forward, or are flat or points. */
  ghost predicate Settles(shape: Curve -> Shape, c1: Curve, c2: Curve, tolerance: real, level: nat)
    decreases level, 1
  {
    var k := BezierKernel(shape);
    || !Refines(k, c1, c2, tolerance)
    || (IsCalm(shape, c1) && IsCalm(shape, c2))
    || (level > 0 && forall a, b :: SettlesPart(shape, c1, c2, tolerance, level, a, b))
  }

  ghost predicate SettlesPart(shape: Curve -> Shape, c1: Curve, c2: Curve, tolerance: real, level: nat, a: bool,
                              b: bool)
    requires level > 0
    decreases level, 0
  {
    Settles(shape, Part(BezierKernel(shape), c1, a), Part(BezierKernel(shape), c2, b), tolerance, level - 1)
  }

  lemma SomeDepth(shape: Curve -> Shape, dist: (Point, Point) -> real, c: Curve) returns (depth: nat)
    requires Measures(shape, dist) && IsCalm(shape, c)
    ensures EndsWithin(BezierKernel(shape), c, depth)
  {
    hide Measures, RunsAlong, EndsWithin;
    depth := 0;
    if shape(c).Bent? {
      var w :| RunsAlong(c, w);
      depth := StepsOf(c, w);
      RunningEnds(shape, dist, c, w);
    } else {
      NotBentEnds(BezierKernel(shape), c, 0);
    }
  }

  lemma {:induction false} SettledEnds(shape: Curve -> Shape, dist: (Point, Point) -> real, c1: Curve, c2: Curve,
                                       tolerance: real, level: nat)
    returns (depth: nat)
    requires Measures(shape, dist) && Settles(shape, c1, c2, tolerance, level)
    ensures Ranges(BezierKernel(shape), c1, c2, tolerance, depth).Some?
    decreases level, 1
  {
    hide Measures, IsCalm, EndsWithin, Ranges, Refines;
    var k := BezierKernel(shape);
    if !Refines(k, c1, c2, tolerance) {
      depth := 0;
      WithoutRefinement(k, c1, c2, tolerance);
    } else if IsCalm(shape, c1) && IsCalm(shape, c2) {
      var m := SomeDepth(shape, dist, c1);
      var n := SomeDepth(shape, dist, c2);
      depth := Later(m, n);
      EndsWithinMore(k, c1, m, depth);
      EndsWithinMore(k, c2, n, depth);
      BisectionsEndRanges(k, c1, c2, tolerance, depth);
    } else {
      var d := 0;
      var ll := SettledPartEnds(shape, dist, c1, c2, tolerance, level, false, false);
      var lr := SettledPartEnds(shape, dist, c1, c2, tolerance, level, false, true);
      var rl := SettledPartEnds(shape, dist, c1, c2, tolerance, level, true, false);
      var rr := SettledPartEnds(shape, dist, c1, c2, tolerance, level, true, true);
      d := Later(Later(ll, lr), Later(rl, rr));
      forall a, b
        ensures PartEnds(k, c1, c2, tolerance, d, a, b)
      {
        var e := if a then if b then rr else rl else if b then lr else ll;
        DeeperIsSame(k, Part(k, c1, a), Part(k, c2, b), tolerance, e, d);
      }
      PartsEnd(k, c1, c2, tolerance, d);
      depth := d + 1;
    }
  }

  lemma {:induction false} SettledPartEnds(shape: Curve -> Shape, dist: (Point, Point) -> real, c1: Curve, c2: Curve,
                                           tolerance: real, level: nat, a: bool, b: bool)
    returns (depth: nat)
    requires Measures(shape, dist) && level > 0 && SettlesPart(shape, c1, c2, tolerance, level, a, b)
    ensures PartEnds(BezierKernel(shape), c1, c2, tolerance, depth, a, b)
    decreases level, 0
  {
    hide Measures, Ranges, Settles;
    var k := BezierKernel(shape);
    depth := SettledEnds(shape, dist, Part(k, c1, a), Part(k, c2, b), tolerance, level - 1);
  }

  lemma WithoutRefinement<T>(k: Kernel<T>, c1: T, c2: T, tolerance: real)
    requires !Refines(k, c1, c2, tolerance)
    ensures Ranges(k, c1, c2, tolerance, 0).Some?
  {
    hide Box.Intersects;
  }

  lemma {:induction false} EndedSettles(shape: Curve -> Shape, c1: Curve, c2: Curve, tolerance: real, depth: nat)
    requires Ranges(BezierKernel(shape), c1, c2, tolerance, depth).Some?
    ensures Settles(shape, c1, c2, tolerance, depth)
    decreases depth
  {
    hide Box.Intersects, IsCalm;
    var k := BezierKernel(shape);
    if Refines(k, c1, c2, tolerance) {
      RangesOfParts(k, c1, c2, tolerance, depth - 1, Ranges(k, c1, c2, tolerance, depth).value);
      forall a, b
        ensures SettlesPart(shape, c1, c2, tolerance, depth, a, b)
      {
        assert PartRanges(k, c1, c2, tolerance, depth - 1, a, b).Some?;
        EndedSettles(shape, Part(k, c1, a), Part(k, c2, b), tolerance, depth - 1);
      }
    }
  }

  /** The search ends if and only if, after some number of rounds, all curves that are left run forward or are not
      bent. */
  lemma EndsIfSettles(shape: Curve -> Shape, dist: (Point, Point) -> real, c1: Curve, c2: Curve, tolerance: real)
    requires Measures(shape, dist)
    ensures (exists depth :: Ranges(BezierKernel(shape), c1, c2, tolerance, depth).Some?)
            <==> exists level :: Settles(shape, c1, c2, tolerance, level)
  {
    hide Measures, Ranges, Settles;
    if depth :| Ranges(BezierKernel(shape), c1, c2, tolerance, depth).Some? {
      EndedSettles(shape, c1, c2, tolerance, depth);
    }
    if level :| Settles(shape, c1, c2, tolerance, level) {
      var depth := SettledEnds(shape, dist, c1, c2, tolerance, level);
    }
  }

  /** Where it ends it finds a near pair exactly when neither curve is a point. */
  lemma SettledIntersections(shape: Curve -> Shape, dist: (Point, Point) -> real, c1: Curve, c2: Curve, tolerance: real,
                             level: nat, u: real, v: real)
    returns (depth: nat)
    requires Measures(shape, dist) && Settles(shape, c1, c2, tolerance, level)
    requires IsNearPair(BezierKernel(shape), c1, c2, tolerance, u, v)
    ensures var ranges := Ranges(BezierKernel(shape), c1, c2, tolerance, depth);
            && ranges.Some?
            && ((exists q :: q in FinalCandidates(ranges.value, tolerance) && q.b1.Covers(u) && q.b2.Covers(v))
                <==> !IsPoint(c1) && !IsPoint(c2))
  {
    hide Measures, Ranges, IsNearPair, SeesPoints, IsPoint, Settles;
    MeasuringSeesPoints(shape, dist);
    depth := SettledEnds(shape, dist, c1, c2, tolerance, level);
    BezierIntersections(shape, c1, c2, tolerance, depth, u, v);
  }
}
