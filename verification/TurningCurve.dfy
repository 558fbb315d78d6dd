/** A curve that turns back, crossed where it turns: the search for the intersection may or may not end. */
module TurningCurve {
  import opened Bezier
  import opened Boxes
  import opened Flatness
  import opened Geometry
  import opened IntersectBSplines
  import opened Legs
  import opened SearchEnds
  import opened Wrappers

  /** A quadratic curve along the x axis whose derivative is zero at s of its way, where it has the value peak. */
  ghost predicate TurnsAt(c: Curve, peak: real, s: real, k: real) {
    && |c.poles| == 3 && (forall i :: 0 <= i < 3 ==> c.poles[i].y == 0.0 && c.poles[i].z == 0.0)
    && 0.0 <= s <= 1.0 && k != 0.0
    && var (x, y, z) := (c.poles[0].x, c.poles[1].x, c.poles[2].x);
       y == x + Times(k, s) && z == y - k + Times(k, s) && peak == x + Times(Times(k, s), s)
  }

  /** So near to an end that the polygon is flat. */
  predicate IsNearEnd(s: real) {
    var d := 1.0 / 2.0 - 1.0 / 2.001;
    s <= d || s >= 1.0 - d
  }

  // The shape of such a curve.

  lemma DistanceAlongX(dist: (Point, Point) -> real, p: Point, q: Point)
    requires IsDistance(dist) && p.y == q.y && p.z == q.z
    ensures dist(p, q) == Distance(p.x - q.x)
  {
    assert IsRoot(dist(p, q), SquareDistance(p, q));
    var d, e := dist(p, q), Distance(p.x - q.x);
    assert (p.y - q.y) * (p.y - q.y) == 0.0 * 0.0 && (p.z - q.z) * (p.z - q.z) == 0.0 * 0.0;
    assert e * e == (p.x - q.x) * (p.x - q.x);
    LessBySquares(d, e);
    LessBySquares(e, d);
  }

  lemma LengthOfThree(ps: seq<Point>, dist: (Point, Point) -> real)
    requires |ps| == 3
    ensures LengthOf(ps, dist) == dist(ps[0], ps[1]) + dist(ps[1], ps[2])
  {
    assert ps[..2][..1] == ps[..1];
    assert LengthOf(ps[..1], dist) == 0.0;
    assert LengthOf(ps[..2], dist) == dist(ps[0], ps[1]);
  }

  predicate IsAlongX(c: Curve) {
    |c.poles| == 3 && forall i :: 0 <= i < 3 ==> c.poles[i].y == 0.0 && c.poles[i].z == 0.0
  }

  lemma ShapeAlongX(shape: Curve -> Shape, dist: (Point, Point) -> real, c: Curve)
    requires Measures(shape, dist) && IsAlongX(c)
    ensures var (x, y, z) := (c.poles[0].x, c.poles[1].x, c.poles[2].x);
            shape(c) == ShapeOf(Distance(y - x) + Distance(z - y), Distance(z - x))
  {
    hide LengthOf, ShapeOf;
    assert IsMeasured(shape, dist, c);
    LengthOfThree(c.poles, dist);
    DistanceAlongX(dist, c.poles[0], c.poles[1]);
    DistanceAlongX(dist, c.poles[1], c.poles[2]);
    DistanceAlongX(dist, c.poles[0], c.poles[2]);
  }

  lemma TimesBetween(k: real, s: real)
    requires 0.0 <= s <= 1.0
    ensures if k >= 0.0 then 0.0 <= Times(k, s) <= k else k <= Times(k, s) <= 0.0
  {
    if k >= 0.0 {
      ProductNonNegative(k, s);
      ProductNonNegative(k, 1.0 - s);
      assert k * (1.0 - s) == k - k * s;
    } else {
      ProductNonNegative(-k, s);
      ProductNonNegative(-k, 1.0 - s);
      assert (-k) * (1.0 - s) == -k + k * s;
      assert (-k) * s == -(k * s);
    }
  }

  /** Dividing by k. */
  lemma TimesCompare(k: real, s: real, t: real)
    requires k != 0.0
    ensures s <= t <==> if k > 0.0 then Times(k, s) <= Times(k, t) else Times(k, t) <= Times(k, s)
  {
    if k > 0.0 {
      TimesGrows(k, s, t);
    } else {
      TimesGrows(-k, s, t);
      assert Times(-k, s) == -Times(k, s) && Times(-k, t) == -Times(k, t);
    }
  }

  lemma TimesGrows(k: real, s: real, t: real)
    requires k > 0.0
    ensures s <= t <==> Times(k, s) <= Times(k, t)
  {
    if s <= t {
      Monotone(s, t, k);
    } else {
      StrictlyMonotone(t, s, k);
    }
  }

  /** The curve is flat exactly if it turns near an end. */
  lemma TurningShape(shape: Curve -> Shape, dist: (Point, Point) -> real, c: Curve, peak: real, s: real, k: real)
    requires Measures(shape, dist) && TurnsAt(c, peak, s, k)
    ensures shape(c) == if IsNearEnd(s) then Flat else Bent
  {
    ShapeAlongX(shape, dist, c);
    hide Measures;
    var d := 1.0 / 2.0 - 1.0 / 2.001;
    TimesBetween(k, s);
    TimesCompare(k, s, d);
    TimesCompare(k, 1.0 - d, s);
    TimesOfConstant(k, d);
    TimesOfConstant(k, 1.0 - d);
    hide Times;
  }

  lemma TimesOfConstant(k: real, d: real)
    ensures Times(k, d) == k * d
  {
  }

  // The halves.

  lemma BlendOfThree(a: real, b: real, c: real, t: real)
    ensures Blend([a, b], t) == Lerp(t, a, b)
    ensures Blend([a, b, c], t) == Lerp(t, Lerp(t, a, b), Lerp(t, b, c))
  {
    hide Lerp;
    BlendOfTwo(a, b, t);
    BlendOfTwo(b, c, t);
    assert [a, b, c][..2] == [a, b] && [a, b, c][1..] == [b, c];
  }

  lemma BlendOfTwo(a: real, b: real, t: real)
    ensures Blend([a, b], t) == Lerp(t, a, b)
  {
    hide Lerp;
    assert [a, b][..1] == [a] && [a, b][1..] == [b];
  }

  lemma SubOfThree(a: real, b: real, c: real, u: real, v: real)
    ensures Sub([a, b, c], u, v)
            == [Lerp(u, Lerp(u, a, b), Lerp(u, b, c)), Lerp(v, Lerp(u, a, b), Lerp(u, b, c)),
                Lerp(v, Lerp(v, a, b), Lerp(v, b, c))]
  {
    hide Lerp;
    var p, q := Lerp(u, a, b), Lerp(u, b, c);
    assert Step([a, b, c], u) == [p, q];
    assert Step([p, q], u) == [Lerp(u, p, q)];
    BlendOfTwo(p, q, v);
    BlendOfThree(a, b, c, v);
    assert Sub([Lerp(u, p, q)], u, v) == [Lerp(u, p, q)];
    assert Sub([p, q], u, v) == [Lerp(u, p, q), Lerp(v, p, q)];
  }

  lemma HalvesOfThree(a: real, b: real, c: real)
    ensures Sub([a, b, c], 0.0, 0.5) == [a, (a + b) / 2.0, (a + 2.0 * b + c) / 4.0]
    ensures Sub([a, b, c], 0.5, 1.0) == [(a + 2.0 * b + c) / 4.0, (b + c) / 2.0, c]
  {
    hide Sub;
    SubOfThree(a, b, c, 0.0, 0.5);
    SubOfThree(a, b, c, 0.5, 1.0);
  }

  ghost predicate HasX(c: Curve, x: real, y: real, z: real) {
    IsAlongX(c) && c.poles[0].x == x && c.poles[1].x == y && c.poles[2].x == z
  }

  lemma HalvesAlongX(shape: Curve -> Shape, c: Curve, x: real, y: real, z: real)
    requires HasX(c, x, y, z)
    ensures var k := BezierKernel(shape);
            && HasX(k.LowerHalf(c), x, (x + y) / 2.0, (x + 2.0 * y + z) / 4.0)
            && HasX(k.UpperHalf(c), (x + 2.0 * y + z) / 4.0, (y + z) / 2.0, z)
  {
    hide Sub, Local;
    LocalOfMid(c);
    assert Xs(c.poles) == [x, y, z] && Ys(c.poles) == [0.0, 0.0, 0.0] && Zs(c.poles) == [0.0, 0.0, 0.0];
    HalvesOfThree(x, y, z);
    HalvesOfThree(0.0, 0.0, 0.0);
    HasCoordinates(BezierKernel(shape).LowerHalf(c), Sub(Xs(c.poles), 0.0, 0.5), Sub(Ys(c.poles), 0.0, 0.5));
    HasCoordinates(BezierKernel(shape).UpperHalf(c), Sub(Xs(c.poles), 0.5, 1.0), Sub(Ys(c.poles), 0.5, 1.0));
  }

  lemma HasCoordinates(h: Curve, xs: seq<real>, zeros: seq<real>)
    requires Xs(h.poles) == xs && Ys(h.poles) == Zs(h.poles) == zeros && zeros == [0.0, 0.0, 0.0] && |xs| == 3
    ensures HasX(h, xs[0], xs[1], xs[2])
  {
    forall i | 0 <= i < 3
      ensures h.poles[i].y == 0.0 && h.poles[i].z == 0.0 && h.poles[i].x == xs[i]
    {
      assert Ys(h.poles)[i] == 0.0 && Zs(h.poles)[i] == 0.0;
    }
  }

  lemma TurnsHas(c: Curve, peak: real, s: real, k: real)
    ensures TurnsAt(c, peak, s, k) <==>
            && 0.0 <= s <= 1.0 && k != 0.0
            && var x := peak - Times(Times(k, s), s);
               HasX(c, x, x + Times(k, s), x + Times(k, s) - k + Times(k, s))
  {
    hide Times;
  }

  /** Where a half turns, on its own way. */
  function Double(s: real): real {
    if s < 0.5 then 2.0 * s else 2.0 * s - 1.0
  }

  lemma TimesOfDouble(k: real, s: real)
    ensures Times(k / 4.0, 2.0 * s) == Times(k, s) / 2.0
    ensures Times(Times(k / 4.0, 2.0 * s), 2.0 * s) == Times(Times(k, s), s)
    ensures Times(k / 4.0, 2.0 * s - 1.0) == Times(k, s) / 2.0 - k / 4.0
    ensures Times(Times(k / 4.0, 2.0 * s - 1.0), 2.0 * s - 1.0) == Times(Times(k, s), s) - Times(k, s) + k / 4.0
  {
    var p := k * s;
    assert (k / 4.0) * (2.0 * s) == p / 2.0;
    assert (k / 4.0) * (2.0 * s - 1.0) == p / 2.0 - k / 4.0;
    assert (p / 2.0) * (2.0 * s) == p * s;
    assert (p / 2.0 - k / 4.0) * (2.0 * s - 1.0) == p * s - p / 2.0 - (k * s) / 2.0 + k / 4.0;
  }

  /** The half in which the curve turns. */
  function TurningHalf(shape: Curve -> Shape, c: Curve, s: real): Curve {
    if s < 0.5 then BezierKernel(shape).LowerHalf(c) else BezierKernel(shape).UpperHalf(c)
  }

  lemma HalfTurns(shape: Curve -> Shape, c: Curve, peak: real, s: real, k: real)
    requires TurnsAt(c, peak, s, k)
    ensures TurnsAt(TurningHalf(shape, c, s), peak, Double(s), k / 4.0)
  {
    TurnsHas(c, peak, s, k);
    var x := peak - Times(Times(k, s), s);
    TimesOfDouble(k, s);
    hide Times, TurnsAt, HasX;
    HalvesAlongX(shape, c, x, x + Times(k, s), x + Times(k, s) - k + Times(k, s));
    TurnsHas(TurningHalf(shape, c, s), peak, Double(s), k / 4.0);
  }

  lemma StraightIsFlat(shape: Curve -> Shape, dist: (Point, Point) -> real, c: Curve, x: real, y: real, z: real)
    requires Measures(shape, dist) && HasX(c, x, y, z) && (x <= y <= z || z <= y <= x) && x != z
    ensures shape(c) == Flat
  {
    ShapeAlongX(shape, dist, c);
  }

  lemma OtherHalfIsFlat(shape: Curve -> Shape, dist: (Point, Point) -> real, c: Curve, peak: real, s: real, k: real)
    requires Measures(shape, dist) && TurnsAt(c, peak, s, k)
    ensures var b := BezierKernel(shape); shape(if s < 0.5 then b.UpperHalf(c) else b.LowerHalf(c)) == Flat
  {
    var b := BezierKernel(shape);
    TurnsHas(c, peak, s, k);
    var x := peak - Times(Times(k, s), s);
    var y := x + Times(k, s);
    var z := y - k + Times(k, s);
    hide Measures, TurnsAt, HasX;
    HalvesAlongX(shape, c, x, y, z);
    TimesBetween(k, s);
    TimesCompare(k, 0.5, s);
    TimesOfConstant(k, 0.5);
    hide Times;
    if s < 0.5 {
      StraightIsFlat(shape, dist, b.UpperHalf(c), (x + 2.0 * y + z) / 4.0, (y + z) / 2.0, z);
    } else {
      StraightIsFlat(shape, dist, b.LowerHalf(c), x, (x + y) / 2.0, (x + 2.0 * y + z) / 4.0);
    }
  }

  // The segment across.

  /** The segment across the x axis at x. */
  function Across(x: real): Curve {
    Data([Point(x, -1.0, 0.0), Point(x, 1.0, 0.0)], 0.0, 1.0)
  }

  lemma AcrossIsFlat(shape: Curve -> Shape, dist: (Point, Point) -> real, x: real)
    requires Measures(shape, dist)
    ensures shape(Across(x)) == Flat
  {
    var c := Across(x);
    assert IsMeasured(shape, dist, c);
    DistanceOfSame(dist, c.poles[0], c.poles[1]);
    assert LengthOf(c.poles[..1], dist) == 0.0;
  }

  lemma PeakWithin(x: real, peak: real, s: real, k: real)
    requires 0.0 <= s <= 1.0 && peak == x + Times(Times(k, s), s)
    ensures x <= peak <= x + Times(k, s) || x + Times(k, s) <= peak <= x
  {
    TimesBetween(Times(k, s), s);
  }

  lemma TurningMeets(shape: Curve -> Shape, c: Curve, peak: real, s: real, k: real, tolerance: real)
    requires TurnsAt(c, peak, s, k) && tolerance > 0.0
    ensures var b := BezierKernel(shape); b.BoxOf(c).Intersects(b.BoxOf(Across(peak)), tolerance)
  {
    var ps := Across(peak).poles;
    PeakWithin(c.poles[0].x, peak, s, k);
    hide Times;
    forall i | 0 <= i < 3
      ensures LowOf(c.poles).x <= c.poles[i].x <= HighOf(c.poles).x
      ensures LowOf(c.poles).y <= 0.0 <= HighOf(c.poles).y && LowOf(c.poles).z <= 0.0 <= HighOf(c.poles).z
    {
      PolesInBox(c.poles, i);
    }
    forall i | 0 <= i < 2
      ensures LowOf(ps).x <= peak <= HighOf(ps).x && LowOf(ps).z <= 0.0 <= HighOf(ps).z
      ensures LowOf(ps).y <= ps[i].y <= HighOf(ps).y
    {
      PolesInBox(ps, i);
    }
    assert LowOf(c.poles).x <= peak <= HighOf(c.poles).x;
    assert ps[0].y == -1.0 && ps[1].y == 1.0;
    Overlap(LowOf(c.poles), HighOf(c.poles), LowOf(ps), HighOf(ps), Point(peak, 0.0, 0.0), tolerance);
  }

  lemma Overlap(low1: Point, high1: Point, low2: Point, high2: Point, p: Point, tolerance: real)
    requires tolerance > 0.0
    requires Box(low1, high1, 0.0, 1.0).Encloses(p) && Box(low2, high2, 0.0, 1.0).Encloses(p)
    ensures forall a, b, e, f :: Box(low1, high1, a, b).Intersects(Box(low2, high2, e, f), tolerance)
  {
  }

  // When the search ends.

  function Frac(x: real): real {
    x - x.Floor as real
  }

  /** The fractional part of 2^m * s. */
  function Orbit(s: real, m: nat): real {
    Frac(Times(Pow2(m) as real, s))
  }

  lemma FracOfShifted(x: real, n: int)
    ensures Frac(x - n as real) == Frac(x)
  {
    var f := x.Floor;
    assert (f - n) as real == f as real - n as real;
    FloorIs(x - n as real, f - n);
  }

  lemma FloorIs(x: real, f: int)
    requires f as real <= x < f as real + 1.0
    ensures x.Floor == f
  {
  }

  lemma OrbitOfDouble(s: real, m: nat)
    ensures Orbit(Double(s), m) == Orbit(s, m + 1)
  {
    var p := Pow2(m) as real;
    assert Pow2(m + 1) as real == 2.0 * p;
    TimesDoubled(p, s);
    FracOfShifted(Times(2.0 * p, s), Pow2(m));
    hide Frac, Pow2, Times;
  }

  lemma TimesDoubled(p: real, s: real)
    ensures Times(p, 2.0 * s) == Times(2.0 * p, s)
    ensures Times(p, 2.0 * s - 1.0) == Times(2.0 * p, s) - p
  {
  }

  lemma OrbitBegins(s: real)
    requires 0.0 <= s <= 1.0
    ensures IsNearEnd(Orbit(s, 0)) <==> IsNearEnd(s)
  {
    assert Times(Pow2(0) as real, s) == s;
    assert s < 1.0 ==> s.Floor == 0;
    assert s == 1.0 ==> s.Floor == 1;
  }

  /** One round: with one half flat, everything depends on the other. */
  lemma RoundOfOne<T>(k: Kernel<T>, c1: T, c2: T, tolerance: real, depth: nat, lower: bool)
    requires k.BoxOf(c1).Intersects(k.BoxOf(c2), tolerance) && k.shape(c2) == Flat && k.shape(c1) == Bent
    requires k.shape(if lower then k.UpperHalf(c1) else k.LowerHalf(c1)) == Flat
    ensures Ranges(k, c1, c2, tolerance, depth).Some?
            <==> depth > 0 && Ranges(k, if lower then k.LowerHalf(c1) else k.UpperHalf(c1), c2, tolerance,
                                     depth - 1).Some?
  {
    hide Box.Intersects;
  }

  lemma FlatPairEnds<T>(k: Kernel<T>, c1: T, c2: T, tolerance: real, depth: nat)
    requires k.shape(c1) == Flat && k.shape(c2) == Flat
    ensures Ranges(k, c1, c2, tolerance, depth).Some?
  {
    hide Box.Intersects;
  }

  ghost predicate ReachesEnd(s: real, depth: nat) {
    exists m: nat :: m <= depth && IsNearEnd(Orbit(s, m))
  }

  lemma ReachesEndStep(s: real, depth: nat)
    requires 0.0 <= s <= 1.0 && !IsNearEnd(s)
    ensures ReachesEnd(s, depth) <==> depth > 0 && ReachesEnd(Double(s), depth - 1)
  {
    OrbitBegins(s);
    hide Orbit, IsNearEnd, Double;
    if m: nat :| m <= depth && IsNearEnd(Orbit(s, m)) {
      OrbitOfDouble(s, m - 1);
      assert m - 1 <= depth - 1 && IsNearEnd(Orbit(Double(s), m - 1));
    }
    if depth > 0 {
      if m: nat :| m <= depth - 1 && IsNearEnd(Orbit(Double(s), m)) {
        OrbitOfDouble(s, m);
        assert IsNearEnd(Orbit(s, m + 1));
      }
    }
  }

  lemma TurningRound(shape: Curve -> Shape, dist: (Point, Point) -> real, c: Curve, peak: real, s: real, k: real,
                     tolerance: real, depth: nat)
    requires Measures(shape, dist) && TurnsAt(c, peak, s, k) && tolerance > 0.0
    ensures Ranges(BezierKernel(shape), c, Across(peak), tolerance, depth).Some?
            <==> || IsNearEnd(s)
                 || (depth > 0 && Ranges(BezierKernel(shape), TurningHalf(shape, c, s), Across(peak), tolerance,
                                         depth - 1).Some?)
  {
    var b := BezierKernel(shape);
    TurningShape(shape, dist, c, peak, s, k);
    AcrossIsFlat(shape, dist, peak);
    TurningMeets(shape, c, peak, s, k, tolerance);
    hide Measures, Ranges, Box.Intersects, IsNearEnd, TurnsAt;
    if IsNearEnd(s) {
      FlatPairEnds(b, c, Across(peak), tolerance, depth);
    } else {
      OtherHalfIsFlat(shape, dist, c, peak, s, k);
      RoundOfOne(b, c, Across(peak), tolerance, depth, s < 0.5);
    }
  }

  /** The search ends within a depth exactly if doubling the place of the turn gets near an end within as many steps. */
  lemma {:induction false} TurningEndsWithin(shape: Curve -> Shape, dist: (Point, Point) -> real, c: Curve, peak: real,
                                             s: real, k: real, tolerance: real, depth: nat)
    requires Measures(shape, dist) && TurnsAt(c, peak, s, k) && tolerance > 0.0
    ensures Ranges(BezierKernel(shape), c, Across(peak), tolerance, depth).Some? <==> ReachesEnd(s, depth)
    decreases depth
  {
    hide *;
    TurningRound(shape, dist, c, peak, s, k, tolerance, depth);
    RangeOfTurn(c, peak, s, k);
    if IsNearEnd(s) {
      NearEndReaches(s, depth);
    } else {
      ReachesEndStep(s, depth);
      if depth > 0 {
        HalfTurns(shape, c, peak, s, k);
        TurningEndsWithin(shape, dist, TurningHalf(shape, c, s), peak, Double(s), k / 4.0, tolerance, depth - 1);
      }
    }
  }

  lemma RangeOfTurn(c: Curve, peak: real, s: real, k: real)
    requires TurnsAt(c, peak, s, k)
    ensures 0.0 <= s <= 1.0
  {
  }

  lemma NearEndReaches(s: real, depth: nat)
    requires 0.0 <= s <= 1.0 && IsNearEnd(s)
    ensures ReachesEnd(s, depth)
  {
    OrbitBegins(s);
  }

  /** It ends exactly if for some m the fractional part of 2^m * s is near an end: at most 1/2 - 1/2.001 from 0 or 1. */
  lemma TurningEnds(shape: Curve -> Shape, dist: (Point, Point) -> real, c: Curve, peak: real, s: real, k: real,
                    tolerance: real)
    requires Measures(shape, dist) && TurnsAt(c, peak, s, k) && tolerance > 0.0
    ensures (exists depth :: Ranges(BezierKernel(shape), c, Across(peak), tolerance, depth).Some?)
            <==> exists m: nat :: IsNearEnd(Orbit(s, m))
  {
    hide Measures, Ranges, IsNearEnd, TurnsAt, Orbit;
    if depth :| Ranges(BezierKernel(shape), c, Across(peak), tolerance, depth).Some? {
      TurningEndsWithin(shape, dist, c, peak, s, k, tolerance, depth);
      var m: nat :| m <= depth && IsNearEnd(Orbit(s, m));
    }
    if m: nat :| IsNearEnd(Orbit(s, m)) {
      TurningEndsWithin(shape, dist, c, peak, s, k, tolerance, m);
    }
  }

  lemma {:induction false} OrbitOfThirds(s: real, m: nat)
    requires s == 1.0 / 3.0 || s == 2.0 / 3.0
    ensures !IsNearEnd(Orbit(s, m))
    decreases m
  {
    if m == 0 {
      OrbitBegins(s);
    } else {
      OrbitOfThirds(Double(s), m - 1);
      OrbitOfDouble(s, m - 1);
    }
  }

  /** Two curves that meet, but whose intersection is not found at any depth of the recursion: the turn is at two
      thirds. */
  lemma SearchNeverEnds(shape: Curve -> Shape, dist: (Point, Point) -> real, tolerance: real, depth: nat)
    requires Measures(shape, dist) && tolerance > 0.0
    ensures var c := Data([Point(0.0, 0.0, 0.0), Point(1.0, 0.0, 0.0), Point(0.5, 0.0, 0.0)], 0.0, 1.0);
            && Ranges(BezierKernel(shape), c, Across(2.0 / 3.0), tolerance, depth) == None
            && At(c, 2.0 / 3.0) == At(Across(2.0 / 3.0), 0.5)
  {
    hide Measures, Ranges, Blend, IsNearEnd, Orbit;
    var c: Curve := Data([Point(0.0, 0.0, 0.0), Point(1.0, 0.0, 0.0), Point(0.5, 0.0, 0.0)], 0.0, 1.0);
    var t := 2.0 / 3.0;
    assert TurnsAt(c, t, t, 1.5);
    TurningEndsWithin(shape, dist, c, t, t, 1.5, tolerance, depth);
    forall m: nat
      ensures !IsNearEnd(Orbit(t, m))
    {
      OrbitOfThirds(t, m);
    }
    assert Xs(c.poles) == [0.0, 1.0, 0.5] && Ys(c.poles) == Zs(c.poles) == [0.0, 0.0, 0.0];
    var s := Across(2.0 / 3.0);
    assert Xs(s.poles) == [2.0 / 3.0, 2.0 / 3.0] && Ys(s.poles) == [-1.0, 1.0] && Zs(s.poles) == [0.0, 0.0];
    BlendOfThree(0.0, 1.0, 0.5, 2.0 / 3.0);
    BlendOfThree(0.0, 0.0, 0.0, 2.0 / 3.0);
    BlendOfTwo(2.0 / 3.0, 2.0 / 3.0, 0.5);
    BlendOfTwo(-1.0, 1.0, 0.5);
    BlendOfTwo(0.0, 0.0, 0.5);
  }
}
