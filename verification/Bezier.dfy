/** Bezier curves under de Casteljau subdivision: a kernel that keeps every promise the intersection search relies
    on. */
module Bezier {
  import opened Boxes
  import opened Geometry
  import opened IntersectBSplines

  // ----- one coordinate -----

  function Lerp(t: real, a: real, b: real): real {
    (1.0 - t) * a + t * b
  }

  /** The value at t of the polynomial with these Bezier coefficients. */
  function Blend(p: seq<real>, t: real): real
    requires p != []
  {
    if |p| == 1 then p[0] else Lerp(t, Blend(p[..|p| - 1], t), Blend(p[1..], t))
  }

  /** One round of de Casteljau's scheme. */
  function Step(p: seq<real>, u: real): (r: seq<real>)
    requires p != []
    ensures |r| == |p| - 1 && forall i :: 0 <= i < |r| ==> r[i] == Lerp(u, p[i], p[i + 1])
  {
    seq(|p| - 1, i requires 0 <= i < |p| - 1 => Lerp(u, p[i], p[i + 1]))
  }

  /** The coefficients of the part between u and v. */
  function Sub(p: seq<real>, u: real, v: real): (r: seq<real>)
    requires p != []
    ensures |r| == |p|
    decreases |p|
  {
    if |p| == 1 then p else Sub(Step(p, u), u, v) + [Blend(p, v)]
  }

  lemma Mix(t: real, u: real, a: real, b: real, c: real)
    ensures Lerp(t, Lerp(u, a, b), Lerp(u, b, c)) == Lerp(u, Lerp(t, a, b), Lerp(t, b, c))
  {
  }

  lemma {:induction false} BlendOfStep(p: seq<real>, u: real, t: real)
    requires |p| >= 2
    ensures Blend(Step(p, u), t) == Lerp(u, Blend(p[..|p| - 1], t), Blend(p[1..], t))
    decreases |p|
  {
    hide Lerp;
    var n := |p| - 1;
    if n > 1 {
      var s := Step(p, u);
      assert s[..n - 1] == Step(p[..n], u) && s[1..] == Step(p[1..], u);
      BlendOfStep(p[..n], u, t);
      BlendOfStep(p[1..], u, t);
      assert p[..n][1..] == p[1..][..n - 1];
      Mix(t, u, Blend(p[..n][..n - 1], t), Blend(p[1..n], t), Blend(p[1..][1..], t));
    }
  }

  lemma StepsCommute(p: seq<real>, u: real, v: real)
    requires |p| >= 2
    ensures Step(Step(p, u), v) == Step(Step(p, v), u)
  {
    hide Lerp;
    forall i | 0 <= i < |p| - 2
      ensures Step(Step(p, u), v)[i] == Step(Step(p, v), u)[i]
    {
      Mix(v, u, p[i], p[i + 1], p[i + 2]);
    }
  }

  /** All but the first coefficient of a part come from the curve that one round at v leaves. */
  lemma {:induction false} SubTail(p: seq<real>, u: real, v: real)
    requires |p| >= 2
    ensures Sub(p, u, v)[1..] == Sub(Step(p, v), u, v)
    decreases |p|
  {
    hide Lerp;
    BlendOfStep(p, v, v);
    assert Blend(Step(p, v), v) == Blend(p, v);
    if |p| > 2 {
      SubTail(Step(p, u), u, v);
      StepsCommute(p, u, v);
      assert Sub(p, u, v)[1..] == Sub(Step(p, u), u, v)[1..] + [Blend(p, v)];
    }
  }

  lemma Reparametrize(s: real, u: real, v: real, a: real, b: real)
    ensures Lerp(s, Lerp(u, a, b), Lerp(v, a, b)) == Lerp(u + s * (v - u), a, b)
  {
  }

  /** Subdivision: the part between u and v is the curve itself, with the parameter rescaled. */
  lemma {:induction false} BlendOfSub(p: seq<real>, u: real, v: real, s: real)
    requires p != []
    ensures Blend(Sub(p, u, v), s) == Blend(p, u + s * (v - u))
    decreases |p|
  {
    hide Lerp;
    var n := |p| - 1;
    if n > 0 {
      var w := u + s * (v - u);
      var q := Sub(p, u, v);
      SubTail(p, u, v);
      assert q[..n] == Sub(Step(p, u), u, v);
      BlendOfSub(Step(p, u), u, v, s);
      BlendOfSub(Step(p, v), u, v, s);
      BlendOfStep(p, u, w);
      BlendOfStep(p, v, w);
      Reparametrize(s, u, v, Blend(p[..n], w), Blend(p[1..], w));
    }
  }

  lemma ProductNonNegative(t: real, d: real)
    requires t >= 0.0 && d >= 0.0
    ensures t * d >= 0.0
  {
  }

  lemma Between(t: real, lo: real, hi: real, a: real, b: real)
    requires 0.0 <= t <= 1.0 && lo <= a <= hi && lo <= b <= hi
    ensures lo <= Lerp(t, a, b) <= hi
  {
    ProductNonNegative(1.0 - t, a - lo);
    ProductNonNegative(t, b - lo);
    assert Lerp(t, a, b) == lo + (1.0 - t) * (a - lo) + t * (b - lo);
    ProductNonNegative(1.0 - t, hi - a);
    ProductNonNegative(t, hi - b);
    assert Lerp(t, a, b) == hi - (1.0 - t) * (hi - a) - t * (hi - b);
  }

  /** Convex hull: between 0 and 1 the values stay within the coefficients. */
  lemma {:induction false} BlendInHull(p: seq<real>, t: real, lo: real, hi: real)
    requires p != [] && 0.0 <= t <= 1.0
    requires forall i :: 0 <= i < |p| ==> lo <= p[i] <= hi
    ensures lo <= Blend(p, t) <= hi
    decreases |p|
  {
    hide Lerp;
    if |p| > 1 {
      BlendInHull(p[..|p| - 1], t, lo, hi);
      BlendInHull(p[1..], t, lo, hi);
      Between(t, lo, hi, Blend(p[..|p| - 1], t), Blend(p[1..], t));
    }
  }

  predicate Constant(p: seq<real>, k: real) {
    forall i :: 0 <= i < |p| ==> p[i] == k
  }

  lemma SameSlopes(u: real, v: real, a: real, b: real, k: real)
    requires u != v && Lerp(u, a, b) == k && Lerp(v, a, b) == k
    ensures a == k && b == k
  {
    assert (u - v) * (b - a) == 0.0;
    assert b - a == 0.0;
  }

  /** A polynomial that is constant on a part is constant altogether. */
  lemma {:induction false} ConstantPart(p: seq<real>, u: real, v: real, k: real)
    requires p != [] && u != v && Constant(Sub(p, u, v), k)
    ensures Constant(p, k)
    decreases |p|
  {
    hide Lerp;
    var n := |p| - 1;
    if n > 0 {
      var q := Sub(p, u, v);
      SubTail(p, u, v);
      assert Constant(q[..n], k) && Constant(q[1..], k);
      assert q[..n] == Sub(Step(p, u), u, v);
      ConstantPart(Step(p, u), u, v, k);
      ConstantPart(Step(p, v), u, v, k);
      forall i | 0 <= i < |p|
        ensures p[i] == k
      {
        var j := if i < n then i else i - 1;
        assert Step(p, u)[j] == k && Step(p, v)[j] == k;
        SameSlopes(u, v, p[j], p[j + 1], k);
      }
    }
  }

  // ----- curves -----

  /** A Bezier curve over the parameters from first to last. */
  datatype Data = Data(poles: seq<Point>, first: real, last: real)

  type Curve = c: Data | c.poles != [] && c.first < c.last witness Data([Point(0.0, 0.0, 0.0)], 0.0, 1.0)

  function Xs(ps: seq<Point>): (r: seq<real>)
    ensures |r| == |ps|
  {
    seq(|ps|, i requires 0 <= i < |ps| => ps[i].x)
  }

  function Ys(ps: seq<Point>): (r: seq<real>)
    ensures |r| == |ps|
  {
    seq(|ps|, i requires 0 <= i < |ps| => ps[i].y)
  }

  function Zs(ps: seq<Point>): (r: seq<real>)
    ensures |r| == |ps|
  {
    seq(|ps|, i requires 0 <= i < |ps| => ps[i].z)
  }

  /** The parameter t of c, rescaled to the range from 0 to 1. */
  function Local(c: Curve, t: real): real {
    (t - c.first) / (c.last - c.first)
  }

  function At(c: Curve, t: real): Point {
    var s := Local(c, t);
    Point(Blend(Xs(c.poles), s), Blend(Ys(c.poles), s), Blend(Zs(c.poles), s))
  }

  function Zip(xs: seq<real>, ys: seq<real>, zs: seq<real>): (r: seq<Point>)
    requires |xs| == |ys| == |zs|
    ensures |r| == |xs| && Xs(r) == xs && Ys(r) == ys && Zs(r) == zs
  {
    seq(|xs|, i requires 0 <= i < |xs| => Point(xs[i], ys[i], zs[i]))
  }

  function SubPoles(ps: seq<Point>, u: real, v: real): (r: seq<Point>)
    requires ps != []
    ensures |r| == |ps| && Xs(r) == Sub(Xs(ps), u, v) && Ys(r) == Sub(Ys(ps), u, v) && Zs(r) == Sub(Zs(ps), u, v)
  {
    Zip(Sub(Xs(ps), u, v), Sub(Ys(ps), u, v), Sub(Zs(ps), u, v))
  }

  function Trim(c: Curve, a: real, b: real): Curve {
    if a < b then Data(SubPoles(c.poles, Local(c, a), Local(c, b)), a, b) else c
  }

  /** The Bezier curves as a kernel; how flat a curve is may be judged in any way. */
  function BezierKernel(shape: Curve -> Shape): Kernel<Curve> {
    Kernel((c: Curve) => c.first, (c: Curve) => c.last, (c: Curve) => c.poles, shape, At, Trim)
  }

  lemma LocalOfMid(c: Curve)
    ensures Local(c, c.first) == 0.0 && Local(c, 0.5 * (c.first + c.last)) == 0.5 && Local(c, c.last) == 1.0
  {
    var w := c.last - c.first;
    assert 0.5 * (c.first + c.last) - c.first == 0.5 * w;
    Ratio(0.5, w);
    Ratio(1.0, w);
    Ratio(0.0, w);
  }

  lemma Ratio(q: real, w: real)
    requires w > 0.0
    ensures (q * w) / w == q
  {
  }

  lemma LocalOfPart(c: Curve, a: real, b: real, t: real)
    requires a < b
    ensures Local(c, a) + ((t - a) / (b - a)) * (Local(c, b) - Local(c, a)) == Local(c, t)
  {
    var w := c.last - c.first;
    var s := (t - a) / (b - a);
    assert s * (b - a) == t - a;
    Quotients(a - c.first, b - c.first, t - c.first, s, w);
  }

  lemma Quotients(x: real, y: real, z: real, s: real, w: real)
    requires w > 0.0 && s * (y - x) == z - x
    ensures x / w + s * (y / w - x / w) == z / w
  {
    assert y / w - x / w == (y - x) / w;
    assert s * ((y - x) / w) == (s * (y - x)) / w;
  }

  lemma BlendOfPart(p: seq<real>, c: Curve, a: real, b: real, t: real)
    requires a < b && p != []
    ensures Blend(Sub(p, Local(c, a), Local(c, b)), (t - a) / (b - a)) == Blend(p, Local(c, t))
  {
    hide Blend, Sub, Local;
    var s, u, v := (t - a) / (b - a), Local(c, a), Local(c, b);
    LocalOfPart(c, a, b, t);
    BlendOfSub(p, u, v, s);
    assert u + s * (v - u) == Local(c, t);
  }

  /** Trimming a curve keeps its points. */
  lemma TrimKeepsPoints(c: Curve, a: real, b: real, t: real)
    requires a < b
    ensures At(Trim(c, a, b), t) == At(c, t)
  {
    BlendOfPart(Xs(c.poles), c, a, b, t);
    BlendOfPart(Ys(c.poles), c, a, b, t);
    BlendOfPart(Zs(c.poles), c, a, b, t);
    hide Blend, Sub;
    assert Local(Trim(c, a, b), t) == (t - a) / (b - a);
  }

  lemma {:induction false} PolesInBox(ps: seq<Point>, i: nat)
    requires i < |ps|
    ensures LowOf(ps).x <= ps[i].x <= HighOf(ps).x
    ensures LowOf(ps).y <= ps[i].y <= HighOf(ps).y
    ensures LowOf(ps).z <= ps[i].z <= HighOf(ps).z
  {
    if i < |ps| - 1 {
      PolesInBox(ps[..|ps| - 1], i);
    }
  }

  lemma LocalInUnit(c: Curve, t: real)
    requires c.first <= t <= c.last
    ensures 0.0 <= Local(c, t) <= 1.0
  {
    UnitQuotient(t - c.first, c.last - c.first);
  }

  lemma UnitQuotient(x: real, w: real)
    requires 0.0 <= x <= w && w > 0.0
    ensures 0.0 <= x / w <= 1.0
  {
    var q := x / w;
    assert q * w == x;
    if q > 1.0 {
      ProductPositive(q - 1.0, w);
    } else if q < 0.0 {
      ProductPositive(-q, w);
    }
  }

  lemma ProductPositive(a: real, b: real)
    requires a > 0.0 && b > 0.0
    ensures a * b > 0.0
  {
  }

  /** A Bezier curve stays in the box of its poles. */
  lemma CurveInBox(c: Curve, t: real)
    requires c.first <= t <= c.last
    ensures Box(LowOf(c.poles), HighOf(c.poles), c.first, c.last).Encloses(At(c, t))
  {
    var lo, hi := LowOf(c.poles), HighOf(c.poles);
    forall i | 0 <= i < |c.poles|
      ensures lo.x <= Xs(c.poles)[i] <= hi.x && lo.y <= Ys(c.poles)[i] <= hi.y && lo.z <= Zs(c.poles)[i] <= hi.z
    {
      PolesInBox(c.poles, i);
    }
    LocalInUnit(c, t);
    BlendInHull(Xs(c.poles), Local(c, t), lo.x, hi.x);
    BlendInHull(Ys(c.poles), Local(c, t), lo.y, hi.y);
    BlendInHull(Zs(c.poles), Local(c, t), lo.z, hi.z);
  }

  lemma BezierIsLawful(shape: Curve -> Shape)
    ensures Lawful(BezierKernel(shape))
  {
    var k := BezierKernel(shape);
    forall c: Curve, t | k.InRange(c, t)
      ensures k.BoxOf(c).Encloses(k.at(c, t))
    {
      CurveInBox(c, t);
    }
    forall c: Curve, a, b | k.first(c) <= a < b <= k.last(c)
      ensures TrimmedWell(k, c, a, b)
    {
      forall t | a <= t <= b
        ensures k.at(k.trim(c, a, b), t) == k.at(c, t)
      {
        TrimKeepsPoints(c, a, b, t);
      }
    }
  }

  // ----- single points -----

  /** All poles coincide. */
  ghost predicate IsPoint(c: Curve) {
    forall i :: 0 <= i < |c.poles| ==> c.poles[i] == c.poles[0]
  }

  lemma PointPart(c: Curve, a: real, b: real)
    requires a < b && IsPoint(Trim(c, a, b))
    ensures IsPoint(c)
  {
    var u, v := Local(c, a), Local(c, b);
    assert u != v by {
      assert (u - v) * (c.last - c.first) == a - b;
    }
    var d := Trim(c, a, b);
    var q := d.poles[0];
    assert forall i :: 0 <= i < |d.poles| ==> Xs(d.poles)[i] == q.x && Ys(d.poles)[i] == q.y && Zs(d.poles)[i] == q.z;
    ConstantPart(Xs(c.poles), u, v, q.x);
    ConstantPart(Ys(c.poles), u, v, q.y);
    ConstantPart(Zs(c.poles), u, v, q.z);
    forall i | 0 <= i < |c.poles|
      ensures c.poles[i] == q
    {
      assert Xs(c.poles)[i] == q.x && Ys(c.poles)[i] == q.y && Zs(c.poles)[i] == q.z;
    }
  }

  ghost predicate SeesPoints(shape: Curve -> Shape) {
    forall c: Curve :: shape(c).Degenerate? <==> IsPoint(c)
  }

  lemma {:induction false} PointSubCurve(shape: Curve -> Shape, c: Curve, path: seq<bool>)
    requires IsPoint(SubCurve(BezierKernel(shape), c, path))
    ensures IsPoint(c)
    decreases |path|
  {
    if path != [] {
      var k := BezierKernel(shape);
      PointSubCurve(shape, if path[0] then k.UpperHalf(c) else k.LowerHalf(c), path[1..]);
      var m := k.Mid(c);
      assert c.first < m < c.last;
      if path[0] {
        PointPart(c, m, c.last);
      } else {
        PointPart(c, c.first, m);
      }
    }
  }

  lemma BezierIsRegular(shape: Curve -> Shape, c: Curve)
    requires SeesPoints(shape) && !IsPoint(c)
    ensures Regular(BezierKernel(shape), c)
  {
    var k := BezierKernel(shape);
    forall path
      ensures !k.shape(SubCurve(k, c, path)).Degenerate?
    {
      if IsPoint(SubCurve(k, c, path)) {
        PointSubCurve(shape, c, path);
      }
    }
  }

  /** A near pair of two Bezier curves is found exactly when neither curve has shrunk to a point. */
  lemma BezierIntersections(shape: Curve -> Shape, c1: Curve, c2: Curve, tolerance: real, depth: nat, u: real, v: real)
    requires SeesPoints(shape) && IsNearPair(BezierKernel(shape), c1, c2, tolerance, u, v)
    requires Ranges(BezierKernel(shape), c1, c2, tolerance, depth).Some?
    ensures (exists q :: q in FinalCandidates(Ranges(BezierKernel(shape), c1, c2, tolerance, depth).value, tolerance)
                         && q.b1.Covers(u) && q.b2.Covers(v))
            <==> !IsPoint(c1) && !IsPoint(c2)
  {
    var k := BezierKernel(shape);
    if !IsPoint(c1) && !IsPoint(c2) {
      BezierIsLawful(shape);
      BezierIsRegular(shape, c1);
      BezierIsRegular(shape, c2);
      var q := NoIntersectionLost(k, c1, c2, tolerance, depth, u, v);
    } else {
      DegenerateMeetsNothing(k, c1, c2, tolerance, depth);
      var hulls := Ranges(k, c1, c2, tolerance, depth).value;
      assert FirstBoxes(hulls) == [] && Candidates([], [], tolerance) == [];
    }
  }
}
