/** Fitting B-spline curves together in parameter space and joining them. */
module ConcatCurves {
  import opened Concatenation
  import opened Geometry
  import opened Wrappers

  function Scale(c: Curve, umin: real, umax: real): real
    requires c.WellFormed() && c.FirstParameter() < c.LastParameter()
  {
    (umax - umin) / (c.LastParameter() - c.FirstParameter())
  }

  function Offset(c: Curve, umin: real, umax: real): real
    requires c.WellFormed() && c.FirstParameter() < c.LastParameter()
  {
    umin - Scale(c, umin, umax) * c.FirstParameter()
  }

  /** The parameter of the changed curve that belongs to x. */
  function MapTo(c: Curve, umin: real, umax: real, x: real): real
    requires c.WellFormed() && c.FirstParameter() < c.LastParameter()
  {
    Scale(c, umin, umax) * x + Offset(c, umin, umax)
  }

  function Reparametrized(c: Curve, umin: real, umax: real): (r: Curve)
    requires c.WellFormed() && c.FirstParameter() < c.LastParameter()
    ensures r.WellFormed()
  {
    if c.FirstParameter() != umin || c.LastParameter() != umax then
      c.(knots := seq(|c.knots|, i requires 0 <= i < |c.knots| => MapTo(c, umin, umax, c.knots[i])))
    else
      c
  }

  lemma MapToEnds(c: Curve, umin: real, umax: real, x: real)
    requires c.WellFormed() && c.FirstParameter() < c.LastParameter()
    ensures MapTo(c, umin, umax, c.FirstParameter()) == umin
    ensures MapTo(c, umin, umax, c.LastParameter()) == umax
    ensures MapTo(c, c.FirstParameter(), c.LastParameter(), x) == x
  {
    var a, b := c.FirstParameter(), c.LastParameter();
    var scale := (umax - umin) / (b - a);
    assert scale * (b - a) == umax - umin;
    assert scale * (b - a) == scale * b - scale * a;
    assert (b - a) / (b - a) == 1.0;
  }

  lemma ReparametrizedKnots(c: Curve, umin: real, umax: real)
    requires c.WellFormed() && c.FirstParameter() < c.LastParameter()
    ensures var r := Reparametrized(c, umin, umax);
            && |r.knots| == |c.knots| && r.mults == c.mults && r.poles == c.poles && r.weights == c.weights
            && r.FirstParameter() == umin && r.LastParameter() == umax
            && forall i :: 0 <= i < |c.knots| ==> r.knots[i] == MapTo(c, umin, umax, c.knots[i])
  {
    hide MapTo;
    MapToEnds(c, umin, umax, 0.0);
    forall i | 0 <= i < |c.knots|
      ensures MapTo(c, c.FirstParameter(), c.LastParameter(), c.knots[i]) == c.knots[i]
    {
      MapToEnds(c, umin, umax, c.knots[i]);
    }
  }

  lemma ScaledOrder(scale: real, offset: real, x: real, y: real)
    requires scale > 0.0 && x < y
    ensures scale * x + offset < scale * y + offset
  {
    assert scale * (y - x) > 0.0;
  }

  lemma PositiveScale(c: Curve, umin: real, umax: real)
    requires c.WellFormed() && c.FirstParameter() < c.LastParameter() && umin < umax
    ensures Scale(c, umin, umax) > 0.0
  {
  }

  lemma MapToIncreases(c: Curve, umin: real, umax: real, x: real, y: real)
    requires c.WellFormed() && c.FirstParameter() < c.LastParameter() && umin < umax && x < y
    ensures MapTo(c, umin, umax, x) < MapTo(c, umin, umax, y)
  {
    hide Scale, Offset;
    PositiveScale(c, umin, umax);
    ScaledOrder(Scale(c, umin, umax), Offset(c, umin, umax), x, y);
  }

  lemma ReparametrizedIsValid(c: Curve, degree: nat, umin: real, umax: real)
    requires Valid(c, degree) && umin < umax
    ensures c.FirstParameter() < c.LastParameter() && Valid(Reparametrized(c, umin, umax), degree)
  {
    hide Reparametrized, Total, MapTo;
    ReparametrizedKnots(c, umin, umax);
    var r := Reparametrized(c, umin, umax);
    forall i, j | 0 <= i < j < |r.knots|
      ensures r.knots[i] < r.knots[j]
    {
      MapToIncreases(c, umin, umax, c.knots[i], c.knots[j]);
    }
  }

  /** t' is t under an increasing affine map. */
  ghost predicate IsScaled(t': seq<real>, t: seq<real>, scale: real, offset: real) {
    |t'| == |t| && scale > 0.0 && forall i :: 0 <= i < |t| ==> t'[i] == scale * t[i] + offset
  }

  lemma ScaledRatio(scale: real, offset: real, x: real, a: real, b: real, x': real, a': real, b': real)
    requires scale > 0.0 && x' == scale * x + offset && a' == scale * a + offset && b' == scale * b + offset
    ensures Ratio(x', a', b') == Ratio(x, a, b)
  {
    assert x' - a' == scale * (x - a) && b' - a' == scale * (b - a);
    if a != b {
      var q := (x - a) / (b - a);
      assert q * (b - a) == x - a;
      assert scale * (b - a) != 0.0;
      assert q * (scale * (b - a)) == scale * (x - a);
      QuotientIs(scale * (x - a), scale * (b - a), q);
    }
  }

  lemma QuotientIs(x: real, y: real, q: real)
    requires y != 0.0 && q * y == x
    ensures x / y == q
  {
    var d := x / y;
    assert d * y == x;
    assert (d - q) * y == 0.0;
  }

  lemma {:induction false} ScaledDeBoor(t': seq<real>, t: seq<real>, p: seq<real>, scale: real, offset: real,
                                        degree: nat, x: real, x': real, r: nat, i: nat)
    requires |t| == |p| + degree + 1 && IsScaled(t', t, scale, offset) && r <= degree && r <= i < |p|
    requires x' == scale * x + offset
    ensures DeBoor(t', p, degree, x', r, i) == DeBoor(t, p, degree, x, r, i)
    decreases r
  {
    hide Ratio, Mix, DeBoor;
    if r > 0 {
      ScaledDeBoor(t', t, p, scale, offset, degree, x, x', r - 1, i - 1);
      ScaledDeBoor(t', t, p, scale, offset, degree, x, x', r - 1, i);
      var j := i + degree + 1 - r;
      assert t'[i] == scale * t[i] + offset && t'[j] == scale * t[j] + offset;
      ScaledRatio(scale, offset, x, t[i], t[j], x', t'[i], t'[j]);
      DeBoorStep(t, p, degree, x, r, i);
      DeBoorStep(t', p, degree, x', r, i);
    } else {
      DeBoorBase(t, p, degree, x, i);
      DeBoorBase(t', p, degree, x', i);
    }
  }

  lemma {:induction false} ScaledFlat(knots': seq<real>, knots: seq<real>, mults: seq<nat>, scale: real, offset: real)
    requires |knots| == |mults| && IsScaled(knots', knots, scale, offset)
    ensures IsScaled(Flat(knots', mults), Flat(knots, mults), scale, offset)
  {
    hide Total;
    if knots != [] {
      var n := |knots| - 1;
      var u, v := knots[n], scale * knots[n] + offset;
      ScaledFlat(knots'[..n], knots[..n], mults[..n], scale, offset);
      ScaledSum(Flat(knots'[..n], mults[..n]), Repeated(v, mults[n]), Flat(knots[..n], mults[..n]),
                Repeated(u, mults[n]),
                scale, offset);
    }
  }

  lemma ScaledSum(a': seq<real>, b': seq<real>, a: seq<real>, b: seq<real>, scale: real, offset: real)
    requires IsScaled(a', a, scale, offset) && IsScaled(b', b, scale, offset)
    ensures IsScaled(a' + b', a + b, scale, offset)
  {
  }

  /** The changed curve has the same values, at the mapped parameters. */
  lemma ReparametrizedKeepsCurve(c: Curve, degree: nat, umin: real, umax: real, f: (Point, real) -> real, k: nat,
                                 x: real)
    requires Valid(c, degree) && umin < umax && HasSpan(c, degree, k)
    ensures c.FirstParameter() < c.LastParameter()
    ensures var r := Reparametrized(c, umin, umax);
            HasSpan(r, degree, k) && SpanValue(r, degree, f, k, MapTo(c, umin, umax, x))
                == SpanValue(c, degree, f, k, x)
  {
    hide Reparametrized, Scale, Offset, DeBoor, Flat;
    ReparametrizedKnots(c, umin, umax);
    var r := Reparametrized(c, umin, umax);
    var scale, offset := Scale(c, umin, umax), Offset(c, umin, umax);
    PositiveScale(c, umin, umax);
    assert Controls(r, f) == Controls(c, f);
    ScaledFlat(r.knots, c.knots, c.mults, scale, offset);
    ScaledDeBoor(FlatKnots(r), FlatKnots(c), Controls(c, f), scale, offset, degree, x,
                 MapTo(c, umin, umax, x), degree, k);
  }

  /** The parameter length of a curve in the result. */
  function StepLength(c: Curve, parByLength: bool, length: real, totalLen: real): real
    requires c.WellFormed() && (parByLength ==> totalLen != 0.0)
  {
    if parByLength then length / totalLen else c.LastParameter() - c.FirstParameter()
  }

  function Steps(cs: seq<Curve>, parByLength: bool, lengths: seq<real>): (r: seq<real>)
    requires AllWellFormed(cs) && |lengths| == |cs| && (parByLength ==> Sum(lengths, |cs|) != 0.0)
    ensures |r| == |cs|
    ensures forall i :: 0 <= i < |cs| ==> r[i] == StepLength(cs[i], parByLength, lengths[i], Sum(lengths, |cs|))
  {
    seq(|cs|, i requires 0 <= i < |cs| => StepLength(cs[i], parByLength, lengths[i], Sum(lengths, |cs|)))
  }

  /** The sum of the first n numbers. */
  function Sum(s: seq<real>, n: nat): real
    requires n <= |s|
  {
    if n == 0 then 0.0 else Sum(s, n - 1) + s[n - 1]
  }

  lemma {:induction false} SumOfSteps(cs: seq<Curve>, lengths: seq<real>, n: nat)
    requires AllWellFormed(cs) && |lengths| == |cs| && Sum(lengths, |cs|) != 0.0 && n <= |cs|
    ensures Sum(Steps(cs, true, lengths), n) == Sum(lengths, n) / Sum(lengths, |cs|)
  {
    hide Steps;
    var total := Sum(lengths, |cs|);
    if n > 0 {
      SumOfSteps(cs, lengths, n - 1);
      AddQuotients(Sum(lengths, n - 1), lengths[n - 1], total);
    } else {
      QuotientIs(0.0, total, 0.0);
    }
  }

  lemma AddQuotients(x: real, y: real, d: real)
    requires d != 0.0
    ensures x / d + y / d == (x + y) / d
  {
    var u, v := x / d, y / d;
    assert u * d == x && v * d == y;
    assert (u + v) * d == u * d + v * d;
    QuotientIs(x + y, d, u + v);
  }

  /** Measured by length, the whole curve ends at parameter 1. */
  lemma UnitRange(cs: seq<Curve>, lengths: seq<real>)
    requires AllWellFormed(cs) && |lengths| == |cs| && Sum(lengths, |cs|) != 0.0
    ensures Sum(Steps(cs, true, lengths), |cs|) == 1.0
  {
    hide *;
    SumOfSteps(cs, lengths, |cs|);
    QuotientIs(Sum(lengths, |cs|), Sum(lengths, |cs|), 1.0);
  }

  ghost predicate AllProper(cs: seq<Curve>) {
    AllWellFormed(cs) && forall i :: 0 <= i < |cs| ==> cs[i].FirstParameter() < cs[i].LastParameter()
  }

  function LinedCurve(cs: seq<Curve>, steps: seq<real>, i: nat): (r: Curve)
    requires AllProper(cs) && |steps| == |cs| && i < |cs|
    ensures r.WellFormed()
  {
    Reparametrized(cs[i], Sum(steps, i), Sum(steps, i + 1))
  }

  /** The curves, each with the parameter range that begins where the one before ends. */
  function Lined(cs: seq<Curve>, steps: seq<real>): (r: seq<Curve>)
    requires AllProper(cs) && |steps| == |cs|
    ensures |r| == |cs| && AllWellFormed(r)
    ensures forall i :: 0 <= i < |cs| ==> r[i] == LinedCurve(cs, steps, i)
  {
    seq(|cs|, i requires 0 <= i < |cs| => LinedCurve(cs, steps, i))
  }

  predicate TooFar(c: Curve, e: Curve, tolerance: real)
    requires c.WellFormed() && e.WellFormed()
  {
    SquareDistance(c.poles[|c.poles| - 1], e.poles[0]) > tolerance * tolerance
  }

  /** The end of c and the start of e, at distance d, are too far apart exactly if d exceeds the tolerance. */
  lemma TooFarByDistance(c: Curve, e: Curve, tolerance: real, d: real)
    requires c.WellFormed() && e.WellFormed() && d >= 0.0 && tolerance >= 0.0
    requires Square(d) == SquareDistance(c.poles[|c.poles| - 1], e.poles[0])
    ensures TooFar(c, e, tolerance) <==> d > tolerance
  {
    hide SquareDistance;
    assert TooFar(c, e, tolerance) <==> Square(d) > Square(tolerance);
    hide Square;
    if d > tolerance {
      SquareGrows(tolerance, d);
    } else {
      SquareGrows(d, tolerance);
    }
  }

  method CheckConnected(curves: seq<Curve>, tolerance: real) returns (connected: bool)
    requires AllWellFormed(curves)
    ensures connected <==> forall i {:trigger curves[i]} :: 0 < i < |curves| ==>
            !TooFar(curves[i - 1], curves[i], tolerance)
  {
    hide TooFar;
    connected := true;
    var i := 1;
    while i < |curves|
      invariant forall j {:trigger curves[j]} :: 0 < j < i && j < |curves| ==>
                !TooFar(curves[j - 1], curves[j], tolerance)
    {
      if TooFar(curves[i - 1], curves[i], tolerance) {
        return false;
      }
      i := i + 1;
    }
  }

  method LineUp(curves: seq<Curve>, parByLength: bool, lengths: seq<real>) returns (lined: seq<Curve>)
    requires AllProper(curves)
    requires |lengths| == |curves| && (parByLength ==> Sum(lengths, |curves|) != 0.0)
    ensures lined == Lined(curves, Steps(curves, parByLength, lengths))
  {
    hide Reparametrized, StepLength, Lined, Steps;
    var totalLen := 0.0;
    for i := 0 to |curves|
      invariant totalLen == Sum(lengths, i)
    {
      totalLen := totalLen + lengths[i];
    }
    ghost var steps := Steps(curves, parByLength, lengths);
    lined := [];
    var startPar := 0.0;
    for i := 0 to |curves|
      invariant startPar == Sum(steps, i)
      invariant |lined| == i && forall j :: 0 <= j < i ==> lined[j] == Lined(curves, steps)[j]
    {
      var c := curves[i];
      var stopPar := startPar + StepLength(c, parByLength, lengths[i], totalLen);
      lined := lined + [Reparametrized(c, startPar, stopPar)];
      startPar := stopPar;
    }
  }

  /** The curves all have the given degree. None stands for the null handle. */
  method ConcatCurves(curves: seq<Curve>, degree: nat, parByLength: bool, lengths: seq<real>, tolerance: real)
    returns (r: Option<Curve>)
    requires AllProper(curves) && degree > 0 && tolerance >= 0.0
    requires |lengths| == |curves| && (parByLength && |curves| > 1 ==> Sum(lengths, |curves|) != 0.0)
    ensures r ==
            if curves == [] then None
            else if |curves| == 1 then Some(curves[0])
            else if exists i {:trigger curves[i]} ::
                      0 < i < |curves| && TooFar(curves[i - 1], curves[i], tolerance) then None
            else Some(Joined(Lined(curves, Steps(curves, parByLength, lengths)), degree, false))
  {
    hide Joined, Reparametrized, TooFar, Lined, Steps;
    if |curves| == 0 {
      return None;
    } else if |curves| == 1 {
      return Some(curves[0]);
    }
    var connected := CheckConnected(curves, tolerance);
    if !connected {
      return None;
    }
    var lined := LineUp(curves, parByLength, lengths);
    var c := ConcatenateC0(lined, degree);
    r := Some(c);
  }

  /** The curves meet in space. */
  ghost predicate PolesMeet(cs: seq<Curve>)
    requires AllWellFormed(cs)
  {
    forall i {:trigger cs[i]} :: 0 < i < |cs| ==>
      var c := cs[i - 1];
      c.poles[|c.poles| - 1] == cs[i].poles[0] && c.weights[|c.weights| - 1] == cs[i].weights[0]
  }

  ghost predicate AllPositive(steps: seq<real>) {
    forall i :: 0 <= i < |steps| ==> steps[i] > 0.0
  }

  lemma LinedAt(cs: seq<Curve>, steps: seq<real>, degree: nat, i: nat)
    requires AllProper(cs) && AllValid(cs, degree) && |steps| == |cs| && AllPositive(steps) && i < |cs|
    ensures var r := Lined(cs, steps)[i];
            && Valid(r, degree) && r.WellFormed() && r.poles == cs[i].poles && r.weights == cs[i].weights
            && r.FirstParameter() == Sum(steps, i) && r.LastParameter() == Sum(steps, i + 1)
  {
    hide Reparametrized, Valid;
    assert steps[i] > 0.0;
    ReparametrizedIsValid(cs[i], degree, Sum(steps, i), Sum(steps, i + 1));
    ReparametrizedKnots(cs[i], Sum(steps, i), Sum(steps, i + 1));
  }

  lemma PolesMeetAt(cs: seq<Curve>, i: nat)
    requires AllWellFormed(cs) && PolesMeet(cs) && 0 < i < |cs|
    ensures var c := cs[i - 1];
            c.poles[|c.poles| - 1] == cs[i].poles[0] && c.weights[|c.weights| - 1] == cs[i].weights[0]
  {
  }

  lemma LinedMeet(cs: seq<Curve>, steps: seq<real>, degree: nat)
    requires AllProper(cs) && AllValid(cs, degree) && |steps| == |cs| && PolesMeet(cs) && AllPositive(steps)
    ensures AllValid(Lined(cs, steps), degree) && AllMeet(Lined(cs, steps))
  {
    hide Lined, Valid, AllPositive, PolesMeet;
    var r := Lined(cs, steps);
    forall i | 0 <= i < |r|
      ensures r[i].WellFormed() && Valid(r[i], degree)
      ensures i > 0 ==> Meet(r[i - 1], r[i])
    {
      LinedAt(cs, steps, degree, i);
      if i > 0 {
        LinedAt(cs, steps, degree, i - 1);
        PolesMeetAt(cs, i);
      }
    }
  }

  lemma OverallRange(cs: seq<Curve>, steps: seq<real>, degree: nat)
    requires AllProper(cs) && AllValid(cs, degree) && |steps| == |cs| > 0 && PolesMeet(cs) && degree > 0
             && AllPositive(steps)
    ensures var r := Joined(Lined(cs, steps), degree, false);
            Valid(r, degree) && r.WellFormed() && r.FirstParameter() == 0.0 && r.LastParameter() == Sum(steps, |steps|)
  {
    hide Lined, Joined, PolesMeet, AllPositive, AllMeet, AllProper;
    var lined := Lined(cs, steps);
    LinedMeet(cs, steps, degree);
    MeetIsConnected(lined);
    JoinedIsValid(lined, degree, false);
    LinedAt(cs, steps, degree, 0);
    LinedAt(cs, steps, degree, |cs| - 1);
  }

  /** The result takes on span k of curve i the value of that curve, at the mapped parameter. */
  ghost predicate KeepsSpan(cs: seq<Curve>, steps: seq<real>, degree: nat, i: nat, f: (Point, real) -> real, k: nat,
                            x: real)
    requires AllProper(cs) && |steps| == |cs| && degree > 0 && i < |cs| && HasSpan(cs[i], degree, k)
  {
    var lined := Lined(cs, steps);
    var r, offset := Joined(lined, degree, false), |Start(lined, i, degree, false).poles|;
    && HasSpan(r, degree, offset + k)
    && SpanValue(r, degree, f, offset + k, MapTo(cs[i], Sum(steps, i), Sum(steps, i + 1), x))
        == SpanValue(cs[i], degree, f, k, x)
  }

  /** Curves that meet exactly are joined to one valid curve that starts at 0 and keeps every span of every curve. */
  lemma ConcatKeepsCurves(cs: seq<Curve>, steps: seq<real>, degree: nat, i: nat, f: (Point, real) -> real, k: nat,
                          x: real)
    requires AllProper(cs) && AllValid(cs, degree) && |steps| == |cs| && PolesMeet(cs) && degree > 0
             && AllPositive(steps)
    requires i < |cs| && HasSpan(cs[i], degree, k)
    ensures var r := Joined(Lined(cs, steps), degree, false);
            Valid(r, degree) && r.WellFormed() && r.FirstParameter() == 0.0 && r.LastParameter() == Sum(steps, |steps|)
    ensures KeepsSpan(cs, steps, degree, i, f, k, x)
  {
    hide Lined, Reparametrized, Start, Joined, Valid, SpanValue, HasSpan, MapTo, PolesMeet, AllMeet;
    var lined, a, b := Lined(cs, steps), Sum(steps, i), Sum(steps, i + 1);
    assert steps[i] > 0.0;
    OverallRange(cs, steps, degree);
    LinedMeet(cs, steps, degree);
    ReparametrizedKeepsCurve(cs[i], degree, a, b, f, k, x);
    JoinedKeepsCurves(lined, i, degree, f, k, MapTo(cs[i], a, b, x));
  }

  // Not measured by length, curves are only shifted.

  /** The lengths of the parameter ranges of the first n curves together. */
  function Ranges(cs: seq<Curve>, n: nat): real
    requires AllWellFormed(cs) && n <= |cs|
  {
    if n == 0 then 0.0 else Ranges(cs, n - 1) + (cs[n - 1].LastParameter() - cs[n - 1].FirstParameter())
  }

  /** How far curve i has to move to begin where the ranges of the curves before it end. */
  function Shift(cs: seq<Curve>, i: nat): real
    requires AllWellFormed(cs) && i < |cs|
  {
    Ranges(cs, i) - cs[i].FirstParameter()
  }

  lemma {:induction false} SumOfRanges(cs: seq<Curve>, lengths: seq<real>, n: nat)
    requires AllWellFormed(cs) && |lengths| == |cs| && n <= |cs|
    ensures Sum(Steps(cs, false, lengths), n) == Ranges(cs, n)
  {
    if n > 0 {
      SumOfRanges(cs, lengths, n - 1);
    }
  }

  lemma StepsArePositive(cs: seq<Curve>, lengths: seq<real>)
    requires AllProper(cs) && |lengths| == |cs|
    ensures AllPositive(Steps(cs, false, lengths))
  {
  }

  lemma MapToShifts(c: Curve, umin: real, umax: real, x: real)
    requires c.WellFormed() && c.FirstParameter() < c.LastParameter()
    requires umax - umin == c.LastParameter() - c.FirstParameter()
    ensures MapTo(c, umin, umax, x) == x + (umin - c.FirstParameter())
  {
    QuotientIs(umax - umin, c.LastParameter() - c.FirstParameter(), 1.0);
  }

  lemma MappedByShift(cs: seq<Curve>, lengths: seq<real>, i: nat, x: real)
    requires AllProper(cs) && |lengths| == |cs| && i < |cs|
    ensures var steps := Steps(cs, false, lengths);
            MapTo(cs[i], Sum(steps, i), Sum(steps, i + 1), x) == x + Shift(cs, i)
  {
    hide MapTo, Steps, Sum;
    SumOfRanges(cs, lengths, i);
    SumOfRanges(cs, lengths, i + 1);
    MapToShifts(cs[i], Ranges(cs, i), Ranges(cs, i + 1), x);
  }

  /** From index at on, s holds the numbers of t, each moved by shift. */
  ghost predicate HoldsShifted(s: seq<real>, at: nat, t: seq<real>, shift: real) {
    at + |t| <= |s| && forall k :: 0 <= k < |t| ==> s[at + k] == t[k] + shift
  }

  /** The knots of curve i are the knots of the joined curve from the end of the curves before it on. */
  lemma KnotsInJoined(cs: seq<Curve>, degree: nat, i: nat, k: nat)
    requires AllWellFormed(cs) && Connected(cs) && i < |cs| && degree > 0 && k < |cs[i].knots|
    ensures var r, at := Joined(cs, degree, false), |Start(cs, i, degree, false).knots|;
            at + |cs[i].knots| <= |r.knots| && r.knots[at + k] == cs[i].knots[k]
  {
    hide Start;
    NextStart(cs, i, degree, false);
    StartGrows(cs, i + 1, |cs|, degree, false);
    if i + 1 < |cs| {
      NextStart(cs, i + 1, degree, false);
      StartGrows(cs, i + 2, |cs|, degree, false);
    }
  }

  /** The knots of the curves appear in the result as they are, shifted to follow each other. */
  lemma KnotsAreShifted(cs: seq<Curve>, lengths: seq<real>, degree: nat, i: nat)
    requires AllProper(cs) && AllValid(cs, degree) && |lengths| == |cs| && PolesMeet(cs) && degree > 0 && i < |cs|
    ensures var lined := Lined(cs, Steps(cs, false, lengths));
            HoldsShifted(Joined(lined, degree, false).knots, |Start(lined, i, degree, false).knots|, cs[i].knots,
                         Shift(cs, i))
  {
    hide MapTo, Steps, Joined, Start, Shift, Lined, Reparametrized, Valid, PolesMeet, AllMeet, AllPositive;
    var steps := Steps(cs, false, lengths);
    var lined := Lined(cs, steps);
    StepsArePositive(cs, lengths);
    LinedMeet(cs, steps, degree);
    MeetIsConnected(lined);
    ReparametrizedKnots(cs[i], Sum(steps, i), Sum(steps, i + 1));
    forall k | 0 <= k < |cs[i].knots|
      ensures |Start(lined, i, degree, false).knots| + |cs[i].knots| <= |Joined(lined, degree, false).knots|
      ensures Joined(lined, degree, false).knots[|Start(lined, i, degree, false).knots| + k]
              == cs[i].knots[k] + Shift(cs, i)
    {
      KnotsInJoined(lined, degree, i, k);
      MappedByShift(cs, lengths, i, cs[i].knots[k]);
    }
  }

  /** The joined curve, whose value on span k of curve i at x + shift is the value of that curve at x. */
  ghost predicate ShiftsSpan(cs: seq<Curve>, lengths: seq<real>, degree: nat, i: nat, f: (Point, real) -> real,
                             k: nat, x: real)
    requires AllProper(cs) && |lengths| == |cs| && degree > 0 && i < |cs| && HasSpan(cs[i], degree, k)
  {
    var lined := Lined(cs, Steps(cs, false, lengths));
    var r, offset := Joined(lined, degree, false), |Start(lined, i, degree, false).poles|;
    HasSpan(r, degree, offset + k)
    && SpanValue(r, degree, f, offset + k, x + Shift(cs, i)) == SpanValue(cs[i], degree, f, k, x)
  }

  /** Curves that meet exactly keep their parametrisation, each moved to follow the one before: the result runs from 0
      to the sum of the parameter lengths. */
  lemma ConcatShiftsCurves(cs: seq<Curve>, lengths: seq<real>, degree: nat, i: nat, f: (Point, real) -> real, k: nat,
                           x: real)
    requires AllProper(cs) && AllValid(cs, degree) && |lengths| == |cs| && PolesMeet(cs) && degree > 0
    requires i < |cs| && HasSpan(cs[i], degree, k)
    ensures var r := Joined(Lined(cs, Steps(cs, false, lengths)), degree, false);
            Valid(r, degree) && r.WellFormed() && r.FirstParameter() == 0.0 && r.LastParameter() == Ranges(cs, |cs|)
    ensures ShiftsSpan(cs, lengths, degree, i, f, k, x)
  {
    hide MapTo, Steps, Joined, Start, Shift, Lined, Valid, PolesMeet, AllPositive, HasSpan, SpanValue, Ranges, Sum,
      AllValid, KeepsSpan, ShiftsSpan;
    StepsArePositive(cs, lengths);
    SumOfRanges(cs, lengths, |cs|);
    ConcatKeepsCurves(cs, Steps(cs, false, lengths), degree, i, f, k, x);
    KeptIsShifted(cs, lengths, degree, i, f, k, x);
  }

  lemma KeptIsShifted(cs: seq<Curve>, lengths: seq<real>, degree: nat, i: nat, f: (Point, real) -> real, k: nat,
                      x: real)
    requires AllProper(cs) && |lengths| == |cs| && degree > 0 && i < |cs| && HasSpan(cs[i], degree, k)
    requires KeepsSpan(cs, Steps(cs, false, lengths), degree, i, f, k, x)
    ensures ShiftsSpan(cs, lengths, degree, i, f, k, x)
  {
    hide MapTo, Steps, Joined, Start, Shift, Lined, Valid, HasSpan, SpanValue, Ranges, Sum;
    MappedByShift(cs, lengths, i, x);
  }
}
