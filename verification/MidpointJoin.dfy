/** What joining curves at the midpoints of their ends does to each of them. */
module MidpointJoin {
  import ConcatCurves
  import opened Concatenation
  import opened Geometry

  /** The pole that stands in the result where curve i begins, or, for i == |cs|, where the last curve ends. */
  function JointPole(cs: seq<Curve>, i: nat): Point
    requires cs != [] && AllWellFormed(cs) && i <= |cs|
  {
    if i == 0 then cs[0].poles[0]
    else
      var before := cs[i - 1];
      if i == |cs| then before.poles[|before.poles| - 1] else Midpoint(before.poles[|before.poles| - 1], cs[i].poles[0])
  }

  function JointWeight(cs: seq<Curve>, i: nat): real
    requires cs != [] && AllWellFormed(cs) && i <= |cs|
  {
    if i == 0 then cs[0].weights[0]
    else
      var before := cs[i - 1];
      if i == |cs| then before.weights[|before.weights| - 1]
          else (before.weights[|before.weights| - 1] + cs[i].weights[0]) / 2.0
  }

  /** A joint is halfway between the ends it replaces, in space and in weight. */
  lemma JointsAreHalfway(cs: seq<Curve>, i: nat, d: Point)
    requires AllWellFormed(cs) && 0 < i < |cs|
    ensures var before, p := cs[i - 1], JointPole(cs, i);
            Moved(before.poles[|before.poles| - 1], d) == p <==> Moved(p, d) == cs[i].poles[0]
    ensures var before, w := cs[i - 1], JointWeight(cs, i);
            w - before.weights[|before.weights| - 1] == cs[i].weights[0] - w
  {
    var before := cs[i - 1];
    MidpointIsHalfway(before.poles[|before.poles| - 1], cs[i].poles[0], d);
  }

  function WithEnds<T>(s: seq<T>, first: T, last: T): (r: seq<T>)
    requires |s| >= 2
    ensures |r| == |s| && r[0] == first && r[|s| - 1] == last && Middle(r) == Middle(s)
  {
    [first] + Middle(s) + [last]
  }

  /** Curve i with its ends moved to the joints. */
  function Settled(cs: seq<Curve>, i: nat): (r: Curve)
    requires AllWellFormed(cs) && i < |cs|
    ensures r.WellFormed() && r.knots == cs[i].knots && r.mults == cs[i].mults && |r.poles| == |cs[i].poles|
  {
    cs[i].(poles := WithEnds(cs[i].poles, JointPole(cs, i), JointPole(cs, i + 1)),
           weights := WithEnds(cs[i].weights, JointWeight(cs, i), JointWeight(cs, i + 1)))
  }

  function AllSettled(cs: seq<Curve>): (r: seq<Curve>)
    requires AllWellFormed(cs)
    ensures |r| == |cs| && AllWellFormed(r) && forall i :: 0 <= i < |cs| ==> r[i] == Settled(cs, i)
  {
    seq(|cs|, i requires 0 <= i < |cs| => Settled(cs, i))
  }

  lemma SettledAreValid(cs: seq<Curve>, degree: nat)
    requires AllValid(cs, degree) && Connected(cs)
    ensures AllValid(AllSettled(cs), degree) && AllMeet(AllSettled(cs))
  {
    hide JointPole, JointWeight;
    var r := AllSettled(cs);
    forall i | 0 <= i < |r|
      ensures Valid(r[i], degree)
    {
      assert Valid(cs[i], degree);
    }
    forall i | 0 < i < |r|
      ensures Meet(r[i - 1], r[i])
    {
      assert cs[i - 1].LastParameter() == cs[i].FirstParameter();
    }
  }

  lemma MidpointOfMidpoint(p: Point, v: real)
    ensures Midpoint(p, p) == p && (v + v) / 2.0 == v
  {
  }

  /** One more curve adds the same poles, settled or not. */
  lemma SameAppended(s: Curve, cs: seq<Curve>, i: nat, degree: nat)
    requires AllWellFormed(cs) && i < |cs| && degree > 0
    ensures AppendCurve(s, AllSettled(cs), i, degree, false) == AppendCurve(s, cs, i, degree, false)
  {
    hide Midpoint, AppendCurve, JointPole, JointWeight, Settled;
    var r := AllSettled(cs);
    var p, w := JointPole(cs, i), JointWeight(cs, i);
    SettledEnds(cs, i);
    JointAt(cs, i);
    if i > 0 {
      SettledEnds(cs, i - 1);
      MidpointOfMidpoint(p, w);
    }
    AppendedC0(s, cs, i, degree, p, w);
    AppendedC0(s, r, i, degree, p, w);
  }

  lemma SettledEnds(cs: seq<Curve>, i: nat)
    requires AllWellFormed(cs) && i < |cs|
    ensures var r, n := Settled(cs, i), |cs[i].poles| - 1;
            && r.knots == cs[i].knots && r.mults == cs[i].mults && |r.poles| == |r.weights| == n + 1
            && Middle(r.poles) == Middle(cs[i].poles) && Middle(r.weights) == Middle(cs[i].weights)
            && r.poles[0] == JointPole(cs, i) && r.poles[n] == JointPole(cs, i + 1)
            && r.weights[0] == JointWeight(cs, i) && r.weights[n] == JointWeight(cs, i + 1)
  {
    hide JointPole, JointWeight;
  }

  lemma JointAt(cs: seq<Curve>, i: nat)
    requires AllWellFormed(cs) && i < |cs|
    ensures i == 0 ==> JointPole(cs, i) == cs[0].poles[0] && JointWeight(cs, i) == cs[0].weights[0]
    ensures i > 0 ==> [JointPole(cs, i)] == JointPoles(cs[i - 1], cs[i], false)
                      && [JointWeight(cs, i)] == JointWeights(cs[i - 1], cs[i], false)
  {
  }

  lemma {:induction false} SameStart(cs: seq<Curve>, n: nat, degree: nat)
    requires AllWellFormed(cs) && n <= |cs| && degree > 0
    ensures Start(AllSettled(cs), n, degree, false) == Start(cs, n, degree, false)
  {
    hide *;
    if n > 0 {
      SameStart(cs, n - 1, degree);
      NextStart(cs, n - 1, degree, false);
      NextStart(AllSettled(cs), n - 1, degree, false);
      SameAppended(Start(cs, n - 1, degree, false), cs, n - 1, degree);
    } else {
      NoStart(cs, degree);
      NoStart(AllSettled(cs), degree);
    }
  }

  lemma NoStart(cs: seq<Curve>, degree: nat)
    requires AllWellFormed(cs) && degree > 0
    ensures Start(cs, 0, degree, false) == Curve([], [], [], [])
  {
  }

  /** Moving the ends to the joints first makes no difference. */
  lemma SameJoined(cs: seq<Curve>, degree: nat)
    requires AllWellFormed(cs) && cs != [] && degree > 0
    ensures Joined(AllSettled(cs), degree, false) == Joined(cs, degree, false)
  {
    hide Start, Settled;
    SameStart(cs, |cs|, degree);
    SettledEnds(cs, |cs| - 1);
  }

  /** On every span the result is the curve with its ends moved to the joints, whatever the gaps were. */
  lemma JoinedIsSettled(cs: seq<Curve>, i: nat, degree: nat, f: (Point, real) -> real, k: nat, x: real)
    requires AllValid(cs, degree) && Connected(cs) && i < |cs| && degree > 0 && HasSpan(cs[i], degree, k)
    ensures HasSpan(Settled(cs, i), degree, k)
    ensures var r, offset := Joined(cs, degree, false), |Start(cs, i, degree, false).poles|;
            HasSpan(r, degree, offset + k) && SpanValue(r, degree, f, offset + k, x)
                == SpanValue(Settled(cs, i), degree, f, k, x)
  {
    hide Start, Joined, SpanValue, AllMeet, Valid, Connected, HasSpan, Settled, KeepsSpan, FlatKnots, Controls;
    SettledAreValid(cs, degree);
    SameJoined(cs, degree);
    SameStart(cs, i, degree);
    SettledHasSpan(cs, i, degree, k);
    JoinedKeepsCurves(AllSettled(cs), i, degree, f, k, x);
    KeptSpan(AllSettled(cs), i, degree, f, k, x);
  }

  lemma SettledHasSpan(cs: seq<Curve>, i: nat, degree: nat, k: nat)
    requires AllWellFormed(cs) && i < |cs| && HasSpan(cs[i], degree, k)
    ensures HasSpan(Settled(cs, i), degree, k)
  {
    hide Flat, JointPole, JointWeight;
  }

  lemma KeptSpan(cs: seq<Curve>, i: nat, degree: nat, f: (Point, real) -> real, k: nat, x: real)
    requires AllWellFormed(cs) && i < |cs| && degree > 0 && HasSpan(cs[i], degree, k)
    requires KeepsSpan(cs, i, degree, f, k, x)
    ensures var r, offset := Joined(cs, degree, false), |Start(cs, i, degree, false).poles|;
            HasSpan(r, degree, offset + k)
            && SpanValue(r, degree, f, offset + k, x) == SpanValue(cs[i], degree, f, k, x)
  {
    hide Start, Joined, SpanValue, HasSpan;
  }

  // The values at the ends.

  lemma {:induction false} FlatWithin(knots: seq<real>, mults: seq<nat>, j: nat) returns (k: nat)
    requires |knots| == |mults| && j < |Flat(knots, mults)|
    ensures k < |knots| && Flat(knots, mults)[j] == knots[k]
  {
    hide Total;
    var n := |knots| - 1;
    var front := Flat(knots[..n], mults[..n]);
    if j < |front| {
      k := FlatWithin(knots[..n], mults[..n], j);
    } else {
      k := n;
    }
  }

  /** The flat knots of a clamped curve: degree + 1 times each end, and all others strictly between. */
  lemma FlatKnotAt(c: Curve, degree: nat, j: nat)
    requires Valid(c, degree) && j < |FlatKnots(c)|
    ensures |FlatKnots(c)| == |c.poles| + degree + 1 && degree < |c.poles|
    ensures var u := FlatKnots(c)[j];
            && (if j <= degree then u == c.FirstParameter() else c.FirstParameter() < u)
            && (if j < |c.poles| then u < c.LastParameter() else u == c.LastParameter())
  {
    hide Flat, Total;
    FlatOfMiddle(c, 0);
    FirstMult(c, degree);
    var m := Flat(Middle(c.knots), Middle(c.mults));
    assert c.knots[0] < c.knots[|c.knots| - 1];
    if degree < j < |c.poles| {
      var k := FlatWithin(Middle(c.knots), Middle(c.mults), j - degree - 1);
      assert c.knots[0] < c.knots[k + 1] < c.knots[|c.knots| - 1];
    }
  }

  lemma MixOfEnds(a: real, b: real, x: real, y: real)
    requires a < b
    ensures Mix(Ratio(a, a, b), x, y) == x && Mix(Ratio(b, a, b), x, y) == y
  {
    assert (b - a) / (b - a) == 1.0;
  }

  lemma {:induction false} FirstValue(c: Curve, degree: nat, p: seq<real>, level: nat)
    requires Valid(c, degree) && |p| == |c.poles| && |FlatKnots(c)| == |p| + degree + 1 && level <= degree < |p|
    ensures DeBoor(FlatKnots(c), p, degree, c.FirstParameter(), level, level) == p[0]
  {
    hide Ratio, Mix, DeBoor, FlatKnots, Valid;
    FirstMult(c, degree);
    var t, a := FlatKnots(c), c.FirstParameter();
    if level > 0 {
      FirstValue(c, degree, p, level - 1);
      DeBoorStep(t, p, degree, a, level, level);
      FlatKnotAt(c, degree, level);
      FlatKnotAt(c, degree, degree + 1);
      MixOfEnds(a, t[degree + 1], p[0], DeBoor(t, p, degree, a, level - 1, level));
    } else {
      DeBoorBase(t, p, degree, a, 0);
    }
  }

  lemma {:induction false} LastValue(c: Curve, degree: nat, p: seq<real>, level: nat)
    requires Valid(c, degree) && |p| == |c.poles| && |FlatKnots(c)| == |p| + degree + 1 && level <= degree < |p|
    ensures DeBoor(FlatKnots(c), p, degree, c.LastParameter(), level, |p| - 1) == p[|p| - 1]
  {
    hide Ratio, Mix, DeBoor, FlatKnots, Valid;
    FirstMult(c, degree);
    var t, b, n := FlatKnots(c), c.LastParameter(), |p| - 1;
    if level > 0 {
      LastValue(c, degree, p, level - 1);
      DeBoorStep(t, p, degree, b, level, n);
      FlatKnotAt(c, degree, n);
      FlatKnotAt(c, degree, n + degree + 1 - level);
      MixOfEnds(t[n], b, DeBoor(t, p, degree, b, level - 1, n - 1), p[n]);
    } else {
      DeBoorBase(t, p, degree, b, n);
    }
  }

  lemma EndValues(c: Curve, degree: nat, f: (Point, real) -> real)
    requires Valid(c, degree)
    ensures HasSpan(c, degree, degree) && HasSpan(c, degree, |c.poles| - 1)
    ensures SpanValue(c, degree, f, degree, c.FirstParameter()) == f(c.poles[0], c.weights[0])
    ensures SpanValue(c, degree, f, |c.poles| - 1, c.LastParameter())
            == f(c.poles[|c.poles| - 1], c.weights[|c.poles| - 1])
  {
    hide DeBoor, FlatKnots;
    FirstMult(c, degree);
    FlatKnotAt(c, degree, 0);
    FirstValue(c, degree, Controls(c, f), degree);
    LastValue(c, degree, Controls(c, f), degree);
  }

  /** The result takes the values of curve i on all of its spans. */
  ghost predicate KeepsCurve(cs: seq<Curve>, i: nat, degree: nat, f: (Point, real) -> real)
    requires AllWellFormed(cs) && i < |cs| && degree > 0
  {
    forall k: nat, x: real :: HasSpan(cs[i], degree, k) ==> KeepsSpan(cs, i, degree, f, k, x)
  }

  ghost predicate EndsAtJoints(cs: seq<Curve>, i: nat, f: (Point, real) -> real)
    requires AllWellFormed(cs) && i < |cs|
  {
    var c, n := cs[i], |cs[i].poles| - 1;
    && f(c.poles[0], c.weights[0]) == f(JointPole(cs, i), JointWeight(cs, i))
    && f(c.poles[n], c.weights[n]) == f(JointPole(cs, i + 1), JointWeight(cs, i + 1))
  }

  /** A curve is kept if and only if its ends already are at the joints. */
  lemma MidpointJoinKeepsCurve(cs: seq<Curve>, i: nat, degree: nat, f: (Point, real) -> real)
    requires AllValid(cs, degree) && Connected(cs) && i < |cs| && degree > 0
    ensures KeepsCurve(cs, i, degree, f) <==> EndsAtJoints(cs, i, f)
  {
    hide Joined, Start, SpanValue, HasSpan, Valid, Connected, JointPole, JointWeight;
    var c, s, n := cs[i], Settled(cs, i), |cs[i].poles| - 1;
    SettledAreValid(cs, degree);
    EndValues(c, degree, f);
    EndValues(s, degree, f);
    if EndsAtJoints(cs, i, f) {
      forall k: nat, x: real | HasSpan(c, degree, k)
        ensures KeepsSpan(cs, i, degree, f, k, x)
      {
        JoinedIsSettled(cs, i, degree, f, k, x);
        SameControls(s, c, degree, f, k, x);
      }
    } else if KeepsCurve(cs, i, degree, f) {
      assert KeepsSpan(cs, i, degree, f, degree, c.FirstParameter());
      JoinedIsSettled(cs, i, degree, f, degree, c.FirstParameter());
      assert KeepsSpan(cs, i, degree, f, n, c.LastParameter());
      JoinedIsSettled(cs, i, degree, f, n, c.LastParameter());
    }
  }

  lemma SameControls(s: Curve, c: Curve, degree: nat, f: (Point, real) -> real, k: nat, x: real)
    requires HasSpan(c, degree, k) && HasSpan(s, degree, k) && s.knots == c.knots && s.mults == c.mults
             && |s.poles| == |c.poles| >= 2
    requires Middle(s.poles) == Middle(c.poles) && Middle(s.weights) == Middle(c.weights)
    requires var n := |c.poles| - 1;
             f(s.poles[0], s.weights[0]) == f(c.poles[0], c.weights[0])
                 && f(s.poles[n], s.weights[n]) == f(c.poles[n], c.weights[n])
    ensures SpanValue(s, degree, f, k, x) == SpanValue(c, degree, f, k, x)
  {
    hide DeBoor, Flat;
    var n := |c.poles| - 1;
    forall m | 0 <= m <= n
      ensures f(s.poles[m], s.weights[m]) == f(c.poles[m], c.weights[m])
    {
      if 0 < m < n {
        assert Middle(s.poles)[m - 1] == s.poles[m] && Middle(c.poles)[m - 1] == c.poles[m];
        assert Middle(s.weights)[m - 1] == s.weights[m] && Middle(c.weights)[m - 1] == c.weights[m];
      }
    }
    assert Controls(s, f) == Controls(c, f);
  }

  // Two straight curves with a gap between them.

  function Straight(first: real, x: real, y: real): Curve {
    Curve([first, first + 1.0], [2, 2], [Point(x, 0.0, 0.0), Point(y, 0.0, 0.0)], [1.0, 1.0])
  }

  lemma StraightIsValid(first: real, x: real, y: real)
    ensures Valid(Straight(first, x, y), 1)
  {
    var m := Straight(first, x, y).mults;
    assert m[..1] == [2] && m[..1][..0] == [];
    assert Total([]) == 0 && Total([2]) == 2 && Total(m) == 4;
  }

  /** However small the gap that the tolerance lets pass, the first curve does not keep its end. */
  lemma GapIsNotKept(gap: real)
    requires gap > 0.0
    ensures var cs := [Straight(0.0, 0.0, 1.0), Straight(1.0, 1.0 + gap, 2.0)];
            && AllValid(cs, 1) && Connected(cs) && !ConcatCurves.TooFar(cs[0], cs[1], gap)
            && !KeepsCurve(cs, 0, 1, (p: Point, w: real) => p.x)
  {
    var cs := [Straight(0.0, 0.0, 1.0), Straight(1.0, 1.0 + gap, 2.0)];
    StraightIsValid(0.0, 0.0, 1.0);
    StraightIsValid(1.0, 1.0 + gap, 2.0);
    hide Valid, KeepsCurve;
    assert JointPole(cs, 1).x == 1.0 + gap / 2.0;
    MidpointJoinKeepsCurve(cs, 0, 1, (p: Point, w: real) => p.x);
  }
}
