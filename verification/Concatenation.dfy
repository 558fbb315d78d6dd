/** Joining clamped B-spline curves of one degree to one curve. */
module Concatenation {
  import opened Geometry
  import opened Wrappers

  datatype Curve = Curve(knots: seq<real>, mults: seq<nat>, poles: seq<Point>, weights: seq<real>) {
    predicate WellFormed() {
      |knots| == |mults| >= 2 && |poles| == |weights| >= 2
    }

    function FirstParameter(): real
      requires WellFormed()
    {
      knots[0]
    }

    function LastParameter(): real
      requires WellFormed()
    {
      knots[|knots| - 1]
    }
  }

  function Total(mults: seq<nat>): nat {
    if mults == [] then 0 else Total(mults[..|mults| - 1]) + mults[|mults| - 1]
  }

  ghost predicate StrictlyIncreasing(s: seq<real>) {
    forall i, j :: 0 <= i < j < |s| ==> s[i] < s[j]
  }

  /** A clamped B-spline curve: as many knots, counted with multiplicity, as poles and degree + 1. */
  ghost predicate Valid(c: Curve, degree: nat) {
    && c.WellFormed()
    && StrictlyIncreasing(c.knots)
    && c.mults[0] == c.mults[|c.mults| - 1] == degree + 1
    && (forall i :: 0 <= i < |c.mults| ==> c.mults[i] > 0)
    && Total(c.mults) == |c.poles| + degree + 1
  }

  /** Inner elements, without the first and the last one. */
  function Middle<T>(s: seq<T>): seq<T>
    requires |s| >= 2
  {
    s[1..|s| - 1]
  }

  /** What replaces the last pole of the curve before and the first one of the curve: nothing if the curve goes on
      smoothly. */
  function JointPoles(before: Curve, c: Curve, smooth: bool): seq<Point>
    requires before.WellFormed() && c.WellFormed()
  {
    if smooth then [] else [Midpoint(before.poles[|before.poles| - 1], c.poles[0])]
  }

  function JointWeights(before: Curve, c: Curve, smooth: bool): seq<real>
    requires before.WellFormed() && c.WellFormed()
  {
    if smooth then [] else [(before.weights[|before.weights| - 1] + c.weights[0]) / 2.0]
  }

  function JointMult(degree: nat, smooth: bool): nat
    requires degree > 0
  {
    if smooth then degree - 1 else degree
  }

  ghost predicate AllWellFormed(cs: seq<Curve>) {
    forall i :: 0 <= i < |cs| ==> cs[i].WellFormed()
  }

  function AppendCurve(s: Curve, cs: seq<Curve>, i: nat, degree: nat, smooth: bool): Curve
    requires i < |cs| && AllWellFormed(cs) && degree > 0
  {
    var c := cs[i];
    if i == 0 then
      Curve(s.knots + [c.knots[0]] + Middle(c.knots), s.mults + [c.mults[0]] + Middle(c.mults),
            s.poles + [c.poles[0]] + Middle(c.poles), s.weights + [c.weights[0]] + Middle(c.weights))
    else
      Curve(s.knots + [c.knots[0]] + Middle(c.knots), s.mults + [JointMult(degree, smooth)] + Middle(c.mults),
            s.poles + JointPoles(cs[i - 1], c, smooth) + Middle(c.poles),
            s.weights + JointWeights(cs[i - 1], c, smooth) + Middle(c.weights))
  }

  /** All but the very last knot and pole, for the first n curves. */
  function Start(cs: seq<Curve>, n: nat, degree: nat, smooth: bool): Curve
    requires n <= |cs| && AllWellFormed(cs) && degree > 0
  {
    if n == 0 then Curve([], [], [], []) else AppendCurve(Start(cs, n - 1, degree, smooth), cs, n - 1, degree, smooth)
  }

  function Joined(cs: seq<Curve>, degree: nat, smooth: bool): Curve
    requires cs != [] && AllWellFormed(cs) && degree > 0
  {
    var s, c := Start(cs, |cs|, degree, smooth), cs[|cs| - 1];
    Curve(s.knots + [c.LastParameter()], s.mults + [c.mults[|c.mults| - 1]],
          s.poles + [c.poles[|c.poles| - 1]], s.weights + [c.weights[|c.weights| - 1]])
  }

  /** Writes the inner elements of source into target. */
  method CopyMiddle<T>(target: array<T>, at: nat, source: seq<T>) returns (next: nat)
    requires |source| >= 2 && at + |source| - 2 <= target.Length
    modifies target
    ensures next == at + |source| - 2 <= target.Length
    ensures target[..next] == old(target[..at]) + Middle(source)
  {
    next := at;
    for k := 1 to |source| - 1
      invariant next == at + k - 1
      invariant target[..next] == old(target[..at]) + source[1..k]
    {
      assert source[1..k + 1] == source[1..k] + [source[k]];
      Put(target, next, source[k]);
      next := next + 1;
    }
  }

  method Put<T>(target: array<T>, at: nat, x: T)
    requires at < target.Length
    modifies target
    ensures target[..at + 1] == old(target[..at]) + [x]
  {
    target[at] := x;
  }

  /** s is filled less far than t. */
  ghost predicate Extends(t: Curve, s: Curve) {
    s.knots <= t.knots && s.mults <= t.mults && s.poles <= t.poles && s.weights <= t.weights
  }

  ghost predicate EvenlyFilled(s: Curve) {
    |s.knots| == |s.mults| && |s.poles| == |s.weights|
  }

  lemma AppendGrows(s: Curve, cs: seq<Curve>, i: nat, degree: nat, smooth: bool)
    requires i < |cs| && AllWellFormed(cs) && degree > 0 && EvenlyFilled(s)
    ensures var t := AppendCurve(s, cs, i, degree, smooth); Extends(t, s) && EvenlyFilled(t)
  {
  }

  lemma {:induction false} StartGrows(cs: seq<Curve>, n: nat, m: nat, degree: nat, smooth: bool)
    requires n <= m <= |cs| && AllWellFormed(cs) && degree > 0
    ensures var s, t := Start(cs, n, degree, smooth), Start(cs, m, degree, smooth);
            Extends(t, s) && EvenlyFilled(s) && EvenlyFilled(t)
  {
    hide AppendCurve;
    if n < m {
      StartGrows(cs, n, m - 1, degree, smooth);
      AppendGrows(Start(cs, m - 1, degree, smooth), cs, m - 1, degree, smooth);
    } else if n > 0 {
      StartGrows(cs, n - 1, n - 1, degree, smooth);
      AppendGrows(Start(cs, n - 1, degree, smooth), cs, n - 1, degree, smooth);
    }
  }

  method CountC0(cs: seq<Curve>, degree: nat) returns (nbknots: nat, nbcp: nat)
    requires cs != [] && AllWellFormed(cs) && degree > 0
    ensures nbknots == |Joined(cs, degree, false).knots| && nbcp == |Joined(cs, degree, false).poles|
  {
    nbknots, nbcp := 1, 1;
    for i := 0 to |cs|
      invariant nbknots == |Start(cs, i, degree, false).knots| + 1 && nbcp == |Start(cs, i, degree, false).poles| + 1
    {
      nbknots := nbknots + |cs[i].knots| - 1;
      nbcp := nbcp + |cs[i].poles| - 1;
    }
  }

  method CountC1(cs: seq<Curve>, degree: nat) returns (ncp: nat, nkn: nat)
    requires cs != [] && AllWellFormed(cs) && degree > 0
    ensures nkn == |Joined(cs, degree, true).knots| && ncp == |Joined(cs, degree, true).poles|
  {
    ncp, nkn := 2, 1;
    for i := 0 to |cs|
      invariant nkn == |Start(cs, i, degree, true).knots| + 1
      invariant ncp == |Start(cs, i, degree, true).poles| + if i == 0 then 2 else 1
    {
      ncp := ncp + |cs[i].poles| - 2;
      nkn := nkn + |cs[i].knots| - 1;
    }
  }

  lemma Room(cs: seq<Curve>, n: nat, degree: nat, smooth: bool)
    requires 0 < |cs| && n <= |cs| && AllWellFormed(cs) && degree > 0
    ensures var s, r := Start(cs, n, degree, smooth), Joined(cs, degree, smooth);
            && |s.knots| == |s.mults| < |r.knots| == |r.mults|
            && |s.poles| == |s.weights| < |r.poles| == |r.weights|
  {
    hide Start;
    StartGrows(cs, n, |cs|, degree, smooth);
  }

  lemma NextStart(cs: seq<Curve>, i: nat, degree: nat, smooth: bool)
    requires i < |cs| && AllWellFormed(cs) && degree > 0
    ensures Start(cs, i + 1, degree, smooth) == AppendCurve(Start(cs, i, degree, smooth), cs, i, degree, smooth)
    ensures Start(cs, 0, degree, smooth) == Curve([], [], [], [])
  {
  }

  /** The four arrays hold s. */
  ghost predicate Holds(knots: array<real>, mults: array<nat>, cpoints: array<Point>, weights: array<real>, s: Curve)
    reads knots, mults, cpoints, weights
  {
    && |s.knots| <= knots.Length && |s.mults| <= mults.Length && |s.poles| <= cpoints.Length
        && |s.weights| <= weights.Length
    && knots[..|s.knots|] == s.knots && mults[..|s.mults|] == s.mults
    && cpoints[..|s.poles|] == s.poles && weights[..|s.weights|] == s.weights
  }

  lemma AppendedC0(s: Curve, cs: seq<Curve>, i: nat, degree: nat, p: Point, w: real)
    requires i < |cs| && AllWellFormed(cs) && degree > 0
    requires i == 0 ==> p == cs[0].poles[0] && w == cs[0].weights[0]
    requires i > 0 ==> [p] == JointPoles(cs[i - 1], cs[i], false) && [w] == JointWeights(cs[i - 1], cs[i], false)
    ensures AppendCurve(s, cs, i, degree, false) ==
            Curve(s.knots + [cs[i].knots[0]] + Middle(cs[i].knots),
                  s.mults + [if i == 0 then cs[i].mults[0] else degree] + Middle(cs[i].mults),
                  s.poles + [p] + Middle(cs[i].poles), s.weights + [w] + Middle(cs[i].weights))
    ensures var t := AppendCurve(s, cs, i, degree, false);
            && |t.knots| == |s.knots| + |cs[i].knots| - 1 && |t.mults| == |s.mults| + |cs[i].mults| - 1
            && |t.poles| == |s.poles| + |cs[i].poles| - 1 && |t.weights| == |s.weights| + |cs[i].weights| - 1
            && cs[i].WellFormed()
  {
  }

  lemma AppendedC1(s: Curve, cs: seq<Curve>, i: nat, degree: nat)
    requires i < |cs| && AllWellFormed(cs) && degree > 0
    ensures var t := AppendCurve(s, cs, i, degree, true);
            && t.knots == s.knots + [cs[i].knots[0]] + Middle(cs[i].knots)
            && t.mults == s.mults + [if i == 0 then cs[i].mults[0] else degree - 1] + Middle(cs[i].mults)
            && t.poles == (if i == 0 then s.poles + [cs[i].poles[0]] else s.poles) + Middle(cs[i].poles)
            && t.weights == (if i == 0 then s.weights + [cs[i].weights[0]] else s.weights) + Middle(cs[i].weights)
            && |t.knots| == |s.knots| + |cs[i].knots| - 1 && |t.mults| == |s.mults| + |cs[i].mults| - 1
            && |t.poles| == |s.poles| + |cs[i].poles| - (if i == 0 then 1 else 2)
  {
  }

  /** Every slot of the four arrays is written once, in order and within bounds. */
  method ConcatenateC0(cs: seq<Curve>, degree: nat) returns (r: Curve)
    requires cs != [] && AllWellFormed(cs) && degree > 0
    ensures r == Joined(cs, degree, false)
  {
    hide *;
    var nbknots, nbcp := CountC0(cs, degree);
    Room(cs, 0, degree, false);
    var knots, mults := new real[nbknots], new nat[nbknots];
    var cpoints, weights := new Point[nbcp], new real[nbcp];
    var iknotT, imultT, icpT, iweightT := 0, 0, 0, 0;
    NextStart(cs, 0, degree, false);
    HoldsNothing(knots, mults, cpoints, weights);
    for i := 0 to |cs|
      invariant var s := Start(cs, i, degree, false);
                && iknotT == |s.knots| && imultT == |s.mults| && icpT == |s.poles| && iweightT == |s.weights|
                && Holds(knots, mults, cpoints, weights, s)
    {
      Room(cs, i + 1, degree, false);
      NextStart(cs, i, degree, false);
      iknotT, imultT, icpT, iweightT :=
        CopyC0(cs, i, degree, knots, mults, cpoints, weights, iknotT, imultT, icpT, iweightT,
               Start(cs, i, degree, false));
    }
    r := FinishC0(cs, degree, knots, mults, cpoints, weights, iknotT, imultT, icpT, iweightT);
  }

  lemma HoldsNothing(knots: array<real>, mults: array<nat>, cpoints: array<Point>, weights: array<real>)
    ensures Holds(knots, mults, cpoints, weights, Curve([], [], [], []))
  {
  }

  /** The last point and knot. */
  method FinishC0(cs: seq<Curve>, degree: nat, knots: array<real>, mults: array<nat>, cpoints: array<Point>,
                  weights: array<real>, iknotT: nat, imultT: nat, icpT: nat, iweightT: nat)
    returns (r: Curve)
    requires cs != [] && AllWellFormed(cs) && degree > 0 && knots != weights
    requires var s, j := Start(cs, |cs|, degree, false), Joined(cs, degree, false);
             && iknotT == |s.knots| && imultT == |s.mults| && icpT == |s.poles| && iweightT == |s.weights|
             && knots.Length == mults.Length == |j.knots| && cpoints.Length == weights.Length == |j.poles|
             && Holds(knots, mults, cpoints, weights, s)
    modifies knots, mults, cpoints, weights
    ensures r == Joined(cs, degree, false)
  {
    hide Start;
    StartGrows(cs, |cs|, |cs|, degree, false);
    var last := cs[|cs| - 1];
    PutLast(last, knots, mults, cpoints, iknotT, imultT, icpT);
    Put(weights, iweightT, last.weights[|last.weights| - 1]);
    assert weights[..] == weights[..iweightT + 1];
    r := Curve(knots[..], mults[..], cpoints[..], weights[..]);
  }

  /** The part of one curve. */
  method CopyC0(cs: seq<Curve>, i: nat, degree: nat,
                knots: array<real>, mults: array<nat>, cpoints: array<Point>, weights: array<real>,
                iknot: nat, imult: nat, icp: nat, iweight: nat, ghost s: Curve)
    returns (iknotT: nat, imultT: nat, icpT: nat, iweightT: nat)
    requires i < |cs| && AllWellFormed(cs) && degree > 0 && knots != weights
    requires iknot == |s.knots| && imult == |s.mults| && icp == |s.poles| && iweight == |s.weights|
    requires Holds(knots, mults, cpoints, weights, s)
    requires var t := AppendCurve(s, cs, i, degree, false);
             |t.knots| <= knots.Length && |t.mults| <= mults.Length && |t.poles| <= cpoints.Length
                 && |t.weights| <= weights.Length
    modifies knots, mults, cpoints, weights
    ensures var t := AppendCurve(s, cs, i, degree, false);
            && iknotT == |t.knots| && imultT == |t.mults| && icpT == |t.poles| && iweightT == |t.weights|
            && Holds(knots, mults, cpoints, weights, t)
  {
    hide AppendCurve, Middle, Midpoint, JointPoles, JointWeights;
    var c := cs[i];
    var p, w := FirstPole(cs, i);
    AppendedC0(s, cs, i, degree, p, w);
    iknotT, imultT := CopyKnots(c, if i == 0 then c.mults[0] else degree, knots, mults, iknot, imult);
    icpT, iweightT := CopyPoles(c, p, w, cpoints, weights, icp, iweight);
  }

  method PutLast(c: Curve, knots: array<real>, mults: array<nat>, cpoints: array<Point>, iknotT: nat, imultT: nat,
                 icpT: nat)
    requires c.WellFormed() && iknotT + 1 == knots.Length && imultT + 1 == mults.Length && icpT + 1 == cpoints.Length
    modifies knots, mults, cpoints
    ensures knots[..] == old(knots[..iknotT]) + [c.knots[|c.knots| - 1]]
    ensures mults[..] == old(mults[..imultT]) + [c.mults[|c.mults| - 1]]
    ensures cpoints[..] == old(cpoints[..icpT]) + [c.poles[|c.poles| - 1]]
  {
    Put(knots, iknotT, c.knots[|c.knots| - 1]);
    Put(mults, imultT, c.mults[|c.mults| - 1]);
    Put(cpoints, icpT, c.poles[|c.poles| - 1]);
    assert knots[..] == knots[..iknotT + 1] && mults[..] == mults[..imultT + 1] && cpoints[..] == cpoints[..icpT + 1];
  }

  /** Knots and multiplicities of one curve. */
  method CopyKnots(c: Curve, joint: nat, knots: array<real>, mults: array<nat>, iknot: nat, imult: nat)
    returns (iknotT: nat, imultT: nat)
    requires c.WellFormed() && iknot + |c.knots| - 1 <= knots.Length && imult + |c.mults| - 1 <= mults.Length
    modifies knots, mults
    ensures iknotT == iknot + |c.knots| - 1 && knots[..iknotT] == old(knots[..iknot]) + [c.knots[0]] + Middle(c.knots)
    ensures imultT == imult + |c.mults| - 1 && mults[..imultT] == old(mults[..imult]) + [joint] + Middle(c.mults)
  {
    Put(knots, iknot, c.knots[0]);
    Put(mults, imult, joint);
    iknotT := CopyMiddle(knots, iknot + 1, c.knots);
    imultT := CopyMiddle(mults, imult + 1, c.mults);
  }

  /** The first pole of a curve, or what stands for it at a joint. */
  method FirstPole(cs: seq<Curve>, i: nat) returns (p: Point, w: real)
    requires i < |cs| && AllWellFormed(cs)
    ensures i == 0 ==> p == cs[0].poles[0] && w == cs[0].weights[0]
    ensures i > 0 ==> [p] == JointPoles(cs[i - 1], cs[i], false) && [w] == JointWeights(cs[i - 1], cs[i], false)
  {
    var c := cs[i];
    p, w := c.poles[0], c.weights[0];
    if i > 0 {
      var before := cs[i - 1];
      p := Midpoint(before.poles[|before.poles| - 1], c.poles[0]);
      w := (before.weights[|before.weights| - 1] + c.weights[0]) / 2.0;
    }
  }

  method CopyPoles(c: Curve, p: Point, w: real, cpoints: array<Point>, weights: array<real>, icp: nat, iweight: nat)
    returns (icpT: nat, iweightT: nat)
    requires c.WellFormed() && icp + |c.poles| - 1 <= cpoints.Length && iweight + |c.weights| - 1 <= weights.Length
    modifies cpoints, weights
    ensures icpT == icp + |c.poles| - 1 && cpoints[..icpT] == old(cpoints[..icp]) + [p] + Middle(c.poles)
    ensures iweightT == iweight + |c.weights| - 1 && weights[..iweightT]
            == old(weights[..iweight]) + [w] + Middle(c.weights)
  {
    Put(cpoints, icp, p);
    Put(weights, iweight, w);
    icpT := CopyMiddle(cpoints, icp + 1, c.poles);
    iweightT := CopyMiddle(weights, iweight + 1, c.weights);
  }

  ghost predicate NonRational(cs: seq<Curve>) {
    forall i, k :: 0 <= i < |cs| && 0 <= k < |cs[i].weights| ==> cs[i].weights[k] == 1.0
  }

  ghost predicate AllOnes(s: seq<real>) {
    forall k :: 0 <= k < |s| ==> s[k] == 1.0
  }

  /** All weights that the smooth form takes over are 1: the very first and last one, and all inner ones. */
  ghost predicate TakesOnes(cs: seq<Curve>)
    requires cs != [] && AllWellFormed(cs)
  {
    var last := cs[|cs| - 1];
    && cs[0].weights[0] == 1.0 && last.weights[|last.weights| - 1] == 1.0
    && forall i :: 0 <= i < |cs| ==> AllOnes(Middle(cs[i].weights))
  }

  lemma OnesOfSum(s: seq<real>, t: seq<real>)
    ensures AllOnes(s + t) <==> AllOnes(s) && AllOnes(t)
  {
    if AllOnes(s + t) {
      assert forall k :: 0 <= k < |s| ==> (s + t)[k] == s[k];
      assert forall k :: 0 <= k < |t| ==> (s + t)[|s| + k] == t[k];
    }
  }

  lemma {:induction false} OnesOfStart(cs: seq<Curve>, n: nat, degree: nat)
    requires n <= |cs| && AllWellFormed(cs) && degree > 0
    ensures AllOnes(Start(cs, n, degree, true).weights)
            <==> (n > 0 ==> cs[0].weights[0] == 1.0) && forall i :: 0 <= i < n ==> AllOnes(Middle(cs[i].weights))
  {
    hide Middle, AllOnes;
    if n > 0 {
      OnesOfStart(cs, n - 1, degree);
      var s := Start(cs, n - 1, degree, true);
      OnesOfSum(s.weights + (if n == 1 then [cs[0].weights[0]] else []), Middle(cs[n - 1].weights));
      OnesOfSum(s.weights, [cs[0].weights[0]]);
      OnesOfOne(cs[0].weights[0]);
      assert s.weights + [] == s.weights;
    } else {
      OnesOfNone();
    }
  }

  lemma OnesOfOne(w: real)
    ensures AllOnes([w]) <==> w == 1.0
  {
    assert [w][0] == w;
  }

  lemma OnesOfNone()
    ensures AllOnes([])
  {
  }

  /** The curve as it is rebuilt without its weights. */
  function Unweighted(c: Curve): Curve {
    c.(weights := seq(|c.poles|, i => 1.0))
  }

  lemma UnweightedIsSame(c: Curve)
    requires |c.weights| == |c.poles|
    ensures Unweighted(c) == c <==> AllOnes(c.weights)
  {
    if AllOnes(c.weights) {
      assert Unweighted(c).weights == c.weights;
    } else {
      var k :| 0 <= k < |c.weights| && c.weights[k] != 1.0;
      assert Unweighted(c).weights[k] == 1.0;
    }
  }

  /** The rebuilt curve has the weights of its parts if and only if all those that are taken over are 1. */
  lemma WeightsAreKept(cs: seq<Curve>, degree: nat)
    requires cs != [] && AllWellFormed(cs) && degree > 0
    ensures Unweighted(Joined(cs, degree, true)) == Joined(cs, degree, true) <==> TakesOnes(cs)
  {
    hide Start, AllOnes, Unweighted;
    var c, last := Joined(cs, degree, true), cs[|cs| - 1];
    StartGrows(cs, |cs|, |cs|, degree, true);
    OnesOfStart(cs, |cs|, degree);
    OnesOfSum(Start(cs, |cs|, degree, true).weights, [last.weights[|last.weights| - 1]]);
    OnesOfOne(last.weights[|last.weights| - 1]);
    UnweightedIsSame(c);
  }

  /** So it is for curves that are not rational. */
  lemma NonRationalKeepsWeights(cs: seq<Curve>, degree: nat)
    requires cs != [] && AllWellFormed(cs) && degree > 0 && NonRational(cs)
    ensures Unweighted(Joined(cs, degree, true)) == Joined(cs, degree, true)
  {
    hide Joined, Unweighted;
    WeightsAreKept(cs, degree);
  }

  /** The first three arrays hold s. */
  ghost predicate HoldsC1(knots: array<real>, mults: array<nat>, cpoints: array<Point>, s: Curve)
    reads knots, mults, cpoints
  {
    && |s.knots| <= knots.Length && |s.mults| <= mults.Length && |s.poles| <= cpoints.Length
    && knots[..|s.knots|] == s.knots && mults[..|s.mults|] == s.mults && cpoints[..|s.poles|] == s.poles
  }

  /** The same with one knot less at the joints and without the poles there, and without any weights. None stands for
      the null handle. */
  method ConcatC1(cs: seq<Curve>, degree: nat) returns (r: Option<Curve>)
    requires AllWellFormed(cs) && degree > 0
    ensures r == if cs == [] then None else if |cs| == 1 then Some(cs[0])
            else Some(Unweighted(Joined(cs, degree, true)))
  {
    hide *;
    if |cs| == 0 {
      return None;
    } else if |cs| == 1 {
      return Some(cs[0]);
    }
    var ncp, nkn := CountC1(cs, degree);
    Room(cs, 0, degree, true);
    var knots, mults, cpoints := new real[nkn], new nat[nkn], new Point[ncp];
    var iknotT, imultT, icpT := 0, 0, 0;
    NextStart(cs, 0, degree, true);
    HoldsNothingC1(knots, mults, cpoints);
    for i := 0 to |cs|
      invariant var s := Start(cs, i, degree, true);
                && iknotT == |s.knots| && imultT == |s.mults| && icpT == |s.poles| && HoldsC1(knots, mults, cpoints, s)
    {
      Room(cs, i + 1, degree, true);
      NextStart(cs, i, degree, true);
      iknotT, imultT, icpT := CopyC1(cs, i, degree, knots, mults, cpoints, iknotT, imultT, icpT,
                                     Start(cs, i, degree, true));
    }
    var c := FinishC1(cs, degree, knots, mults, cpoints, iknotT, imultT, icpT);
    r := Some(c);
  }

  lemma HoldsNothingC1(knots: array<real>, mults: array<nat>, cpoints: array<Point>)
    ensures HoldsC1(knots, mults, cpoints, Curve([], [], [], []))
  {
  }

  method CopyC1(cs: seq<Curve>, i: nat, degree: nat, knots: array<real>, mults: array<nat>, cpoints: array<Point>,
                iknot: nat, imult: nat, icp: nat, ghost s: Curve)
    returns (iknotT: nat, imultT: nat, icpT: nat)
    requires i < |cs| && AllWellFormed(cs) && degree > 0
    requires iknot == |s.knots| && imult == |s.mults| && icp == |s.poles| && HoldsC1(knots, mults, cpoints, s)
    requires var t := AppendCurve(s, cs, i, degree, true);
             |t.knots| <= knots.Length && |t.mults| <= mults.Length && |t.poles| <= cpoints.Length
    modifies knots, mults, cpoints
    ensures var t := AppendCurve(s, cs, i, degree, true);
            && iknotT == |t.knots| && imultT == |t.mults| && icpT == |t.poles| && HoldsC1(knots, mults, cpoints, t)
  {
    hide AppendCurve, Middle;
    AppendedC1(s, cs, i, degree);
    var c := cs[i];
    iknotT, imultT := CopyKnots(c, if i == 0 then c.mults[0] else degree - 1, knots, mults, iknot, imult);
    icpT := icp;
    if i == 0 {
      Put(cpoints, icpT, c.poles[0]);
      icpT := icpT + 1;
    }
    icpT := CopyMiddle(cpoints, icpT, c.poles);
  }

  /** The curve is built without weights, so all of them are 1. */
  method FinishC1(cs: seq<Curve>, degree: nat, knots: array<real>, mults: array<nat>, cpoints: array<Point>,
                  iknotT: nat, imultT: nat, icpT: nat)
    returns (r: Curve)
    requires cs != [] && AllWellFormed(cs) && degree > 0
    requires var s, j := Start(cs, |cs|, degree, true), Joined(cs, degree, true);
             && iknotT == |s.knots| && imultT == |s.mults| && icpT == |s.poles|
             && knots.Length == mults.Length == |j.knots| && cpoints.Length == |j.poles|
             && HoldsC1(knots, mults, cpoints, s)
    modifies knots, mults, cpoints
    ensures r == Unweighted(Joined(cs, degree, true))
  {
    hide Start;
    StartGrows(cs, |cs|, |cs|, degree, true);
    PutLast(cs[|cs| - 1], knots, mults, cpoints, iknotT, imultT, icpT);
    var ones := seq(cpoints.Length, i => 1.0);
    assert ones == Unweighted(Joined(cs, degree, true)).weights;
    r := Curve(knots[..], mults[..], cpoints[..], ones);
  }

  // The result is a B-spline curve again.

  /** Where a curve ends, the next one begins. */
  ghost predicate Connected(cs: seq<Curve>)
    requires AllWellFormed(cs)
  {
    forall i :: 0 < i < |cs| ==> cs[i - 1].LastParameter() == cs[i].FirstParameter()
  }

  lemma {:induction false} TotalOfSum(a: seq<nat>, b: seq<nat>)
    ensures Total(a + b) == Total(a) + Total(b)
  {
    if b == [] {
      assert a + b == a;
    } else {
      assert (a + b)[..|a + b| - 1] == a + b[..|b| - 1];
      TotalOfSum(a, b[..|b| - 1]);
    }
  }

  lemma TotalOfMiddle(s: seq<nat>)
    requires |s| >= 2
    ensures Total(s) == s[0] + Total(Middle(s)) + s[|s| - 1]
  {
    hide Total;
    var last := s[|s| - 1];
    assert s == [s[0]] + Middle(s) + [last];
    TotalOfSum([s[0]] + Middle(s), [last]);
    TotalOfSum([s[0]], Middle(s));
    TotalOfOne(s[0]);
    TotalOfOne(last);
  }

  lemma TotalOfOne(m: nat)
    ensures Total([m]) == m && Total([]) == 0
  {
  }

  /** What is filled in after n curves: its knots ascend up to the end of curve n. */
  ghost predicate ValidStart(s: Curve, n: nat, end: real, degree: nat) {
    && |s.knots| == |s.mults| && |s.poles| == |s.weights|
    && StrictlyIncreasing(s.knots + [end])
    && (forall i :: 0 <= i < |s.mults| ==> s.mults[i] > 0)
    && n <= |s.knots|
    && (n == 0 ==> s.mults == [] && s.poles == [])
    && (n > 0 ==> s.mults[0] == degree + 1 && Total(s.mults) == |s.poles| + 1)
  }

  lemma AppendIsValid(s: Curve, cs: seq<Curve>, i: nat, degree: nat, smooth: bool)
    requires i < |cs| && AllWellFormed(cs) && degree > (if smooth && i > 0 then 1 else 0)
    requires Valid(cs[i], degree) && ValidStart(s, i, cs[i].FirstParameter(), degree)
    ensures ValidStart(AppendCurve(s, cs, i, degree, smooth), i + 1, cs[i].LastParameter(), degree)
  {
    var c, t := cs[i], AppendCurve(s, cs, i, degree, smooth);
    var joint := if i == 0 then c.mults[0] else JointMult(degree, smooth);
    AppendedTotal(s.mults, joint, c.mults);
    AppendedKnots(s.knots, c);
    hide StrictlyIncreasing, Midpoint, Total;
  }

  lemma AppendedTotal(s: seq<nat>, joint: nat, mults: seq<nat>)
    requires |mults| >= 2
    ensures Total(s + [joint] + Middle(mults)) == Total(s) + joint + Total(mults) - mults[0] - mults[|mults| - 1]
    ensures Total([]) == 0
  {
    hide Total;
    TotalOfMiddle(mults);
    TotalOfSum(s + [joint], Middle(mults));
    TotalOfSum(s, [joint]);
    TotalOfOne(joint);
  }

  lemma AppendedKnots(knots: seq<real>, c: Curve)
    requires c.WellFormed() && StrictlyIncreasing(knots + [c.FirstParameter()]) && StrictlyIncreasing(c.knots)
    ensures StrictlyIncreasing(knots + [c.knots[0]] + Middle(c.knots) + [c.LastParameter()])
  {
    hide StrictlyIncreasing;
    assert knots + [c.knots[0]] + Middle(c.knots) + [c.LastParameter()] == knots + c.knots;
    IncreasingTogether(knots, c.knots);
  }

  lemma IncreasingTogether(a: seq<real>, b: seq<real>)
    requires b != [] && StrictlyIncreasing(a + [b[0]]) && StrictlyIncreasing(b)
    ensures StrictlyIncreasing(a + b)
  {
    var c := a + [b[0]];
    assert forall i :: 0 <= i < |a| ==> c[i] == a[i] && c[i] < c[|a|];
    assert forall i :: 0 <= i < |b| ==> b[0] <= b[i];
    assert forall i, j :: 0 <= i < |a| && 0 <= j < |b| ==> a[i] < b[j];
  }

  lemma {:induction false} StartIsValid(cs: seq<Curve>, n: nat, degree: nat, smooth: bool)
    requires 0 < n <= |cs| && AllWellFormed(cs) && Connected(cs) && degree > (if smooth && n > 1 then 1 else 0)
    requires forall i :: 0 <= i < |cs| ==> Valid(cs[i], degree)
    ensures ValidStart(Start(cs, n, degree, smooth), n, cs[n - 1].LastParameter(), degree)
  {
    hide AppendCurve, StrictlyIncreasing;
    if n > 1 {
      StartIsValid(cs, n - 1, degree, smooth);
    } else {
      IncreasingAlone(cs[0].knots[0]);
    }
    AppendIsValid(Start(cs, n - 1, degree, smooth), cs, n - 1, degree, smooth);
  }

  lemma IncreasingAlone(x: real)
    ensures StrictlyIncreasing([] + [x])
  {
  }

  /** Both ways of joining give a clamped B-spline curve with ascending knots, over the joint range. The one exception
      is smooth joining at degree 1, which would need joints of multiplicity 0. */
  lemma JoinedIsValid(cs: seq<Curve>, degree: nat, smooth: bool)
    requires cs != [] && AllWellFormed(cs) && Connected(cs) && degree > 0
    requires forall i :: 0 <= i < |cs| ==> Valid(cs[i], degree)
    ensures var r := Joined(cs, degree, smooth);
            && (Valid(r, degree) <==> !(smooth && degree == 1 && |cs| > 1))
            && r.WellFormed()
            && r.FirstParameter() == cs[0].FirstParameter()
            && r.LastParameter() == cs[|cs| - 1].LastParameter()
  {
    hide Start, StrictlyIncreasing;
    var s := Start(cs, |cs|, degree, smooth);
    FirstOfStart(cs, |cs|, degree, smooth);
    StartGrows(cs, |cs|, |cs|, degree, smooth);
    if smooth && degree == 1 && |cs| > 1 {
      SmoothLine(cs);
    } else {
      StartIsValid(cs, |cs|, degree, smooth);
      TotalOfSum(s.mults, [degree + 1]);
      TotalOfOne(degree + 1);
    }
  }

  lemma SmoothLine(cs: seq<Curve>)
    requires |cs| > 1 && AllWellFormed(cs)
    ensures exists k :: 0 <= k < |Joined(cs, 1, true).mults| && Joined(cs, 1, true).mults[k] == 0
  {
    hide Start, AppendCurve;
    var s, t := Start(cs, 1, 1, true), Start(cs, 2, 1, true);
    NextStart(cs, 1, 1, true);
    AppendedC1(s, cs, 1, 1);
    StartGrows(cs, 2, |cs|, 1, true);
    assert t.mults[|s.mults|] == 0;
    assert Joined(cs, 1, true).mults[|s.mults|] == 0;
  }

  lemma {:induction false} FirstOfStart(cs: seq<Curve>, n: nat, degree: nat, smooth: bool)
    requires 0 < n <= |cs| && AllWellFormed(cs) && degree > 0
    ensures var s := Start(cs, n, degree, smooth);
            |s.knots| > 0 && s.knots[0] == cs[0].FirstParameter() && |s.poles| == |s.weights| > 0
  {
    if n > 1 {
      FirstOfStart(cs, n - 1, degree, smooth);
    }
  }

  // Joining with a joint of multiplicity degree keeps every curve as it is.

  function Repeated(u: real, m: nat): (r: seq<real>)
    ensures |r| == m && forall i :: 0 <= i < m ==> r[i] == u
  {
    seq(m, i => u)
  }

  /** The knots, each as often as its multiplicity says. */
  function Flat(knots: seq<real>, mults: seq<nat>): (r: seq<real>)
    requires |knots| == |mults|
    ensures |r| == Total(mults)
  {
    if knots == [] then [] else
      Flat(knots[..|knots| - 1], mults[..|knots| - 1]) + Repeated(knots[|knots| - 1], mults[|knots| - 1])
  }

  function Ratio(x: real, a: real, b: real): real {
    if a == b then 0.0 else (x - a) / (b - a)
  }

  function Mix(a: real, x: real, y: real): real {
    (1.0 - a) * x + a * y
  }

  /** De Boor's algorithm: with r == degree and i == k, the value at x of the polynomial of the span from t[k] to t[k +
      1]. */
  function DeBoor(t: seq<real>, p: seq<real>, degree: nat, x: real, r: nat, i: nat): real
    requires |t| == |p| + degree + 1 && r <= degree && r <= i < |p|
    decreases r
  {
    if r == 0 then p[i] else
      var a := Ratio(x, t[i], t[i + degree + 1 - r]);
      Mix(a, DeBoor(t, p, degree, x, r - 1, i - 1), DeBoor(t, p, degree, x, r - 1, i))
  }

  lemma DeBoorBase(t: seq<real>, p: seq<real>, degree: nat, x: real, i: nat)
    requires |t| == |p| + degree + 1 && i < |p|
    ensures DeBoor(t, p, degree, x, 0, i) == p[i]
  {
  }

  lemma DeBoorStep(t: seq<real>, p: seq<real>, degree: nat, x: real, r: nat, i: nat)
    requires |t| == |p| + degree + 1 && 0 < r <= degree && r <= i < |p|
    ensures var a := Ratio(x, t[i], t[i + degree + 1 - r]);
            DeBoor(t, p, degree, x, r, i)
            == Mix(a, DeBoor(t, p, degree, x, r - 1, i - 1), DeBoor(t, p, degree, x, r - 1, i))
  {
    hide Ratio, Mix;
  }

  /** One number for every pole, such as its weighted coordinate. */
  function Controls(c: Curve, f: (Point, real) -> real): (r: seq<real>)
    requires |c.poles| == |c.weights|
    ensures |r| == |c.poles| && forall i :: 0 <= i < |r| ==> r[i] == f(c.poles[i], c.weights[i])
  {
    seq(|c.poles|, i requires 0 <= i < |c.poles| => f(c.poles[i], c.weights[i]))
  }

  /** From offset on, t' and p' are t and p; the outermost knots do not matter. */
  ghost predicate Contains(t': seq<real>, p': seq<real>, t: seq<real>, p: seq<real>, offset: nat) {
    && |t| >= 2 && offset + |t| - 1 <= |t'| && t'[offset + 1..offset + |t| - 1] == t[1..|t| - 1]
    && offset + |p| <= |p'| && p'[offset..offset + |p|] == p
  }

  lemma ContainedAt(t': seq<real>, p': seq<real>, t: seq<real>, p: seq<real>, offset: nat, j: nat)
    requires Contains(t', p', t, p, offset)
    ensures 0 < j < |t| - 1 ==> offset + j < |t'| && t'[offset + j] == t[j]
    ensures j < |p| ==> offset + j < |p'| && p'[offset + j] == p[j]
  {
    if 0 < j < |t| - 1 {
      assert t'[offset + j] == t'[offset + 1..offset + |t| - 1][j - 1];
    }
    if j < |p| {
      assert p'[offset + j] == p'[offset..offset + |p|][j];
    }
  }

  lemma {:induction false} ContainedDeBoor(t': seq<real>, p': seq<real>, t: seq<real>, p: seq<real>, offset: nat,
                                           degree: nat, x: real, r: nat, i: nat)
    requires |t| == |p| + degree + 1 && |t'| == |p'| + degree + 1 && Contains(t', p', t, p, offset)
    requires r <= degree && r <= i < |p|
    ensures offset + i < |p'|
    ensures DeBoor(t', p', degree, x, r, offset + i) == DeBoor(t, p, degree, x, r, i)
    decreases r
  {
    hide Ratio, Mix, Contains;
    ContainedAt(t', p', t, p, offset, i);
    if r > 0 {
      ContainedDeBoor(t', p', t, p, offset, degree, x, r - 1, i - 1);
      ContainedDeBoor(t', p', t, p, offset, degree, x, r - 1, i);
      ContainedAt(t', p', t, p, offset, i + degree + 1 - r);
    }
  }

  lemma {:induction false} FlatOfSum(a: seq<real>, ma: seq<nat>, b: seq<real>, mb: seq<nat>)
    requires |a| == |ma| && |b| == |mb|
    ensures Flat(a + b, ma + mb) == Flat(a, ma) + Flat(b, mb)
  {
    if b == [] {
      assert a + b == a && ma + mb == ma;
    } else {
      var n := |b| - 1;
      assert (a + b)[..|a + b| - 1] == a + b[..n] && (ma + mb)[..|a + b| - 1] == ma + mb[..n];
      FlatOfSum(a, ma, b[..n], mb[..n]);
    }
  }

  lemma FlatOfOne(u: real, m: nat)
    ensures Flat([u], [m]) == Repeated(u, m)
  {
    assert Flat([], []) == [];
  }

  /** The flat knots of a curve without the ends. */
  lemma FlatOfMiddle(c: Curve, joint: nat)
    requires c.WellFormed()
    ensures Flat([c.knots[0]] + Middle(c.knots), [joint] + Middle(c.mults))
            == Repeated(c.knots[0], joint) + Flat(Middle(c.knots), Middle(c.mults))
    ensures Flat(c.knots, c.mults)
            == Repeated(c.knots[0], c.mults[0]) + Flat(Middle(c.knots), Middle(c.mults))
               + Repeated(c.LastParameter(), c.mults[|c.mults| - 1])
  {
    hide Flat;
    var n := |c.knots| - 1;
    var k0, m0, kn, mn := [c.knots[0]], c.mults[0], [c.knots[n]], c.mults[n];
    FlatOfSum(k0, [joint], Middle(c.knots), Middle(c.mults));
    FlatOfOne(c.knots[0], joint);
    FlatOfSum(k0, [m0], Middle(c.knots), Middle(c.mults));
    FlatOfOne(c.knots[0], m0);
    FlatOfSum(k0 + Middle(c.knots), [m0] + Middle(c.mults), kn, [mn]);
    FlatOfOne(c.knots[n], mn);
    assert c.knots == k0 + Middle(c.knots) + kn && c.mults == [m0] + Middle(c.mults) + [mn];
  }

  /** Where a curve ends, the next one begins, with the same pole and weight. */
  ghost predicate Meet(c: Curve, e: Curve)
    requires c.WellFormed() && e.WellFormed()
  {
    && c.LastParameter() == e.FirstParameter()
    && c.poles[|c.poles| - 1] == e.poles[0] && c.weights[|c.weights| - 1] == e.weights[0]
  }

  ghost predicate AllMeet(cs: seq<Curve>)
    requires AllWellFormed(cs)
  {
    forall i {:trigger cs[i]} :: 0 < i < |cs| ==> Meet(cs[i - 1], cs[i])
  }

  ghost predicate AllValid(cs: seq<Curve>, degree: nat) {
    AllWellFormed(cs) && forall i :: 0 <= i < |cs| ==> Valid(cs[i], degree)
  }

  function FlatKnots(c: Curve): (r: seq<real>)
    requires |c.knots| == |c.mults|
    ensures |r| == Total(c.mults)
  {
    Flat(c.knots, c.mults)
  }

  lemma MidpointOfSame(p: Point)
    ensures Midpoint(p, p) == p
  {
  }

  /** One more curve: its flat knots and poles follow, where the joint takes one knot less than the start of the curve
      has. */
  lemma FlatOfNext(cs: seq<Curve>, i: nat, degree: nat)
    requires i < |cs| && degree > 0 && AllValid(cs, degree) && AllMeet(cs)
    ensures var s, t, c := Start(cs, i, degree, false), Start(cs, i + 1, degree, false), cs[i];
            && EvenlyFilled(s) && EvenlyFilled(t)
            && FlatKnots(t) == FlatKnots(s) + Repeated(c.knots[0], if i == 0 then degree + 1 else degree)
                                 + Flat(Middle(c.knots), Middle(c.mults))
            && t.poles == s.poles + [c.poles[0]] + Middle(c.poles)
            && t.weights == s.weights + [c.weights[0]] + Middle(c.weights)
  {
    hide Flat, Start, Valid, AppendCurve;
    var s, c := Start(cs, i, degree, false), cs[i];
    var joint := if i == 0 then c.mults[0] else degree;
    StartGrows(cs, i, i + 1, degree, false);
    NextStart(cs, i, degree, false);
    FlatOfMiddle(c, joint);
    FlatOfSum(s.knots, s.mults, [c.knots[0]] + Middle(c.knots), [joint] + Middle(c.mults));
    FirstMult(c, degree);
    MidpointOfSame(c.poles[0]);
    AppendedC0(s, cs, i, degree, c.poles[0], c.weights[0]);
    assert s.knots + ([c.knots[0]] + Middle(c.knots)) == s.knots + [c.knots[0]] + Middle(c.knots);
    assert s.mults + ([joint] + Middle(c.mults)) == s.mults + [joint] + Middle(c.mults);
  }

  lemma FirstMult(c: Curve, degree: nat)
    requires Valid(c, degree)
    ensures c.WellFormed() && c.mults[0] == c.mults[|c.mults| - 1] == degree + 1
            && Total(c.mults) == |c.poles| + degree + 1
  {
  }

  lemma FlatOfJoined(cs: seq<Curve>, degree: nat)
    requires cs != [] && degree > 0 && AllValid(cs, degree)
    ensures var s, r, c := Start(cs, |cs|, degree, false), Joined(cs, degree, false), cs[|cs| - 1];
            && EvenlyFilled(s) && EvenlyFilled(r)
            && FlatKnots(r) == FlatKnots(s) + Repeated(c.LastParameter(), degree + 1)
  {
    hide Flat, Start, Valid;
    var s, c := Start(cs, |cs|, degree, false), cs[|cs| - 1];
    StartGrows(cs, |cs|, |cs|, degree, false);
    FirstMult(c, degree);
    FlatOfSum(s.knots, s.mults, [c.LastParameter()], [degree + 1]);
    FlatOfOne(c.LastParameter(), degree + 1);
  }

  /** The result begins with what is filled in for the first n curves and degree times the end of curve n. */
  lemma {:induction false} StartOfJoined(cs: seq<Curve>, n: nat, degree: nat)
    requires 0 < n <= |cs| && degree > 0 && AllValid(cs, degree) && AllMeet(cs)
    ensures var s, r, c := Start(cs, n, degree, false), Joined(cs, degree, false), cs[n - 1];
            && EvenlyFilled(s) && EvenlyFilled(r)
            && FlatKnots(s) + Repeated(c.LastParameter(), degree) <= FlatKnots(r)
            && s.poles + [c.poles[|c.poles| - 1]] <= r.poles
            && s.weights + [c.weights[|c.weights| - 1]] <= r.weights
    decreases |cs| - n
  {
    hide FlatKnots, Start, Valid, Flat, Middle, AllMeet;
    var r, c := Joined(cs, degree, false), cs[n - 1];
    if n == |cs| {
      FlatOfJoined(cs, degree);
      assert Repeated(c.LastParameter(), degree) <= Repeated(c.LastParameter(), degree + 1);
    } else {
      NeighboursMeet(cs, n);
      StartOfJoined(cs, n + 1, degree);
      FlatOfNext(cs, n, degree);
    }
  }

  lemma NeighboursMeet(cs: seq<Curve>, i: nat)
    requires AllWellFormed(cs) && AllMeet(cs) && 0 < i < |cs|
    ensures Meet(cs[i - 1], cs[i])
  {
  }

  lemma SliceOfPrefix<T>(a: seq<T>, b: seq<T>, s: seq<T>)
    requires a + b <= s
    ensures |a| + |b| <= |s| && s[|a|..|a| + |b|] == b
  {
    assert s[..|a| + |b|] == a + b;
  }

  /** The position of the first pole of curve i, and of its flat knots. */
  lemma OffsetOf(cs: seq<Curve>, i: nat, degree: nat)
    requires i < |cs| && degree > 0 && AllValid(cs, degree) && AllMeet(cs)
    ensures var s := Start(cs, i, degree, false);
            EvenlyFilled(s) && |FlatKnots(s)| == (if i == 0 then 0 else |s.poles| + 1) && (i == 0 ==> s.poles == [])
  {
    if i > 0 {
      forall k | 0 < k < |cs|
        ensures cs[k - 1].LastParameter() == cs[k].FirstParameter()
      {
        NeighboursMeet(cs, k);
      }
      StartIsValid(cs, i, degree, false);
    }
  }

  /** The flat knots of a clamped curve without the first and the last one. */
  lemma InnerFlatKnots(c: Curve, degree: nat)
    requires Valid(c, degree)
    ensures |FlatKnots(c)| == |c.poles| + degree + 1
    ensures FlatKnots(c)[1..|FlatKnots(c)| - 1]
            == Repeated(c.knots[0], degree) + Flat(Middle(c.knots), Middle(c.mults))
                + Repeated(c.LastParameter(), degree)
  {
    hide Flat, Middle;
    FlatOfMiddle(c, 0);
    var a, b := Repeated(c.knots[0], degree + 1), Repeated(c.LastParameter(), degree + 1);
    assert a[1..] == Repeated(c.knots[0], degree) && b[..degree] == Repeated(c.LastParameter(), degree);
  }

  lemma KnotsContained(cs: seq<Curve>, i: nat, degree: nat)
    requires i < |cs| && degree > 0 && AllValid(cs, degree) && AllMeet(cs)
    ensures var r, c, offset := Joined(cs, degree, false), cs[i], |Start(cs, i, degree, false).poles|;
            && EvenlyFilled(r)
            && |FlatKnots(c)| == |c.poles| + degree + 1 && offset + |FlatKnots(c)| - 1 <= |FlatKnots(r)|
            && FlatKnots(r)[offset + 1..offset + |FlatKnots(c)| - 1] == FlatKnots(c)[1..|FlatKnots(c)| - 1]
  {
    hide FlatKnots, Start, Valid, Flat, Joined, Repeated, AllMeet;
    var r, c, s := Joined(cs, degree, false), cs[i], Start(cs, i, degree, false);
    StartOfJoined(cs, i + 1, degree);
    FlatOfNext(cs, i, degree);
    OffsetOf(cs, i, degree);
    InnerFlatKnots(c, degree);
    RepeatedFirst(c.knots[0], degree);
    var first := if i == 0 then [c.knots[0]] else [];
    var b := Repeated(c.knots[0], degree);
    assert first + b == Repeated(c.knots[0], if i == 0 then degree + 1 else degree);
    Regrouped(FlatKnots(s), first, b, Flat(Middle(c.knots), Middle(c.mults)), Repeated(c.LastParameter(), degree),
              FlatKnots(r), FlatKnots(c), |s.poles|);
  }

  lemma Regrouped(a: seq<real>, first: seq<real>, b: seq<real>, c: seq<real>, d: seq<real>,
                  whole: seq<real>, part: seq<real>, offset: nat)
    requires a + (first + b) + c + d <= whole && |a| + |first| == offset + 1
    requires |part| >= 2 && part[1..|part| - 1] == b + c + d
    ensures offset + |part| - 1 <= |whole| && whole[offset + 1..offset + |part| - 1] == part[1..|part| - 1]
  {
    assert (a + first) + (b + c + d) == a + (first + b) + c + d;
    SliceOfPrefix(a + first, b + c + d, whole);
  }

  lemma PolesContained(cs: seq<Curve>, i: nat, degree: nat)
    requires i < |cs| && degree > 0 && AllValid(cs, degree) && AllMeet(cs)
    ensures var r, c, offset := Joined(cs, degree, false), cs[i], |Start(cs, i, degree, false).poles|;
            && EvenlyFilled(r) && offset + |c.poles| <= |r.poles|
            && r.poles[offset..offset + |c.poles|] == c.poles && r.weights[offset..offset + |c.weights|] == c.weights
  {
    hide FlatKnots, Start, Valid, Flat, Joined, Repeated, AllMeet, Middle;
    var r, c, s := Joined(cs, degree, false), cs[i], Start(cs, i, degree, false);
    StartOfJoined(cs, i + 1, degree);
    FlatOfNext(cs, i, degree);
    WholeFromMiddle(c.poles);
    WholeFromMiddle(c.weights);
    assert s.poles + c.poles == s.poles + [c.poles[0]] + Middle(c.poles) + [c.poles[|c.poles| - 1]];
    assert s.weights + c.weights == s.weights + [c.weights[0]] + Middle(c.weights) + [c.weights[|c.weights| - 1]];
    SliceOfPrefix(s.poles, c.poles, r.poles);
    SliceOfPrefix(s.weights, c.weights, r.weights);
  }

  /** Joining with multiplicity degree loses nothing: knots and poles of every curve are found in the result. */
  lemma JoinedContains(cs: seq<Curve>, i: nat, degree: nat, f: (Point, real) -> real)
    requires i < |cs| && degree > 0 && AllValid(cs, degree) && AllMeet(cs)
    ensures var r, c, offset := Joined(cs, degree, false), cs[i], |Start(cs, i, degree, false).poles|;
            && EvenlyFilled(r)
            && |FlatKnots(c)| == |c.poles| + degree + 1
            && Contains(FlatKnots(r), Controls(r, f), FlatKnots(c), Controls(c, f), offset)
  {
    hide FlatKnots, Start, Valid, Flat, Joined, AllMeet, Controls;
    KnotsContained(cs, i, degree);
    PolesContained(cs, i, degree);
    SliceOfControls(Joined(cs, degree, false), cs[i], |Start(cs, i, degree, false).poles|, f);
  }

  lemma RepeatedFirst(u: real, m: nat)
    ensures Repeated(u, m + 1) == [u] + Repeated(u, m)
  {
  }

  lemma WholeFromMiddle<T>(s: seq<T>)
    requires |s| >= 2
    ensures s == [s[0]] + Middle(s) + [s[|s| - 1]]
  {
  }

  lemma SliceOfControls(r: Curve, c: Curve, offset: nat, f: (Point, real) -> real)
    requires |r.poles| == |r.weights| && |c.poles| == |c.weights| && offset + |c.poles| <= |r.poles|
    requires r.poles[offset..offset + |c.poles|] == c.poles && r.weights[offset..offset + |c.weights|] == c.weights
    ensures Controls(r, f)[offset..offset + |c.poles|] == Controls(c, f)
  {
    forall k | 0 <= k < |c.poles|
      ensures r.poles[offset + k] == c.poles[k] && r.weights[offset + k] == c.weights[k]
    {
      assert r.poles[offset..offset + |c.poles|][k] == c.poles[k];
      assert r.weights[offset..offset + |c.poles|][k] == c.weights[k];
    }
  }

  /** The curve has as many flat knots as it should, and k is the index of a span. */
  ghost predicate HasSpan(c: Curve, degree: nat, k: nat) {
    EvenlyFilled(c) && |FlatKnots(c)| == |c.poles| + degree + 1 && degree <= k < |c.poles|
  }

  /** The value at x of the polynomial of span k, in the coordinate that f selects: a weighted coordinate or the
      weight. */
  function SpanValue(c: Curve, degree: nat, f: (Point, real) -> real, k: nat, x: real): real
    requires HasSpan(c, degree, k)
  {
    DeBoor(FlatKnots(c), Controls(c, f), degree, x, degree, k)
  }

  /** On span k of curve i the C0 result takes the value of the curve at x. */
  ghost predicate KeepsSpan(cs: seq<Curve>, i: nat, degree: nat, f: (Point, real) -> real, k: nat, x: real)
    requires AllWellFormed(cs) && i < |cs| && degree > 0 && HasSpan(cs[i], degree, k)
  {
    var r, offset := Joined(cs, degree, false), |Start(cs, i, degree, false).poles|;
    HasSpan(r, degree, offset + k) && SpanValue(r, degree, f, offset + k, x) == SpanValue(cs[i], degree, f, k, x)
  }

  /** On every span of every curve the result is the same polynomial. */
  lemma JoinedKeepsCurves(cs: seq<Curve>, i: nat, degree: nat, f: (Point, real) -> real, k: nat, x: real)
    requires i < |cs| && degree > 0 && AllValid(cs, degree) && AllMeet(cs) && HasSpan(cs[i], degree, k)
    ensures KeepsSpan(cs, i, degree, f, k, x)
  {
    hide FlatKnots, Start, Joined, Valid, Contains, Controls;
    var r, c, offset := Joined(cs, degree, false), cs[i], |Start(cs, i, degree, false).poles|;
    JoinedContains(cs, i, degree, f);
    MeetIsConnected(cs);
    JoinedIsValid(cs, degree, false);
    FirstMult(r, degree);
    ContainedDeBoor(FlatKnots(r), Controls(r, f), FlatKnots(c), Controls(c, f), offset, degree, x, degree, k);
  }

  lemma MeetIsConnected(cs: seq<Curve>)
    requires AllWellFormed(cs) && AllMeet(cs)
    ensures Connected(cs)
  {
    forall k | 0 < k < |cs|
      ensures cs[k - 1].LastParameter() == cs[k].FirstParameter()
    {
      NeighboursMeet(cs, k);
    }
  }
}
