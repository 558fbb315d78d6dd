/** Giving several B-splines the same knots by inserting knots from one another. */
module CompatibleKnots {
  import opened Wrappers

  datatype Error = DifferentRange | DifferentDegree | Unexpected

  /** A knot and its multiplicity. */
  datatype Knot = Knot(u: real, mult: nat)

  function Max(a: nat, b: nat): nat {
    if a < b then b else a
  }

  function Abs(a: real): real {
    if a < 0.0 then -a else a
  }

  function Values(s: seq<Knot>): set<real> {
    set k | k in s :: k.u
  }

  predicate Close(x: real, y: real, tol: real) {
    Abs(x - y) <= tol
  }

  /** Close values, those at just the tolerance included, are the ones of an interval. */
  lemma CloseIsWithin(x: real, y: real, tol: real)
    ensures Close(x, y, tol) <==> y - tol <= x <= y + tol
  {
  }

  /** A knot within the tolerance gets at least multiplicity m; if there is none, a knot is added. */
  function Insert(s: seq<Knot>, u: real, m: nat, tol: real): (r: seq<Knot>) {
    if s == [] then [Knot(u, m)]
    else if Close(s[0].u, u, tol) then [Knot(s[0].u, Max(s[0].mult, m))] + s[1..]
    else if u < s[0].u then [Knot(u, m)] + s
    else [s[0]] + Insert(s[1..], u, m, tol)
  }

  function InsertAll(s: seq<Knot>, t: seq<Knot>, tol: real): (r: seq<Knot>)
    decreases |t|
  {
    if t == [] then s else InsertAll(Insert(s, t[0].u, t[0].mult, tol), t[1..], tol)
  }

  function Interior(s: seq<Knot>): seq<Knot> {
    if |s| < 2 then [] else s[1..|s| - 1]
  }

  /** The first spline after the interior knots of the others have been inserted. */
  function Gathered(s: seq<Knot>, others: seq<seq<Knot>>, tol: real): (r: seq<Knot>)
    decreases |others|
  {
    if others == [] then s else Gathered(InsertAll(s, Interior(others[0]), tol), others[1..], tol)
  }

  function MinStep(s: seq<Knot>, tol: real): real {
    if |s| < 2 then tol
    else
      var t, half := MinStep(s[..|s| - 1], tol), (s[|s| - 1].u - s[|s| - 2].u) / 2.0;
      if half < t then half else t
  }

  /** The tolerance, or half of the smallest distance of two successive knots if that is less. */
  function Adjusted(ss: seq<seq<Knot>>, tol: real): real {
    if ss == [] then tol else MinStep(ss[|ss| - 1], Adjusted(ss[..|ss| - 1], tol))
  }

  /** Every distance of successive knots is at least 2 * d. */
  ghost predicate HasSteps(s: seq<Knot>, d: real) {
    forall k :: 0 < k < |s| ==> StepAt(s, k) >= 2.0 * d
  }

  function StepAt(s: seq<Knot>, k: nat): real
    requires 0 < k < |s|
  {
    s[k].u - s[k - 1].u
  }

  lemma {:induction false} MinStepIsGreatest(s: seq<Knot>, tol: real, d: real)
    ensures d <= MinStep(s, tol) <==> d <= tol && HasSteps(s, d)
  {
    if |s| >= 2 {
      var n := |s| - 1;
      MinStepIsGreatest(s[..n], tol, d);
      assert forall k :: 0 < k < n ==> StepAt(s[..n], k) == StepAt(s, k);
      assert StepAt(s, n) == s[n].u - s[n - 1].u;
    }
  }

  /** The adjusted tolerance is the greatest number that is neither above the tolerance nor above half of any step. */
  lemma {:induction false} AdjustedIsGreatest(ss: seq<seq<Knot>>, tol: real, d: real)
    ensures d <= Adjusted(ss, tol) <==> d <= tol && forall i :: 0 <= i < |ss| ==> HasSteps(ss[i], d)
  {
    if ss != [] {
      AdjustedIsGreatest(ss[..|ss| - 1], tol, d);
      MinStepIsGreatest(ss[|ss| - 1], Adjusted(ss[..|ss| - 1], tol), d);
    }
  }

  predicate HaveSameRange(ss: seq<seq<Knot>>, tol: real)
    requires |ss| > 0 && forall i :: 0 <= i < |ss| ==> |ss[i]| >= 2
  {
    forall i :: 0 < i < |ss| ==>
      && Abs(ss[i][0].u - ss[0][0].u) <= tol
      && Abs(ss[i][|ss[i]| - 1].u - ss[0][|ss[0]| - 1].u) <= tol
  }

  /** The ends of all splines are within the tolerance of those of the first one. */
  lemma SameRangeIsWithin(ss: seq<seq<Knot>>, tol: real)
    requires |ss| > 0 && forall i :: 0 <= i < |ss| ==> |ss[i]| >= 2
    ensures var a, b := ss[0][0].u, ss[0][|ss[0]| - 1].u;
            HaveSameRange(ss, tol) <==> forall i :: 0 < i < |ss| ==>
              a - tol <= ss[i][0].u <= a + tol && b - tol <= ss[i][|ss[i]| - 1].u <= b + tol
  {
  }

  class Spline {
    const degree: nat
    var knots: seq<Knot>

    constructor (degree: nat, knots: seq<Knot>)
      ensures this.degree == degree && this.knots == knots
    {
      this.degree := degree;
      this.knots := knots;
    }

    method InsertKnot(u: real, m: nat, tol: real)
      modifies this
      ensures knots == Insert(old(knots), u, m, tol)
    {
      knots := Insert(knots, u, m, tol);
    }
  }

  ghost function Views(splines: seq<Spline>): (r: seq<seq<Knot>>)
    reads splines
    ensures |r| == |splines| && forall i :: 0 <= i < |r| ==> r[i] == splines[i].knots
  {
    seq(|splines|, i requires 0 <= i < |splines| reads splines => splines[i].knots)
  }

  ghost predicate Distinct(splines: seq<Spline>) {
    forall i, j :: 0 <= i < j < |splines| ==> splines[i] != splines[j]
  }

  method AdjustTolerance(splines: seq<Spline>, tol: real) returns (t: real)
    ensures t == Adjusted(Views(splines), tol)
  {
    t := tol;
    ghost var ss := Views(splines);
    for i := 0 to |splines|
      invariant t == Adjusted(ss[..i], tol)
    {
      var knots := splines[i].knots;
      var before := t;
      var k := 1;
      while k < |knots|
        invariant 1 <= k && (k <= |knots| || k == 1)
        invariant t == MinStep(if k <= |knots| then knots[..k] else knots, before)
      {
        assert knots[..k + 1][..k] == knots[..k];
        var half := (knots[k].u - knots[k - 1].u) / 2.0;
        t := if half < t then half else t;
        k := k + 1;
      }
      assert k <= |knots| ==> knots[..k] == knots;
      assert ss[..i + 1][..i] == ss[..i];
    }
    assert ss[..|splines|] == ss;
  }

  /** Inserts the interior knots of one spline into another. */
  method InsertInterior(target: Spline, source: Spline, tol: real)
    requires target != source
    modifies target
    ensures target.knots == InsertAll(old(target.knots), Interior(source.knots), tol)
  {
    ghost var goal := InsertAll(target.knots, Interior(source.knots), tol);
    var k := 1;
    while k < |source.knots| - 1
      invariant 1 <= k && source.knots == old(source.knots)
      invariant |source.knots| >= 2 ==> k <= |source.knots| - 1
      invariant InsertAll(target.knots, if |source.knots| < 2 then [] else source.knots[k..|source.knots| - 1], tol)
                == goal
    {
      target.InsertKnot(source.knots[k].u, source.knots[k].mult, tol);
      k := k + 1;
    }
  }

  ghost predicate SameDegree(splines: seq<Spline>)
    requires |splines| > 0
  {
    forall i :: 0 <= i < |splines| ==> splines[i].degree == splines[0].degree
  }

  /** The knots of all splines after both passes. */
  function Final(ss: seq<seq<Knot>>, tol: real): (r: seq<seq<Knot>>)
    requires |ss| > 0
    ensures |r| == |ss| && r[0] == Gathered(ss[0], ss[1..], tol)
    ensures forall i :: 0 < i < |ss| ==> r[i] == InsertAll(ss[i], Interior(r[0]), tol)
  {
    var first := Gathered(ss[0], ss[1..], tol);
    seq(|ss|, i requires 0 <= i < |ss| => if i == 0 then first else InsertAll(ss[i], Interior(first), tol))
  }

  predicate SameNumbers(ss: seq<seq<Knot>>)
    requires |ss| > 0
  {
    forall i :: 0 < i < |ss| ==> |ss[i]| == |ss[0]|
  }

  method CheckRange(splines: seq<Spline>, tol: real) returns (same: bool)
    requires |splines| > 0 && forall i :: 0 <= i < |splines| ==> |splines[i].knots| >= 2
    ensures same <==> HaveSameRange(Views(splines), tol)
  {
    var first := splines[0].knots;
    for i := 1 to |splines|
      invariant forall j :: 0 < j < i ==>
                  && Abs(splines[j].knots[0].u - first[0].u) <= tol
                  && Abs(splines[j].knots[|splines[j].knots| - 1].u - first[|first| - 1].u) <= tol
    {
      var knots := splines[i].knots;
      if Abs(knots[0].u - first[0].u) > tol || Abs(knots[|knots| - 1].u - first[|first| - 1].u) > tol {
        ghost var ss := Views(splines);
        assert ss[i] == knots;
        return false;
      }
    }
    return true;
  }

  method CheckDegree(splines: seq<Spline>) returns (same: bool)
    requires |splines| > 0
    ensures same <==> SameDegree(splines)
  {
    for i := 1 to |splines|
      invariant forall j :: 0 <= j < i ==> splines[j].degree == splines[0].degree
    {
      if splines[i].degree != splines[0].degree {
        return false;
      }
    }
    return true;
  }

  /** The first pass: all interior knots go into the first spline. */
  method GatherKnots(splines: seq<Spline>, tol: real)
    requires |splines| > 0 && Distinct(splines)
    modifies splines[0]
    ensures splines[0].knots == Gathered(old(splines[0].knots), old(Views(splines))[1..], tol)
    ensures forall i :: 0 < i < |splines| ==> splines[i].knots == old(splines[i].knots)
  {
    hide InsertAll, Interior;
    ghost var ss := Views(splines);
    ghost var goal := Gathered(splines[0].knots, ss[1..], tol);
    var first := splines[0];
    for i := 1 to |splines|
      invariant forall j :: 0 < j < |splines| ==> splines[j].knots == ss[j]
      invariant Gathered(first.knots, ss[i..], tol) == goal
    {
      InsertInterior(first, splines[i], tol);
    }
  }

  /** The second pass: the knots of the first spline go into all others, up to one that ends up with another number of
      knots. */
  method DistributeKnots(splines: seq<Spline>, tol: real) returns (same: bool)
    requires |splines| > 0 && Distinct(splines)
    modifies splines
    ensures var first := old(splines[0].knots);
            && splines[0].knots == first
            && (same ==> forall i :: 0 < i < |splines| ==>
                  splines[i].knots == InsertAll(old(splines[i].knots), Interior(first), tol)
                      && |splines[i].knots| == |first|)
            && (!same ==> exists i ::
                  0 < i < |splines| && |InsertAll(old(splines[i].knots), Interior(first), tol)| != |first|)
  {
    hide InsertAll, Interior;
    var first := splines[0];
    ghost var knots := first.knots;
    for i := 1 to |splines|
      invariant first.knots == knots
      invariant forall j :: 0 < j < i ==>
                  splines[j].knots == InsertAll(old(splines[j].knots), Interior(knots), tol)
                      && |splines[j].knots| == |knots|
      invariant forall j :: i <= j < |splines| ==> splines[j].knots == old(splines[j].knots)
    {
      InsertInterior(splines[i], first, tol);
      if |splines[i].knots| != |first.knots| {
        return false;
      }
    }
    same := true;
  }

  method MakeGeometryCompatible(splines: seq<Spline>, tol: real) returns (error: Option<Error>)
    requires |splines| > 0 && Distinct(splines) && forall i :: 0 <= i < |splines| ==> |splines[i].knots| >= 2
    modifies splines
    ensures var ss, t := old(Views(splines)), Adjusted(old(Views(splines)), tol);
            if !HaveSameRange(ss, tol) then error == Some(DifferentRange) && Views(splines) == ss
            else if !SameDegree(splines) then error == Some(DifferentDegree) && Views(splines) == ss
            else if !SameNumbers(Final(ss, t)) then error == Some(Unexpected)
            else error == None && Views(splines) == Final(ss, t)
  {
    hide Insert, InsertAll, Interior, Adjusted, Abs, Gathered, HaveSameRange, SameDegree;
    ghost var ss := Views(splines);
    var same := CheckRange(splines, tol);
    if !same {
      return Some(DifferentRange);
    }
    same := CheckDegree(splines);
    if !same {
      return Some(DifferentDegree);
    }
    var t := AdjustTolerance(splines, tol);
    ghost var goal := Final(ss, t);
    GatherKnots(splines, t);
    same := DistributeKnots(splines, t);
    error := if same then None else Some(Unexpected);
  }
}
