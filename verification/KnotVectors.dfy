/** The knot vector of a B-spline that interpolates points at given parameters. */
module KnotVectors {
  import opened Wrappers

  datatype Error = TooFewParameters

  ghost predicate StrictlyIncreasing(s: seq<real>) {
    forall i, j :: 0 <= i < j < |s| ==> s[i] < s[j]
  }

  ghost predicate NonDecreasing(s: seq<real>) {
    forall i, j :: 0 <= i < j < |s| ==> s[i] <= s[j]
  }

  /** The sum of s[lo..hi]. */
  function Total(s: seq<real>, lo: nat, hi: nat): real
    requires lo <= hi <= |s|
  {
    if lo == hi then 0.0 else Total(s, lo, hi - 1) + s[hi - 1]
  }

  /** Sizes for which no index leaves its range and no division is by zero. */
  predicate InRange(n: nat, degree: nat, closed: bool) {
    if closed then degree < n else 1 <= degree <= n
  }

  /** The middle of two neighbouring parameters, moved by half of the last step. */
  function HalfwayKnot(p: seq<real>, k: nat): real
    requires 0 < k < |p|
  {
    (p[k - 1] + p[k] + LastStep(p)) / 2.0
  }

  function HalfwayKnots(p: seq<real>): (r: seq<real>)
    requires |p| >= 2
    ensures |r| == |p| && r[0] == p[0]
    ensures forall k :: 1 <= k < |p| ==> r[k] == HalfwayKnot(p, k)
  {
    seq(|p|, k requires 0 <= k < |p| => if k == 0 then p[0] else HalfwayKnot(p, k))
  }

  lemma HalfwaySteps(p: seq<real>, k: nat)
    requires |p| >= 2 && 0 < k < |p|
    ensures HalfwayKnot(p, 1) == p[0] + 0.5 * (p[1] - p[0] + LastStep(p))
    ensures k + 1 < |p| ==> HalfwayKnot(p, k + 1) == HalfwayKnot(p, k) + 0.5 * (p[k] - p[k - 1] + (p[k + 1] - p[k]))
    ensures HalfwayKnot(p, |p| - 1) == p[|p| - 1]
  {
  }

  function LastStep(p: seq<real>): real
    requires |p| >= 2
  {
    p[|p| - 1] - p[|p| - 2]
  }

  function InnerKnots(p: seq<real>, degree: nat, closed: bool): (r: seq<real>)
    requires |p| >= 2 && InRange(|p|, degree, closed)
    ensures |r| == if closed then |p| else |p| - degree + 1
  {
    var n := |p|;
    if closed && degree % 2 == 0 then
      HalfwayKnots(p)
    else if closed then
      p
    else
      seq(n - degree + 1, k requires 0 <= k <= n - degree =>
        if k == n - degree then p[n - 1] else if k == 0 then p[0] else Total(p, k, k + degree) / degree as real)
  }

  function Front(inner: seq<real>, degree: nat, closed: bool): (r: seq<real>)
    requires inner != [] && (closed ==> degree < |inner|)
    ensures |r| == degree
    ensures forall k :: 0 <= k < degree ==>
              r[k] == if closed then inner[|inner| - 1 - degree + k] - (inner[|inner| - 1] - inner[0]) else inner[0]
  {
    seq(degree, k requires 0 <= k < degree =>
      if closed then inner[|inner| - 1 - degree + k] - (inner[|inner| - 1] - inner[0]) else inner[0])
  }

  function Back(inner: seq<real>, degree: nat, closed: bool): (r: seq<real>)
    requires inner != [] && (closed ==> degree < |inner|)
    ensures |r| == degree
    ensures forall k :: 0 <= k < degree ==>
              r[k] == if closed then inner[k + 1] + (inner[|inner| - 1] - inner[0]) else inner[|inner| - 1]
  {
    seq(degree, k requires 0 <= k < degree =>
      if closed then inner[k + 1] + (inner[|inner| - 1] - inner[0]) else inner[|inner| - 1])
  }

  function Padded(inner: seq<real>, degree: nat, closed: bool): (r: seq<real>)
    requires inner != [] && (closed ==> degree < |inner|)
    ensures |r| == |inner| + 2 * degree
  {
    Front(inner, degree, closed) + inner + Back(inner, degree, closed)
  }

  function Clamped(knots: seq<real>): (r: seq<real>)
    requires |knots| >= 2
  {
    knots[0 := knots[1]][|knots| - 1 := knots[0 := knots[1]][|knots| - 2]]
  }

  function Knots(p: seq<real>, degree: nat, closed: bool): (r: seq<real>)
    requires |p| >= 2 && InRange(|p|, degree, closed)
    ensures |r| == |p| + degree + if closed then degree else 1
  {
    var knots := Padded(InnerKnots(p, degree, closed), degree, closed);
    if closed && degree <= 1 then Clamped(knots) else knots
  }

  function ShiftedBy(p: seq<real>, d: real): (r: seq<real>)
    ensures |r| == |p| && forall k :: 0 <= k < |p| ==> r[k] == p[k] + d
  {
    seq(|p|, k requires 0 <= k < |p| => p[k] + d)
  }

  /** The parameters after the call. */
  function Shifted(p: seq<real>, degree: nat, closed: bool): (r: seq<real>)
    requires |p| >= 2
    ensures |r| == |p|
  {
    if closed && degree % 2 == 0 then ShiftedBy(p, LastStep(p) / 2.0) else p
  }

  method Differences(params: array<real>) returns (dparm: array<real>)
    requires params.Length >= 2
    ensures fresh(dparm) && dparm.Length == params.Length - 1
    ensures forall k :: 0 <= k < dparm.Length ==> dparm[k] == params[k + 1] - params[k]
  {
    dparm := new real[params.Length - 1];
    for i := 0 to dparm.Length
      invariant forall k :: 0 <= k < i ==> dparm[k] == params[k + 1] - params[k]
    {
      dparm[i] := params[i + 1] - params[i];
    }
  }

  method InnerForEvenDegree(params: array<real>) returns (inner: array<real>)
    requires params.Length >= 2
    modifies params
    ensures fresh(inner)
    ensures inner[..] == HalfwayKnots(old(params[..]))
    ensures params[..] == ShiftedBy(old(params[..]), LastStep(old(params[..])) / 2.0)
  {
    hide HalfwayKnot, HalfwayKnots, ShiftedBy;
    var n := params.Length;
    ghost var p := params[..];
    inner := new real[n];
    inner[0] := params[0];
    inner[n - 1] := params[n - 1];
    var m := n - 2;
    var dparm := Differences(params);
    HalfwaySteps(p, 1);
    inner[1] := inner[0] + 0.5 * (dparm[0] + dparm[m]);
    var i := 1;
    while i < m
      invariant 1 <= i && inner[0] == p[0] && inner[n - 1] == HalfwayKnot(p, n - 1)
      invariant forall k :: 1 <= k <= i && k < n - 1 ==> inner[k] == HalfwayKnot(p, k)
      modifies inner
    {
      HalfwaySteps(p, i);
      inner[i + 1] := inner[i] + 0.5 * (dparm[i - 1] + dparm[i]);
      i := i + 1;
    }
    assert inner[..] == HalfwayKnots(p);
    ShiftAll(params, dparm[m] / 2.0);
  }

  method ShiftAll(params: array<real>, d: real)
    modifies params
    ensures params[..] == ShiftedBy(old(params[..]), d)
  {
    for i := 0 to params.Length
      invariant forall k :: 0 <= k < params.Length ==> params[k] == if k < i then old(params[k]) + d else old(params[k])
    {
      params[i] := params[i] + d;
    }
  }

  method InnerByAveraging(params: array<real>, degree: nat) returns (inner: array<real>)
    requires params.Length >= 2 && 1 <= degree <= params.Length
    ensures fresh(inner)
    ensures inner[..] == InnerKnots(params[..], degree, false)
  {
    var n := params.Length;
    inner := new real[n - degree + 1];
    inner[0] := params[0];
    inner[n - degree] := params[n - 1];
    var j := 1;
    while j < n - degree
      invariant 1 <= j && (degree < n ==> j <= n - degree)
      invariant inner[n - degree] == params[n - 1] && (degree < n ==> inner[0] == params[0])
      invariant forall k :: 1 <= k < j && k < n - degree ==>
                inner[k] == Total(params[..], k, k + degree) / degree as real
    {
      var sum := 0.0;
      for i := j to j + degree
        invariant sum == Total(params[..], j, i)
      {
        sum := sum + params[i];
      }
      inner[j] := sum / degree as real;
      j := j + 1;
    }
  }

  method KnotsFromCurveParameters(params: array<real>, degree: nat, closed: bool) returns (r: Result<seq<real>, Error>)
    requires params.Length >= 2 ==> InRange(params.Length, degree, closed)
    modifies params
    ensures r == if params.Length < 2 then Failure(TooFewParameters)
            else Success(Knots(old(params[..]), degree, closed))
    ensures params[..] == if params.Length < 2 then old(params[..]) else Shifted(old(params[..]), degree, closed)
  {
    if params.Length < 2 {
      return Failure(TooFewParameters);
    }
    ghost var p := params[..];
    var n := params.Length;
    var inner;
    if closed && degree % 2 == 0 {
      inner := InnerForEvenDegree(params);
    } else if closed {
      inner := new real[n];
      for i := 0 to n
        invariant inner[..i] == params[..i]
        modifies inner
      {
        inner[i] := params[i];
      }
    } else {
      inner := InnerByAveraging(params, degree);
    }
    assert inner[..] == InnerKnots(p, degree, closed);
    assert params[..] == Shifted(p, degree, closed);
    var knots := Pad(inner, degree, closed);
    if closed && degree <= 1 {
      knots := knots[0 := knots[1]];
      knots := knots[|knots| - 1 := knots[|knots| - 2]];
    }
    r := Success(knots);
  }

  method Pad(inner: array<real>, degree: nat, closed: bool) returns (knots: seq<real>)
    requires inner.Length > 0 && (closed ==> degree < inner.Length)
    ensures knots == Padded(inner[..], degree, closed)
  {
    var m := inner.Length;
    var offset := inner[0] - inner[m - 1];
    knots := [];
    ghost var front, back := Front(inner[..], degree, closed), Back(inner[..], degree, closed);
    hide *;
    for i := 0 to degree
      invariant knots == front[..i]
    {
      knots := knots + [if closed then offset + inner[m - degree - 1 + i] else inner[0]];
    }
    for i := 0 to m
      invariant knots == front + inner[..i]
    {
      knots := knots + [inner[i]];
    }
    for i := 0 to degree
      invariant knots == front + inner[..] + back[..i]
    {
      knots := knots + [if closed then -offset + inner[i + 1] else inner[m - 1]];
    }
    PaddedIs(inner[..], degree, closed);
  }

  lemma PaddedIs(inner: seq<real>, degree: nat, closed: bool)
    requires inner != [] && (closed ==> degree < |inner|)
    ensures Padded(inner, degree, closed) == Front(inner, degree, closed) + inner + Back(inner, degree, closed)
  {
  }

  // Open curves.

  lemma {:induction false} TotalBetween(s: seq<real>, lo: nat, hi: nat)
    requires lo < hi <= |s| && StrictlyIncreasing(s)
    ensures s[lo] * (hi - lo) as real <= Total(s, lo, hi) <= s[hi - 1] * (hi - lo) as real
  {
    if hi - lo > 1 {
      TotalBetween(s, lo, hi - 1);
      AddBetween(s[lo], s[hi - 2], s[hi - 1], (hi - lo - 1) as real, Total(s, lo, hi - 1));
      assert (hi - lo) as real == (hi - lo - 1) as real + 1.0;
    } else {
      assert Total(s, lo, lo) == 0.0;
    }
  }

  lemma AddBetween(a: real, b: real, c: real, n: real, t: real)
    requires a < c && b < c && n >= 0.0 && a * n <= t <= b * n
    ensures a * (n + 1.0) <= t + c <= c * (n + 1.0)
  {
    assert (c - b) * n >= 0.0;
  }

  lemma Quotient(a: real, b: real, t: real, n: real)
    requires n > 0.0 && a * n <= t <= b * n
    ensures a <= t / n <= b
  {
    var q := t / n;
    assert q * n == t;
    Cancel(a, q, n);
    Cancel(q, b, n);
  }

  lemma Cancel(a: real, b: real, n: real)
    requires n > 0.0 && a * n <= b * n
    ensures a <= b
  {
    if a > b {
      Positive(a - b, n);
    }
  }

  lemma Positive(a: real, b: real)
    requires a > 0.0 && b > 0.0
    ensures a * b > 0.0
  {
  }

  /** An averaged knot is between the first and the last of the averaged parameters. */
  lemma AverageBetween(p: seq<real>, degree: nat, k: nat)
    requires StrictlyIncreasing(p) && 1 <= degree && k + degree <= |p|
    ensures p[k] <= Total(p, k, k + degree) / degree as real <= p[k + degree - 1]
  {
    TotalBetween(p, k, k + degree);
    Quotient(p[k], p[k + degree - 1], Total(p, k, k + degree), degree as real);
  }

  lemma {:induction false} TotalWithoutFirst(s: seq<real>, lo: nat, hi: nat)
    requires lo < hi <= |s|
    ensures Total(s, lo, hi) == s[lo] + Total(s, lo + 1, hi)
  {
    if lo + 1 < hi {
      TotalWithoutFirst(s, lo, hi - 1);
    }
  }

  lemma SmallerQuotient(s: real, t: real, n: real)
    requires n > 0.0 && s < t
    ensures s / n < t / n
  {
    var a, b := s / n, t / n;
    assert a * n == s && b * n == t;
    Cancel(a, b, n);
  }

  lemma AverageIncreases(p: seq<real>, degree: nat, k: nat)
    requires StrictlyIncreasing(p) && 1 <= degree && k + 1 + degree <= |p|
    ensures Total(p, k, k + degree) / degree as real < Total(p, k + 1, k + 1 + degree) / degree as real
  {
    TotalWithoutFirst(p, k, k + 1 + degree);
    SmallerQuotient(Total(p, k, k + degree), Total(p, k + 1, k + 1 + degree), degree as real);
  }

  lemma InnerStep(p: seq<real>, degree: nat, k: nat)
    requires |p| >= 2 && StrictlyIncreasing(p) && 1 <= degree < |p| && k < |p| - degree
    ensures InnerKnots(p, degree, false)[k] < InnerKnots(p, degree, false)[k + 1]
  {
    hide StrictlyIncreasing;
    var n := |p|;
    assert StrictlyIncreasing(p) && 0 < n - 1 ==> p[0] < p[n - 1] by {
      FirstBelow(p, 0, n - 1);
    }
    if 0 < k {
      AverageBetween(p, degree, k);
      if k + 1 < n - degree {
        AverageIncreases(p, degree, k);
      } else {
        FirstBelow(p, k + degree - 1, n - 1);
      }
    } else if 1 < n - degree {
      AverageBetween(p, degree, 1);
      FirstBelow(p, 0, 1);
    }
  }

  lemma FirstBelow(p: seq<real>, i: nat, j: nat)
    requires StrictlyIncreasing(p) && i < j < |p|
    ensures p[i] < p[j]
  {
  }

  lemma {:induction false} IncreasingBySteps(s: seq<real>)
    requires forall k :: 0 <= k < |s| - 1 ==> s[k] < s[k + 1]
    ensures StrictlyIncreasing(s)
  {
    if s != [] {
      var t := s[..|s| - 1];
      IncreasingBySteps(t);
      assert |t| > 0 ==> t[|t| - 1] < s[|t|];
    }
  }

  lemma OpenInnerIncreases(p: seq<real>, degree: nat)
    requires |p| >= 2 && StrictlyIncreasing(p) && 1 <= degree < |p|
    ensures StrictlyIncreasing(InnerKnots(p, degree, false))
  {
    hide InnerKnots, StrictlyIncreasing;
    var inner := InnerKnots(p, degree, false);
    forall k | 0 <= k < |inner| - 1
      ensures inner[k] < inner[k + 1]
    {
      InnerStep(p, degree, k);
    }
    IncreasingBySteps(inner);
  }

  /** The open knot vector is clamped, and every parameter is inside the support of its basis function. */
  lemma OpenKnots(p: seq<real>, degree: nat)
    requires StrictlyIncreasing(p) && 1 <= degree < |p|
    ensures var t := Knots(p, degree, false);
            && |t| == |p| + degree + 1
            && NonDecreasing(t)
            && (forall i :: 0 <= i <= degree ==> t[i] == p[0])
            && (forall i :: |p| <= i < |t| ==> t[i] == p[|p| - 1])
            && (forall i, j :: degree <= i < j <= |p| ==> t[i] < t[j])
            && Shifted(p, degree, false) == p
  {
    hide StrictlyIncreasing, InnerKnots;
    var inner, t := InnerKnots(p, degree, false), Knots(p, degree, false);
    OpenInnerIncreases(p, degree);
    OpenEnds(p, degree);
    forall i, j | 0 <= i < j < |inner|
      ensures inner[i] < inner[j]
    {
      FirstBelow(inner, i, j);
    }
    assert forall i :: degree <= i <= |p| ==> t[i] == inner[i - degree];
  }

  lemma OpenEnds(p: seq<real>, degree: nat)
    requires |p| >= 2 && 1 <= degree < |p|
    ensures var inner := InnerKnots(p, degree, false);
            inner[0] == p[0] && inner[|inner| - 1] == p[|p| - 1]
  {
  }

  /** The Schoenberg-Whitney condition, which makes the interpolation problem solvable. */
  lemma SchoenbergWhitney(p: seq<real>, degree: nat, i: nat)
    requires StrictlyIncreasing(p) && 1 <= degree < |p| && i < |p|
    ensures var t := Knots(p, degree, false);
            && |t| == |p| + degree + 1
            && (if i == 0 then t[0] == p[0] else t[i] < p[i])
            && (if i == |p| - 1 then t[i + degree + 1] == p[i] else p[i] < t[i + degree + 1])
  {
    hide StrictlyIncreasing, InnerKnots;
    var n, inner, t := |p|, InnerKnots(p, degree, false), Knots(p, degree, false);
    OpenEnds(p, degree);
    assert t[i] == if i <= degree then inner[0] else inner[i - degree];
    assert t[i + degree + 1] == if i + 1 <= n - degree then inner[i + 1] else inner[n - degree];
    if 0 < i {
      FirstBelow(p, 0, i);
      if degree < i {
        OpenInnerAt(p, degree, i - degree);
        AverageBetween(p, degree, i - degree);
        FirstBelow(p, i - 1, i);
      }
    }
    if i < n - 1 {
      FirstBelow(p, i, n - 1);
      if i + 1 < n - degree {
        OpenInnerAt(p, degree, i + 1);
        AverageBetween(p, degree, i + 1);
        FirstBelow(p, i, i + 1);
      }
    }
  }

  lemma OpenInnerAt(p: seq<real>, degree: nat, k: nat)
    requires |p| >= 2 && 1 <= degree < |p| && 0 < k < |p| - degree
    ensures InnerKnots(p, degree, false)[k] == Total(p, k, k + degree) / degree as real
  {
  }

  /** degree times an inner knot is the sum of as many parameters, so that from one inner knot to the next the sum loses
      one parameter and gains another. */
  lemma KnotsAreAverages(p: seq<real>, degree: nat, k: nat)
    requires |p| >= 2 && 1 <= degree < |p| && 0 < k < |p| - degree
    ensures var t := Knots(p, degree, false);
            && t[degree + k] * degree as real == Total(p, k, k + degree)
            && (k + 1 < |p| - degree ==>
                t[degree + k + 1] * degree as real - t[degree + k] * degree as real == p[k + degree] - p[k])
  {
    hide InnerKnots;
    OpenInnerAt(p, degree, k);
    TimesDivisor(Total(p, k, k + degree), degree as real);
    if k + 1 < |p| - degree {
      OpenInnerAt(p, degree, k + 1);
      TimesDivisor(Total(p, k + 1, k + 1 + degree), degree as real);
      TotalWithoutFirst(p, k, k + 1 + degree);
    }
  }

  lemma TimesDivisor(x: real, d: real)
    requires d != 0.0
    ensures (x / d) * d == x
  {
  }

  /** With as many parameters as the degree, all knots are the last parameter. */
  lemma TooFewParametersCollapse(p: seq<real>, i: nat)
    requires |p| >= 2 && i < |Knots(p, |p|, false)|
    ensures Knots(p, |p|, false)[i] == p[|p| - 1]
  {
  }

  // Closed curves.

  lemma ClosedInner(p: seq<real>, degree: nat)
    requires |p| >= 2 && degree < |p| && StrictlyIncreasing(p)
    ensures var inner := InnerKnots(p, degree, true);
            && StrictlyIncreasing(inner)
            && inner[0] == p[0] && inner[|p| - 1] == p[|p| - 1]
  {
    var n, inner := |p|, InnerKnots(p, degree, true);
    if degree % 2 == 0 {
      forall k | 0 <= k < n - 1
        ensures inner[k] < inner[k + 1]
      {
        assert p[n - 2] < p[n - 1] && p[k] < p[k + 1];
        if k > 0 {
          assert p[k - 1] < p[k];
        }
      }
      IncreasingBySteps(inner);
    }
  }

  lemma PaddedAt(inner: seq<real>, degree: nat, i: nat)
    requires 0 < degree < |inner| && i < |inner| + 2 * degree
    ensures var m := |inner|;
            var period := inner[m - 1] - inner[0];
            Padded(inner, degree, true)[i] ==
              if i < degree then inner[m - 1 - degree + i] - period
              else if i < degree + m then inner[i - degree]
              else inner[i - degree - m + 1] + period
  {
  }

  /** The closed knot vector repeats itself after |p| - 1 knots, one period later. */
  lemma ClosedKnots(p: seq<real>, degree: nat)
    requires 2 <= degree < |p| && StrictlyIncreasing(p)
    ensures var t, n := Knots(p, degree, true), |p|;
            && |t| == n + 2 * degree
            && StrictlyIncreasing(t)
            && t[degree] == p[0] && t[degree + n - 1] == p[n - 1]
            && forall i :: 0 <= i <= 2 * degree ==> t[i + n - 1] == t[i] + (p[n - 1] - p[0])
  {
    hide InnerKnots, Padded, StrictlyIncreasing;
    var n, inner, t := |p|, InnerKnots(p, degree, true), Knots(p, degree, true);
    ClosedInner(p, degree);
    forall i | 0 <= i <= 2 * degree
      ensures t[i + n - 1] == t[i] + (p[n - 1] - p[0])
    {
      PaddedAt(inner, degree, i);
      PaddedAt(inner, degree, i + n - 1);
    }
    PaddedAt(inner, degree, degree);
    PaddedAt(inner, degree, degree + n - 1);
    forall k | 0 <= k < |t| - 1
      ensures t[k] < t[k + 1]
    {
      PaddedAt(inner, degree, k);
      PaddedAt(inner, degree, k + 1);
      var a := if k < degree then n - 1 - degree + k else if k < degree + n - 1 then k - degree else k - degree - n + 1;
      FirstBelow(inner, a, a + 1);
    }
    IncreasingBySteps(t);
  }

  /** Each parameter is strictly between two knots, and each knot from index degree on is the middle of two parameters,
      where the last parameter is the first one a period later. */
  ghost predicate Alternate(t: seq<real>, q: seq<real>, degree: nat, period: real)
    requires |q| >= 2 && |t| == |q| + 2 * degree && degree > 0
  {
    var n := |q|;
    && q[n - 1] == q[0] + period
    && t[degree] == (q[n - 2] - period + q[0]) / 2.0
    && (forall k :: 1 <= k < n ==> t[degree + k] == (q[k - 1] + q[k]) / 2.0)
    && (forall k :: 0 <= k < n ==> t[degree + k] < q[k] < t[degree + k + 1])
  }

  /** For an even degree the inner knots halve the distances between the shifted parameters, also across the seam, so
      that knots and parameters alternate. */
  lemma EvenDegreeInterleaves(p: seq<real>, degree: nat)
    requires 2 <= degree < |p| && degree % 2 == 0 && StrictlyIncreasing(p)
    ensures Alternate(Knots(p, degree, true), Shifted(p, degree, true), degree, p[|p| - 1] - p[0])
  {
    hide Padded, HalfwayKnots, ShiftedBy, StrictlyIncreasing;
    var n, inner, t, q := |p|, HalfwayKnots(p), Knots(p, degree, true), Shifted(p, degree, true);
    EvenKnots(p, degree);
    FirstBelow(p, n - 2, n - 1);
    forall k | 0 <= k < n
      ensures t[degree + k] < q[k] < t[degree + k + 1]
    {
      PaddedAt(inner, degree, degree + k);
      PaddedAt(inner, degree, degree + k + 1);
      if k + 1 < n {
        FirstBelow(p, k, k + 1);
      } else {
        FirstBelow(p, 0, 1);
      }
      if k > 0 {
        FirstBelow(p, k - 1, k);
      }
    }
    forall k | 1 <= k < n
      ensures t[degree + k] == (q[k - 1] + q[k]) / 2.0
    {
      PaddedAt(inner, degree, degree + k);
    }
    PaddedAt(inner, degree, degree);
  }

  lemma EvenKnots(p: seq<real>, degree: nat)
    requires 2 <= degree < |p| && degree % 2 == 0
    ensures Knots(p, degree, true) == Padded(HalfwayKnots(p), degree, true)
    ensures Shifted(p, degree, true) == ShiftedBy(p, LastStep(p) / 2.0)
  {
  }

  /** For an odd degree the parameters stay and are knots themselves. */
  lemma OddDegreeInterpolatesAtKnots(p: seq<real>, degree: nat, k: nat)
    requires 3 <= degree < |p| && degree % 2 == 1 && k < |p|
    ensures Shifted(p, degree, true) == p && Knots(p, degree, true)[degree + k] == p[k]
  {
    hide Padded;
    PaddedAt(p, degree, degree + k);
  }

  /** A closed polyline is clamped instead. */
  lemma ClosedPolylineIsClamped(p: seq<real>)
    requires |p| >= 2
    ensures Knots(p, 1, true) == [p[0]] + p + [p[|p| - 1]]
  {
    var t := Knots(p, 1, true);
    assert |t| == |p| + 2;
    assert InnerKnots(p, 1, true) == p;
  }
}
