/** What the smooth joining of Bezier segments does to each of them. */
module SmoothJoin {
  import opened Concatenation
  import opened Geometry

  /** One polynomial segment: a clamped curve with two knots. */
  ghost predicate IsSegment(c: Curve, degree: nat) {
    && |c.knots| == 2 && c.knots[0] < c.knots[1]
    && c.mults == [degree + 1, degree + 1]
    && |c.poles| == |c.weights| == degree + 1
  }

  ghost predicate AreSegments(cs: seq<Curve>, degree: nat) {
    && (forall i :: 0 <= i < |cs| ==> IsSegment(cs[i], degree))
    && (forall i {:trigger cs[i]} :: 0 < i < |cs| ==> cs[i - 1].knots[1] == cs[i].knots[0])
  }

  lemma SegmentsAreWellFormed(cs: seq<Curve>, degree: nat)
    requires AreSegments(cs, degree) && degree >= 1
    ensures AllWellFormed(cs)
  {
  }

  lemma SegmentAt(cs: seq<Curve>, degree: nat, i: nat)
    requires AreSegments(cs, degree) && i < |cs|
    ensures IsSegment(cs[i], degree)
    ensures i > 0 ==> IsSegment(cs[i - 1], degree) && cs[i - 1].knots[1] == cs[i].knots[0]
  {
  }

  // The flat knots around a segment.

  /** p, degree - 1 times a, degree - 1 times b, e */
  function Window(p: real, a: real, b: real, e: real, degree: nat): (r: seq<real>)
    requires degree >= 2
    ensures |r| == 2 * degree
    ensures forall m :: 0 <= m < 2 * degree ==>
              r[m] == if m == 0 then p else if m < degree then a else if m < 2 * degree - 1 then b else e
  {
    [p] + Repeated(a, degree - 1) + Repeated(b, degree - 1) + [e]
  }

  lemma FlatOfTwo(a: real, b: real, m: nat)
    ensures Flat([a, b], [m, m]) == Repeated(a, m) + Repeated(b, m)
  {
    FlatOfSum([a], [m], [b], [m]);
    FlatOfOne(a, m);
    FlatOfOne(b, m);
    assert [a] + [b] == [a, b] && [m] + [m] == [m, m];
  }

  /** What joining adds for one more segment. */
  lemma NextSegment(cs: seq<Curve>, n: nat, degree: nat)
    requires AreSegments(cs, degree) && degree >= 2 && n < |cs|
    ensures AllWellFormed(cs)
    ensures var s, t, c := Start(cs, n, degree, true), Start(cs, n + 1, degree, true), cs[n];
            && EvenlyFilled(s) && EvenlyFilled(t)
            && FlatKnots(t) == FlatKnots(s) + Repeated(c.knots[0], if n == 0 then degree + 1 else degree - 1)
            && t.poles == s.poles + c.poles[if n == 0 then 0 else 1..degree]
            && t.weights == s.weights + c.weights[if n == 0 then 0 else 1..degree]
  {
    hide Start, AppendCurve, Flat, Total;
    SegmentsAreWellFormed(cs, degree);
    SegmentAt(cs, degree, n);
    StartGrows(cs, n, n + 1, degree, true);
    NextStart(cs, n, degree, true);
    var s, t, c := Start(cs, n, degree, true), Start(cs, n + 1, degree, true), cs[n];
    AppendedC1(s, cs, n, degree);
    var joint := if n == 0 then degree + 1 else degree - 1;
    FlatOfSum(s.knots, s.mults, [c.knots[0]], [joint]);
    FlatOfOne(c.knots[0], joint);
    assert t.knots == s.knots + [c.knots[0]] && t.mults == s.mults + [joint];
    assert [c.poles[0]] + Middle(c.poles) == c.poles[0..degree];
    assert [c.weights[0]] + Middle(c.weights) == c.weights[0..degree];
    assert s.poles + [c.poles[0]] + Middle(c.poles) == s.poles + ([c.poles[0]] + Middle(c.poles));
    assert s.weights + [c.weights[0]] + Middle(c.weights) == s.weights + ([c.weights[0]] + Middle(c.weights));
  }

  lemma LastSegment(cs: seq<Curve>, degree: nat)
    requires AreSegments(cs, degree) && degree >= 2 && cs != []
    ensures AllWellFormed(cs)
    ensures var s, r, c := Start(cs, |cs|, degree, true), Joined(cs, degree, true), cs[|cs| - 1];
            && EvenlyFilled(s) && EvenlyFilled(r)
            && FlatKnots(r) == FlatKnots(s) + Repeated(c.knots[1], degree + 1)
            && r.poles == s.poles + [c.poles[degree]]
            && r.weights == s.weights + [c.weights[degree]]
  {
    hide Start, Flat, Total;
    SegmentsAreWellFormed(cs, degree);
    SegmentAt(cs, degree, |cs| - 1);
    StartGrows(cs, |cs|, |cs|, degree, true);
    var s, c := Start(cs, |cs|, degree, true), cs[|cs| - 1];
    FlatOfSum(s.knots, s.mults, [c.knots[1]], [degree + 1]);
    FlatOfOne(c.knots[1], degree + 1);
  }

  /** The index of the span of segment i in the result: the last copy of its first knot. */
  ghost function SpanIndex(cs: seq<Curve>, i: nat, degree: nat): nat
    requires AreSegments(cs, degree) && degree >= 2 && i < |cs|
  {
    SegmentsAreWellFormed(cs, degree);
    |Start(cs, i + 1, degree, true).poles|
  }

  /** The knot before and the knot after segment i. */
  ghost function Before(cs: seq<Curve>, i: nat): real
    requires i < |cs| && |cs[i].knots| == 2 && (i > 0 ==> |cs[i - 1].knots| == 2)
  {
    if i > 0 then cs[i - 1].knots[0] else cs[i].knots[0]
  }

  ghost function After(cs: seq<Curve>, i: nat): real
    requires i < |cs| && |cs[i].knots| == 2 && (i + 1 < |cs| ==> |cs[i + 1].knots| == 2)
  {
    if i + 1 < |cs| then cs[i + 1].knots[1] else cs[i].knots[1]
  }

  /** There are as many flat knots as poles and one more; the last flat knot is the start of the last segment. */
  lemma {:induction false} SizeOfStart(cs: seq<Curve>, n: nat, degree: nat)
    requires AreSegments(cs, degree) && degree >= 2 && 0 < n <= |cs|
    ensures AllWellFormed(cs)
    ensures EvenlyFilled(Start(cs, n, degree, true))
    ensures var s, t := Start(cs, n, degree, true), FlatKnots(Start(cs, n, degree, true));
            && |t| == |s.poles| + 1 && |s.poles| >= degree
            && t[|t| - 1] == cs[n - 1].knots[0] && s.poles[|s.poles| - 1] == cs[n - 1].poles[degree - 1]
            && s.weights[|s.weights| - 1] == cs[n - 1].weights[degree - 1]
  {
    hide Start, FlatKnots, AreSegments;
    NextSegment(cs, n - 1, degree);
    SegmentAt(cs, degree, n - 1);
    if n > 1 {
      SizeOfStart(cs, n - 1, degree);
    } else {
      EmptyStart(cs, degree);
    }
  }

  lemma EmptyStart(cs: seq<Curve>, degree: nat)
    requires AllWellFormed(cs) && degree > 0
    ensures Start(cs, 0, degree, true) == Curve([], [], [], []) && FlatKnots(Start(cs, 0, degree, true)) == []
  {
  }

  /** What is filled in for n segments, and then the first knot and pole after them, begins the result. */
  lemma {:induction false} StartOfSmooth(cs: seq<Curve>, n: nat, degree: nat)
    requires AreSegments(cs, degree) && degree >= 2 && 0 < n <= |cs|
    ensures AllWellFormed(cs)
    ensures var s, r, c := Start(cs, n, degree, true), Joined(cs, degree, true), cs[n - 1];
            && EvenlyFilled(s) && EvenlyFilled(r)
            && FlatKnots(s) + Repeated(c.knots[1], degree - 1) + [After(cs, n - 1)] <= FlatKnots(r)
            && s.poles + [if n < |cs| then cs[n].poles[1] else c.poles[degree]] <= r.poles
            && s.weights + [if n < |cs| then cs[n].weights[1] else c.weights[degree]] <= r.weights
    decreases |cs| - n
  {
    hide Start, FlatKnots, AreSegments, Joined;
    var c := cs[n - 1];
    SegmentAt(cs, degree, n - 1);
    if n == |cs| {
      LastSegment(cs, degree);
      TwoLess(FlatKnots(Start(cs, n, degree, true)), c.knots[1], degree);
    } else {
      StartOfSmooth(cs, n + 1, degree);
      SegmentAt(cs, degree, n);
      NextSegment(cs, n, degree);
      var k := cs[n].knots[1];
      assert Repeated(k, degree - 1) == [k] + Repeated(k, degree - 2);
    }
  }

  lemma TwoLess(s: seq<real>, u: real, degree: nat)
    requires degree >= 1
    ensures s + Repeated(u, degree - 1) + [u] <= s + Repeated(u, degree + 1)
  {
  }

  lemma EndOfStart(cs: seq<Curve>, i: nat, degree: nat) returns (x: seq<real>)
    requires AreSegments(cs, degree) && degree >= 2 && i < |cs|
    ensures AllWellFormed(cs) && EvenlyFilled(Start(cs, i + 1, degree, true))
    ensures IsSegment(cs[i], degree) && (i > 0 ==> IsSegment(cs[i - 1], degree))
    ensures FlatKnots(Start(cs, i + 1, degree, true)) == x + [Before(cs, i)] + Repeated(cs[i].knots[0], degree - 1)
  {
    hide Start, FlatKnots, AreSegments;
    SegmentAt(cs, degree, i);
    NextSegment(cs, i, degree);
    var a := cs[i].knots[0];
    if i == 0 {
      EmptyStart(cs, degree);
      x := [a];
      assert Repeated(a, degree + 1) == [a] + [a] + Repeated(a, degree - 1);
    } else {
      SizeOfStart(cs, i, degree);
      var t := FlatKnots(Start(cs, i, degree, true));
      x := t[..|t| - 1];
      assert t == x + [t[|t| - 1]];
    }
  }

  /** The flat knots that matter for the span of segment i. */
  lemma KnotsOfSpan(cs: seq<Curve>, i: nat, degree: nat)
    requires AreSegments(cs, degree) && degree >= 2 && i < |cs|
    ensures AllWellFormed(cs) && EvenlyFilled(Joined(cs, degree, true))
    ensures IsSegment(cs[i], degree) && (i > 0 ==> IsSegment(cs[i - 1], degree))
            && (i + 1 < |cs| ==> IsSegment(cs[i + 1], degree))
    ensures var k, t, c := SpanIndex(cs, i, degree), FlatKnots(Joined(cs, degree, true)), cs[i];
            && degree <= k && k + degree < |t|
            && t[k - degree + 1..k + degree + 1] == Window(Before(cs, i), c.knots[0], c.knots[1], After(cs, i), degree)
  {
    hide Start, FlatKnots, AreSegments, Joined, Repeated;
    SegmentAt(cs, degree, i);
    if i + 1 < |cs| {
      SegmentAt(cs, degree, i + 1);
    }
    SizeOfStart(cs, i + 1, degree);
    StartOfSmooth(cs, i + 1, degree);
    var x := EndOfStart(cs, i, degree);
    var c := cs[i];
    WindowInside(x, Before(cs, i), c.knots[0], c.knots[1], After(cs, i), degree, FlatKnots(Joined(cs, degree, true)));
  }

  lemma WindowInside(x: seq<real>, p: real, a: real, b: real, e: real, degree: nat, t: seq<real>)
    requires degree >= 2 && x + [p] + Repeated(a, degree - 1) + Repeated(b, degree - 1) + [e] <= t
    ensures |x| + 2 * degree <= |t| && t[|x|..|x| + 2 * degree] == Window(p, a, b, e, degree)
  {
    hide Repeated;
    var w := Window(p, a, b, e, degree);
    assert x + w == x + [p] + Repeated(a, degree - 1) + Repeated(b, degree - 1) + [e];
    SliceOfPrefix(x, w, t);
  }

  /** The pole before and the pole after the inner poles of segment i. */
  ghost function PoleBefore<T>(rows: seq<seq<T>>, i: nat, degree: nat): T
    requires degree > 0 && i < |rows| && forall j :: 0 <= j < |rows| ==> |rows[j]| == degree + 1
  {
    if i > 0 then rows[i - 1][degree - 1] else rows[i][0]
  }

  ghost function PoleAfter<T>(rows: seq<seq<T>>, i: nat, degree: nat): T
    requires degree > 0 && i < |rows| && forall j :: 0 <= j < |rows| ==> |rows[j]| == degree + 1
  {
    if i + 1 < |rows| then rows[i + 1][1] else rows[i][degree]
  }

  ghost function PolesOf(cs: seq<Curve>, degree: nat): (r: seq<seq<Point>>)
    requires AreSegments(cs, degree)
    ensures |r| == |cs| && forall i :: 0 <= i < |r| ==> r[i] == cs[i].poles && |r[i]| == degree + 1
  {
    seq(|cs|, i requires 0 <= i < |cs| => cs[i].poles)
  }

  ghost function WeightsOf(cs: seq<Curve>, degree: nat): (r: seq<seq<real>>)
    requires AreSegments(cs, degree)
    ensures |r| == |cs| && forall i :: 0 <= i < |r| ==> r[i] == cs[i].weights && |r[i]| == degree + 1
  {
    seq(|cs|, i requires 0 <= i < |cs| => cs[i].weights)
  }

  lemma SpanIndexIs(cs: seq<Curve>, i: nat, degree: nat)
    requires AreSegments(cs, degree) && degree >= 2 && i < |cs|
    ensures AllWellFormed(cs) && SpanIndex(cs, i, degree) == |Start(cs, i + 1, degree, true).poles|
    ensures EvenlyFilled(Start(cs, i + 1, degree, true))
    ensures |Start(cs, i + 1, degree, true).weights| == |Start(cs, i + 1, degree, true).poles|
    ensures EvenlyFilled(Joined(cs, degree, true)) && |Joined(cs, degree, true).weights|
            == |Joined(cs, degree, true).poles|
  {
    hide Start, Joined, AreSegments;
    SegmentsAreWellFormed(cs, degree);
    SizeOfStart(cs, i + 1, degree);
    SizeOfResult(cs, degree);
  }

  /** Where the poles and weights of segment i are: after s and before t, with one pole more in the result. */
  lemma AroundSpan(cs: seq<Curve>, i: nat, degree: nat)
    requires AreSegments(cs, degree) && degree >= 2 && i < |cs|
    ensures AllWellFormed(cs)
    ensures var r, s, t := Joined(cs, degree, true), Start(cs, i, degree, true), Start(cs, i + 1, degree, true);
            && SpanIndex(cs, i, degree) == |t.poles| == |t.weights| && EvenlyFilled(r) && |r.weights| == |r.poles|
            && IsAround(PolesOf(cs, degree), i, degree, s.poles, t.poles, r.poles)
            && IsAround(WeightsOf(cs, degree), i, degree, s.weights, t.weights, r.weights)
  {
    hide Start, Joined, AreSegments, AllWellFormed, EvenlyFilled, SpanIndex;
    SpanIndexIs(cs, i, degree);
    SegmentAt(cs, degree, i);
    StartOfSmooth(cs, i + 1, degree);
    NextSegment(cs, i, degree);
    EmptyStart(cs, degree);
    if i > 0 {
      SizeOfStart(cs, i, degree);
    }
  }

  ghost predicate IsAround<T>(rows: seq<seq<T>>, i: nat, degree: nat, s: seq<T>, t: seq<T>, whole: seq<T>) {
    && degree >= 2 && i < |rows| && (forall j :: 0 <= j < |rows| ==> |rows[j]| == degree + 1)
    && t == s + rows[i][if i == 0 then 0 else 1..degree] && (i == 0 ==> s == [])
    && (i > 0 ==> s != [] && s[|s| - 1] == rows[i - 1][degree - 1])
    && t + [if i + 1 < |rows| then rows[i + 1][1] else rows[i][degree]] <= whole
  }

  lemma PolesOfSpan(cs: seq<Curve>, i: nat, degree: nat)
    requires AreSegments(cs, degree) && degree >= 2 && i < |cs|
    ensures AllWellFormed(cs)
    ensures var k, r, p, w := SpanIndex(cs, i, degree), Joined(cs, degree, true), PolesOf(cs, degree),
            WeightsOf(cs, degree);
            && EvenlyFilled(r) && degree <= k < |r.poles|
            && r.poles[k - degree..k + 1] == [PoleBefore(p, i, degree)] + cs[i].poles[1..degree]
                + [PoleAfter(p, i, degree)]
            && r.weights[k - degree..k + 1] == [PoleBefore(w, i, degree)] + cs[i].weights[1..degree]
                + [PoleAfter(w, i, degree)]
  {
    hide *;
    AroundSpan(cs, i, degree);
    var r, s, t := Joined(cs, degree, true), Start(cs, i, degree, true), Start(cs, i + 1, degree, true);
    RowOfSpan(PolesOf(cs, degree), i, degree, s.poles, t.poles, r.poles);
    RowOfSpan(WeightsOf(cs, degree), i, degree, s.weights, t.weights, r.weights);
  }

  lemma RowOfSpan<T>(rows: seq<seq<T>>, i: nat, degree: nat, s: seq<T>, t: seq<T>, whole: seq<T>)
    requires IsAround(rows, i, degree, s, t, whole)
    ensures i < |rows| && degree >= 2 && forall j :: 0 <= j < |rows| ==> |rows[j]| == degree + 1
    ensures var k := |t|;
            && degree <= k < |whole|
            && whole[k - degree..k + 1] == [PoleBefore(rows, i, degree)] + rows[i][1..degree]
                + [PoleAfter(rows, i, degree)]
  {
    var row := rows[i];
    var x := if i == 0 then [] else s[..|s| - 1];
    var w := [PoleBefore(rows, i, degree)] + row[1..degree] + [PoleAfter(rows, i, degree)];
    if i == 0 {
      assert row[0..degree] == [row[0]] + row[1..degree];
    } else {
      assert s == x + [s[|s| - 1]];
    }
    assert x + w == t + [PoleAfter(rows, i, degree)];
    SliceOfPrefix(x, w, whole);
  }

  // De Boor's algorithm on the span.

  function SegmentKnots(a: real, b: real, degree: nat): (r: seq<real>)
    ensures |r| == 2 * degree + 2
    ensures forall m :: 0 <= m < |r| ==> r[m] == if m <= degree then a else b
  {
    Repeated(a, degree + 1) + Repeated(b, degree + 1)
  }

  /** The point on the way from x to y at which the joint knot divides the knots around it. */
  function Between(a: real, before: real, after: real, x: real, y: real): real {
    Mix(Ratio(a, before, after), x, y)
  }

  /** q with its ends moved between the neighbours l and r and the inner ones. */
  function WithEnds(q: seq<real>, degree: nat, before: real, a: real, b: real, after: real, l: real,
                    r: real): (s: seq<real>)
    requires |q| == degree + 1 && degree >= 2
    ensures |s| == |q| && (forall m :: 0 < m < degree ==> s[m] == q[m])
    ensures s[0] == Between(a, before, b, l, q[1]) && s[degree] == Between(b, a, after, q[degree - 1], r)
  {
    q[0 := Between(a, before, b, l, q[1])][degree := Between(b, a, after, q[degree - 1], r)]
  }

  lemma FirstMix(x: real, p: real, a: real, b: real, l: real, q: real)
    requires p <= a < b
    ensures Mix(Ratio(x, p, b), l, q) == Mix(Ratio(x, a, b), Mix(Ratio(a, p, b), l, q), q)
  {
    var u, v, w := Ratio(x, p, b), Ratio(x, a, b), Ratio(a, p, b);
    assert u * (b - p) == x - p && v * (b - a) == x - a && w * (b - p) == a - p;
    ComplementProduct(u, v, w, b - p, b - a, x - p, x - a, a - p);
    MixOfFirst(u, v, w, l, q);
  }

  /** (b - x) / (b - p) == (b - x) / (b - a) * (b - a) / (b - p) */
  lemma ComplementProduct(u: real, v: real, w: real, d: real, e: real, xp: real, xa: real, ap: real)
    requires d > 0.0 && e > 0.0 && u * d == xp && v * e == xa && w * d == ap && d == e + ap && xp == xa + ap
    ensures 1.0 - u == (1.0 - v) * (1.0 - w)
  {
    assert (1.0 - w) * d == e;
    assert (1.0 - v) * e == e - xa;
    assert ((1.0 - v) * (1.0 - w)) * d == (1.0 - v) * ((1.0 - w) * d);
    assert (1.0 - u) * d == d - xp;
    CancelRight(1.0 - u, (1.0 - v) * (1.0 - w), d);
  }

  lemma CancelRight(x: real, y: real, d: real)
    requires d > 0.0 && x * d == y * d
    ensures x == y
  {
    assert (x - y) * d == 0.0;
  }

  lemma MixOfFirst(u: real, v: real, w: real, l: real, q: real)
    requires 1.0 - u == (1.0 - v) * (1.0 - w)
    ensures Mix(u, l, q) == Mix(v, Mix(w, l, q), q)
  {
    var y := (1.0 - v) * (1.0 - w);
    assert (1.0 - v) * ((1.0 - w) * l) == y * l;
    assert (1.0 - v) * (w * q) == (1.0 - v) * q - y * q;
    assert (1.0 - v) * ((1.0 - w) * l + w * q) == (1.0 - v) * ((1.0 - w) * l) + (1.0 - v) * (w * q);
    assert u * q == q - y * q && v * q == q - (1.0 - v) * q;
  }

  lemma LastMix(x: real, a: real, b: real, e: real, q: real, r: real)
    requires a < b <= e
    ensures Mix(Ratio(x, a, e), q, r) == Mix(Ratio(x, a, b), q, Mix(Ratio(b, a, e), q, r))
  {
    var u, v, w := Ratio(x, a, e), Ratio(x, a, b), Ratio(b, a, e);
    assert u * (e - a) == x - a && v * (b - a) == x - a && w * (e - a) == b - a;
    assert (v * w) * (e - a) == v * (b - a);
    CancelRight(u, v * w, e - a);
    MixOfLast(u, v, w, q, r);
  }

  lemma MixOfLast(u: real, v: real, w: real, q: real, r: real)
    requires u == v * w
    ensures Mix(u, q, r) == Mix(v, q, Mix(w, q, r))
  {
    assert v * (w * r) == u * r && v * (w * q) == u * q;
    assert v * ((1.0 - w) * q + w * r) == v * q - v * (w * q) + v * (w * r);
  }

  /** The span of the result, from level 1 on, is that of the segment with its ends moved. */
  lemma {:induction false} SpanDeBoor(t': seq<real>, p': seq<real>, k: nat, q: seq<real>, degree: nat,
                                      before: real, a: real, b: real, after: real, l: real, r: real, x: real,
                                          level: nat, m: nat)
    requires degree >= 2 && |t'| == |p'| + degree + 1 && degree <= k < |p'| && |q| == degree + 1
    requires before <= a < b <= after
    requires t'[k - degree + 1..k + degree + 1] == Window(before, a, b, after, degree)
    requires p'[k - degree..k + 1] == [l] + q[1..degree] + [r]
    requires 0 < level <= m <= degree
    ensures var t, s := SegmentKnots(a, b, degree), WithEnds(q, degree, before, a, b, after, l, r);
            DeBoor(t', p', degree, x, level, k - degree + m) == DeBoor(t, s, degree, x, level, m)
    decreases level
  {
    hide Ratio, Mix, Between, DeBoor, Window, SegmentKnots, WithEnds;
    var t, s := SegmentKnots(a, b, degree), WithEnds(q, degree, before, a, b, after, l, r);
    var w := Window(before, a, b, after, degree);
    var i := k - degree + m;
    assert t'[i] == w[m - 1] by {
      assert t'[k - degree + 1..k + degree + 1][m - 1] == t'[i];
    }
    assert t'[i + degree + 1 - level] == w[m + degree - level] by {
      assert t'[k - degree + 1..k + degree + 1][m + degree - level] == t'[i + degree + 1 - level];
    }
    DeBoorStep(t', p', degree, x, level, i);
    DeBoorStep(t, s, degree, x, level, m);
    if level == 1 {
      DeBoorBase(t', p', degree, x, i - 1);
      DeBoorBase(t', p', degree, x, i);
      DeBoorBase(t, s, degree, x, m - 1);
      DeBoorBase(t, s, degree, x, m);
      PoleInSpan(p', k, q, degree, l, r, m - 1);
      PoleInSpan(p', k, q, degree, l, r, m);
      FirstBetween(x, before, a, b, l, q[1]);
      LastBetween(x, a, b, after, q[degree - 1], r);
    } else {
      SpanDeBoor(t', p', k, q, degree, before, a, b, after, l, r, x, level - 1, m - 1);
      SpanDeBoor(t', p', k, q, degree, before, a, b, after, l, r, x, level - 1, m);
    }
  }

  lemma FirstBetween(x: real, p: real, a: real, b: real, l: real, q: real)
    requires p <= a < b
    ensures Mix(Ratio(x, p, b), l, q) == Mix(Ratio(x, a, b), Between(a, p, b, l, q), q)
  {
    FirstMix(x, p, a, b, l, q);
  }

  lemma LastBetween(x: real, a: real, b: real, e: real, q: real, r: real)
    requires a < b <= e
    ensures Mix(Ratio(x, a, e), q, r) == Mix(Ratio(x, a, b), q, Between(b, a, e, q, r))
  {
    LastMix(x, a, b, e, q, r);
  }

  lemma PoleInSpan(p': seq<real>, k: nat, q: seq<real>, degree: nat, l: real, r: real, m: nat)
    requires degree >= 2 && degree <= k < |p'| && |q| == degree + 1 && m <= degree
    requires p'[k - degree..k + 1] == [l] + q[1..degree] + [r]
    ensures p'[k - degree + m] == if m == 0 then l else if m == degree then r else q[m]
  {
    assert p'[k - degree..k + 1][m] == p'[k - degree + m];
  }

  lemma {:induction false} DeBoorAtEnds(s: seq<real>, a: real, b: real, degree: nat, level: nat, m: nat)
    requires |s| == degree + 1 && a < b && level <= m <= degree
    ensures DeBoor(SegmentKnots(a, b, degree), s, degree, a, level, m) == s[m - level]
    ensures DeBoor(SegmentKnots(a, b, degree), s, degree, b, level, m) == s[m]
    decreases level
  {
    hide Ratio, Mix, SegmentKnots, DeBoor;
    var t := SegmentKnots(a, b, degree);
    if level > 0 {
      DeBoorAtEnds(s, a, b, degree, level - 1, m - 1);
      DeBoorAtEnds(s, a, b, degree, level - 1, m);
      DeBoorStep(t, s, degree, a, level, m);
      DeBoorStep(t, s, degree, b, level, m);
      MixAtEnds(a, b, s[m - level], s[m - 1], s[m]);
      MixAtEnds(a, b, s[m - level], s[m - level + 1], s[m]);
    } else {
      DeBoorBase(t, s, degree, a, m);
      DeBoorBase(t, s, degree, b, m);
    }
  }

  lemma MixAtEnds(a: real, b: real, x: real, y: real, z: real)
    requires a < b
    ensures Mix(Ratio(a, a, b), x, y) == x && Mix(Ratio(b, a, b), y, z) == z
  {
    assert (b - a) / (b - a) == 1.0;
  }

  /** The numbers that f selects for the poles of the segments. */
  ghost function Rows(cs: seq<Curve>, degree: nat, f: (Point, real) -> real): (r: seq<seq<real>>)
    requires AreSegments(cs, degree)
    ensures |r| == |cs| && forall i :: 0 <= i < |r| ==> r[i] == Controls(cs[i], f) && |r[i]| == degree + 1
  {
    seq(|cs|, i requires 0 <= i < |cs| => Controls(cs[i], f))
  }

  /** Segment i with its ends moved onto the lines to the neighbouring inner poles. */
  ghost function Smoothed(cs: seq<Curve>, i: nat, degree: nat, f: (Point, real) -> real): (s: seq<real>)
    requires AreSegments(cs, degree) && degree >= 2 && i < |cs|
    ensures |s| == degree + 1
  {
    var rows := Rows(cs, degree, f);
    SegmentNeighbours(cs, degree, i);
    WithEnds(rows[i], degree, Before(cs, i), cs[i].knots[0], cs[i].knots[1], After(cs, i),
             PoleBefore(rows, i, degree), PoleAfter(rows, i, degree))
  }

  lemma SegmentNeighbours(cs: seq<Curve>, degree: nat, i: nat)
    requires AreSegments(cs, degree) && i < |cs|
    ensures IsSegment(cs[i], degree) && (i > 0 ==> IsSegment(cs[i - 1], degree))
            && (i + 1 < |cs| ==> IsSegment(cs[i + 1], degree))
    ensures Before(cs, i) <= cs[i].knots[0] < cs[i].knots[1] <= After(cs, i)
  {
    SegmentAt(cs, degree, i);
    if i + 1 < |cs| {
      SegmentAt(cs, degree, i + 1);
    }
  }

  lemma ControlsOfSpan(cs: seq<Curve>, i: nat, degree: nat, f: (Point, real) -> real)
    requires AreSegments(cs, degree) && degree >= 2 && i < |cs|
    ensures AllWellFormed(cs)
    ensures var k, r, rows := SpanIndex(cs, i, degree), Joined(cs, degree, true), Rows(cs, degree, f);
            && EvenlyFilled(r) && degree <= k < |r.poles|
            && Controls(r, f)[k - degree..k + 1] == [PoleBefore(rows, i, degree)] + rows[i][1..degree]
                + [PoleAfter(rows, i, degree)]
  {
    hide Joined, AreSegments, SpanIndex, Controls;
    PolesOfSpan(cs, i, degree);
    SegmentNeighbours(cs, degree, i);
    var p, w := PolesOf(cs, degree), WeightsOf(cs, degree);
    SelectedSpan(Joined(cs, degree, true), cs[i], SpanIndex(cs, i, degree), degree, f,
                 PoleBefore(p, i, degree), PoleAfter(p, i, degree), PoleBefore(w, i, degree), PoleAfter(w, i, degree));
  }

  lemma SelectedSpan(r: Curve, c: Curve, k: nat, degree: nat, f: (Point, real) -> real, p0: Point, p1: Point, w0: real,
                     w1: real)
    requires EvenlyFilled(r) && |c.poles| == |c.weights| == degree + 1 && 0 < degree <= k < |r.poles|
    requires r.poles[k - degree..k + 1] == [p0] + c.poles[1..degree] + [p1]
    requires r.weights[k - degree..k + 1] == [w0] + c.weights[1..degree] + [w1]
    ensures Controls(r, f)[k - degree..k + 1] == [f(p0, w0)] + Controls(c, f)[1..degree] + [f(p1, w1)]
  {
    var p, w := [p0] + c.poles[1..degree] + [p1], [w0] + c.weights[1..degree] + [w1];
    forall m | 0 <= m <= degree
      ensures r.poles[k - degree + m] == p[m] && r.weights[k - degree + m] == w[m]
    {
      assert r.poles[k - degree..k + 1][m] == r.poles[k - degree + m];
      assert r.weights[k - degree..k + 1][m] == r.weights[k - degree + m];
    }
    var u, v := Controls(r, f)[k - degree..k + 1], [f(p0, w0)] + Controls(c, f)[1..degree] + [f(p1, w1)];
    forall m | 0 <= m <= degree
      ensures u[m] == v[m]
    {
      assert u[m] == f(p[m], w[m]);
    }
    assert u == v;
  }

  lemma SpanFromWindows(c: Curve, k: nat, f: (Point, real) -> real, q: seq<real>, degree: nat,
                        before: real, a: real, b: real, after: real, l: real, r: real, x: real)
    requires degree >= 2 && HasSpan(c, degree, k) && |q| == degree + 1 && before <= a < b <= after
    requires k + degree < |FlatKnots(c)|
    requires FlatKnots(c)[k - degree + 1..k + degree + 1] == Window(before, a, b, after, degree)
    requires Controls(c, f)[k - degree..k + 1] == [l] + q[1..degree] + [r]
    ensures SpanValue(c, degree, f, k, x)
            == DeBoor(SegmentKnots(a, b, degree), WithEnds(q, degree, before, a, b, after, l, r), degree, x, degree,
                      degree)
  {
    hide FlatKnots, Controls, Window, WithEnds, SegmentKnots, DeBoor;
    SpanDeBoor(FlatKnots(c), Controls(c, f), k, q, degree, before, a, b, after, l, r, x, degree, degree);
  }

  /** What the result is on the span of segment i: the segment with its ends moved. */
  lemma SmoothSpan(cs: seq<Curve>, i: nat, degree: nat, f: (Point, real) -> real, x: real)
    requires AreSegments(cs, degree) && degree >= 2 && i < |cs|
    ensures AllWellFormed(cs) && HasSpan(Joined(cs, degree, true), degree, SpanIndex(cs, i, degree))
    ensures IsSegment(cs[i], degree)
    ensures SpanValue(Joined(cs, degree, true), degree, f, SpanIndex(cs, i, degree), x)
            == DeBoor(SegmentKnots(cs[i].knots[0], cs[i].knots[1], degree), Smoothed(cs, i, degree, f), degree, x,
                      degree, degree)
  {
    hide *;
    SegmentNeighbours(cs, degree, i);
    KnotsOfSpan(cs, i, degree);
    ControlsOfSpan(cs, i, degree, f);
    ResultHasSpan(cs, i, degree, f);
    SmoothedIs(cs, i, degree, f);
    var c, rows := cs[i], Rows(cs, degree, f);
    SpanFromWindows(Joined(cs, degree, true), SpanIndex(cs, i, degree), f, rows[i], degree,
                    Before(cs, i), c.knots[0], c.knots[1], After(cs, i),
                    PoleBefore(rows, i, degree), PoleAfter(rows, i, degree), x);
  }

  lemma ResultHasSpan(cs: seq<Curve>, i: nat, degree: nat, f: (Point, real) -> real)
    requires AreSegments(cs, degree) && degree >= 2 && i < |cs|
    ensures AllWellFormed(cs) && HasSpan(Joined(cs, degree, true), degree, SpanIndex(cs, i, degree))
  {
    hide Joined, SpanIndex, FlatKnots, Controls, AreSegments, PoleBefore, PoleAfter, Rows;
    SizeOfResult(cs, degree);
    ControlsOfSpan(cs, i, degree, f);
  }

  lemma SmoothedIs(cs: seq<Curve>, i: nat, degree: nat, f: (Point, real) -> real)
    requires AreSegments(cs, degree) && degree >= 2 && i < |cs|
    ensures |cs[i].knots| == 2 && (i > 0 ==> |cs[i - 1].knots| == 2) && (i + 1 < |cs| ==> |cs[i + 1].knots| == 2)
    ensures var rows := Rows(cs, degree, f);
            Smoothed(cs, i, degree, f) == WithEnds(rows[i], degree, Before(cs, i), cs[i].knots[0], cs[i].knots[1],
                                                   After(cs, i),
                                                   PoleBefore(rows, i, degree), PoleAfter(rows, i, degree))
  {
    SegmentNeighbours(cs, degree, i);
  }

  lemma SizeOfResult(cs: seq<Curve>, degree: nat)
    requires AreSegments(cs, degree) && degree >= 2 && cs != []
    ensures AllWellFormed(cs)
    ensures EvenlyFilled(Joined(cs, degree, true))
    ensures var r := Joined(cs, degree, true); |FlatKnots(r)| == |r.poles| + degree + 1
  {
    hide Start, FlatKnots, AreSegments, Joined;
    LastSegment(cs, degree);
    SizeOfStart(cs, |cs|, degree);
  }

  lemma SegmentSpan(c: Curve, degree: nat, f: (Point, real) -> real, x: real)
    requires IsSegment(c, degree)
    ensures HasSpan(c, degree, degree)
    ensures SpanValue(c, degree, f, degree, x)
            == DeBoor(SegmentKnots(c.knots[0], c.knots[1], degree), Controls(c, f), degree, x, degree, degree)
  {
    hide Flat, DeBoor;
    assert c.knots == [c.knots[0], c.knots[1]];
    FlatOfTwo(c.knots[0], c.knots[1], degree + 1);
  }

  /** The smooth result takes the values of a segment on the whole span if and only if both ends of the segment already
      are where the neighbouring inner poles and the knots put them. */
  lemma SmoothJoinKeepsSegment(cs: seq<Curve>, i: nat, degree: nat, f: (Point, real) -> real)
    requires AreSegments(cs, degree) && degree >= 2 && i < |cs|
    ensures AllWellFormed(cs) && HasSpan(Joined(cs, degree, true), degree, SpanIndex(cs, i, degree))
            && HasSpan(cs[i], degree, degree)
    ensures (forall x :: SpanValue(Joined(cs, degree, true), degree, f, SpanIndex(cs, i, degree), x)
                         == SpanValue(cs[i], degree, f, degree, x))
            <==> Controls(cs[i], f)[0] == Smoothed(cs, i, degree, f)[0]
                 && Controls(cs[i], f)[degree] == Smoothed(cs, i, degree, f)[degree]
  {
    hide Joined, SpanIndex, SpanValue, HasSpan, DeBoor, SegmentKnots, AreSegments, Smoothed, Controls;
    SegmentNeighbours(cs, degree, i);
    var c := cs[i];
    var a, b, q, s := c.knots[0], c.knots[1], Controls(c, f), Smoothed(cs, i, degree, f);
    forall x
      ensures AllWellFormed(cs) && HasSpan(Joined(cs, degree, true), degree, SpanIndex(cs, i, degree))
              && HasSpan(c, degree, degree)
      ensures SpanValue(Joined(cs, degree, true), degree, f, SpanIndex(cs, i, degree), x)
              == DeBoor(SegmentKnots(a, b, degree), s, degree, x, degree, degree)
      ensures SpanValue(c, degree, f, degree, x) == DeBoor(SegmentKnots(a, b, degree), q, degree, x, degree, degree)
    {
      SmoothSpan(cs, i, degree, f, x);
      SegmentSpan(c, degree, f, x);
    }
    DeBoorAtEnds(s, a, b, degree, degree, degree);
    DeBoorAtEnds(q, a, b, degree, degree, degree);
    SmoothedInside(cs, i, degree, f);
    if q[0] == s[0] && q[degree] == s[degree] {
      assert q == s;
    }
  }

  lemma SmoothedInside(cs: seq<Curve>, i: nat, degree: nat, f: (Point, real) -> real)
    requires AreSegments(cs, degree) && degree >= 2 && i < |cs|
    ensures var s, q := Smoothed(cs, i, degree, f), Rows(cs, degree, f)[i];
            q == Controls(cs[i], f) && |q| == |s| && forall m :: 0 < m < degree ==> s[m] == q[m]
  {
  }
}
