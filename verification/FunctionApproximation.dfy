/** Approximating a function by a B-spline curve: Chebyshev expansions on smaller and smaller ranges, joined
    smoothly. */
module FunctionApproximation {
  import opened ChebyshevToBezier
  import opened Concatenation
  import opened Geometry
  import opened SmoothJoin
  import opened Wrappers

  /** The leading Chebyshev coefficients of the three coordinates on a range, and the estimated error. */
  datatype Expansion = Expansion(cx: seq<real>, cy: seq<real>, cz: seq<real>, error: real)

  datatype ChebSegment = ChebSegment(expansion: Expansion, umin: real, umax: real)

  type Expand = (real, real) -> Expansion

  function Levels(depth: int, maxDepth: int): nat {
    if depth < maxDepth then maxDepth - depth else 0
  }

  /** A range is halved until the expansion is good enough or the depth is reached. */
  function ApproxSegment(expand: Expand, umin: real, umax: real, depth: int, maxDepth: int,
                         tol: real): (r: seq<ChebSegment>)
    decreases Levels(depth, maxDepth)
  {
    var e := expand(umin, umax);
    if e.error < tol || depth >= maxDepth then
      [ChebSegment(e, umin, umax)]
    else
      var mid := umin + (umax - umin) * 0.5;
      ApproxSegment(expand, umin, mid, depth + 1, maxDepth, tol)
          + ApproxSegment(expand, mid, umax, depth + 1, maxDepth, tol)
  }

  /** The segments cover the range from a to b without gap or overlap. */
  ghost predicate IsPartition(segments: seq<ChebSegment>, a: real, b: real) {
    && segments != []
    && segments[0].umin == a && segments[|segments| - 1].umax == b
    && (forall i {:trigger segments[i]} :: 0 < i < |segments| ==> segments[i - 1].umax == segments[i].umin)
    && (a < b ==> forall i :: 0 <= i < |segments| ==> segments[i].umin < segments[i].umax)
  }

  lemma JoinedPartitions(s: seq<ChebSegment>, t: seq<ChebSegment>, a: real, m: real, b: real)
    requires IsPartition(s, a, m) && IsPartition(t, m, b) && (a < b ==> a < m < b)
    ensures IsPartition(s + t, a, b)
  {
    var r := s + t;
    forall i | 0 < i < |r|
      ensures r[i - 1].umax == r[i].umin
    {
      if i < |s| {
        assert s[i - 1].umax == s[i].umin;
      } else if i > |s| {
        assert t[i - |s| - 1].umax == t[i - |s|].umin;
      }
    }
  }

  lemma {:induction false} ApproxIsPartition(expand: Expand, umin: real, umax: real, depth: int, maxDepth: int,
                                             tol: real)
    ensures IsPartition(ApproxSegment(expand, umin, umax, depth, maxDepth, tol), umin, umax)
    decreases Levels(depth, maxDepth)
  {
    hide IsPartition;
    if expand(umin, umax).error < tol || depth >= maxDepth {
      SingleIsPartition(expand(umin, umax), umin, umax);
    } else {
      var mid := umin + (umax - umin) * 0.5;
      ApproxIsPartition(expand, umin, mid, depth + 1, maxDepth, tol);
      ApproxIsPartition(expand, mid, umax, depth + 1, maxDepth, tol);
      JoinedPartitions(ApproxSegment(expand, umin, mid, depth + 1, maxDepth, tol),
                       ApproxSegment(expand, mid, umax, depth + 1, maxDepth, tol), umin, mid, umax);
    }
  }

  lemma SingleIsPartition(e: Expansion, umin: real, umax: real)
    ensures IsPartition([ChebSegment(e, umin, umax)], umin, umax)
  {
  }

  function PowerOfTwo(n: nat): (r: nat)
    ensures r > 0
  {
    if n == 0 then 1 else 2 * PowerOfTwo(n - 1)
  }

  /** The range that is left after that many halvings, to the upper or to the lower half. */
  function RangeAt(a: real, b: real, path: seq<bool>): (r: (real, real))
    decreases |path|
  {
    if path == [] then (a, b)
    else
      var mid := a + (b - a) * 0.5;
      if path[0] then RangeAt(mid, b, path[1..]) else RangeAt(a, mid, path[1..])
  }

  function SegmentAt(expand: Expand, a: real, b: real, path: seq<bool>): ChebSegment {
    var r := RangeAt(a, b, path);
    ChebSegment(expand(r.0, r.1), r.0, r.1)
  }

  /** The expansion on the range after the first k halvings is not good enough. */
  predicate IsRefused(expand: Expand, a: real, b: real, path: seq<bool>, k: nat, tol: real)
    requires k <= |path|
  {
    SegmentAt(expand, a, b, path[..k]).expansion.error >= tol
  }

  /** Here halving stops: the expansion is good enough or the range is one of the smallest, and all larger ranges around
      it have been refused. */
  ghost predicate IsLeaf(expand: Expand, a: real, b: real, path: seq<bool>, levels: nat, tol: real) {
    && |path| <= levels
    && (|path| == levels || !IsRefused(expand, a, b, path, |path|, tol))
    && forall k :: 0 <= k < |path| ==> IsRefused(expand, a, b, path, k, tol)
  }

  ghost predicate IsLeafSegment(expand: Expand, a: real, b: real, s: ChebSegment, levels: nat, tol: real) {
    exists path :: IsLeaf(expand, a, b, path, levels, tol) && s == SegmentAt(expand, a, b, path)
  }

  lemma {:induction false} WidthAt(a: real, b: real, path: seq<bool>)
    ensures var r := RangeAt(a, b, path); (r.1 - r.0) * PowerOfTwo(|path|) as real == b - a
    decreases |path|
  {
    if path != [] {
      var mid := a + (b - a) * 0.5;
      WidthAt(if path[0] then mid else a, if path[0] then b else mid, path[1..]);
      var r := RangeAt(a, b, path);
      DoubledWidth(r.1 - r.0, PowerOfTwo(|path| - 1), b - a);
    }
  }

  lemma DoubledWidth(w: real, p: nat, length: real)
    requires w * p as real == length * 0.5
    ensures w * (2 * p) as real == length
  {
    assert (2 * p) as real == p as real + p as real;
    assert w * (p as real + p as real) == w * p as real + w * p as real;
  }

  /** The half that the first step of a path selects. */
  function HalfOf(a: real, b: real, upper: bool): (real, real) {
    var mid := a + (b - a) * 0.5;
    if upper then (mid, b) else (a, mid)
  }

  lemma LeafOfHalf(expand: Expand, a: real, b: real, path: seq<bool>, levels: nat, tol: real)
    requires path != []
    ensures var h := HalfOf(a, b, path[0]);
            && SegmentAt(expand, a, b, path) == SegmentAt(expand, h.0, h.1, path[1..])
            && (IsLeaf(expand, a, b, path, levels, tol) <==>
                levels > 0 && expand(a, b).error >= tol && IsLeaf(expand, h.0, h.1, path[1..], levels - 1, tol))
  {
    var h, rest := HalfOf(a, b, path[0]), path[1..];
    forall k | 0 <= k <= |rest|
      ensures IsRefused(expand, a, b, path, k + 1, tol) <==> IsRefused(expand, h.0, h.1, rest, k, tol)
    {
      assert path[..k + 1][1..] == rest[..k];
    }
    assert path[..0] == [];
    assert IsRefused(expand, a, b, path, 0, tol) <==> expand(a, b).error >= tol;
    hide IsRefused;
    if IsLeaf(expand, a, b, path, levels, tol) {
      forall k | 0 <= k < |rest|
        ensures IsRefused(expand, h.0, h.1, rest, k, tol)
      {
        assert IsRefused(expand, a, b, path, k + 1, tol);
      }
    }
    if levels > 0 && expand(a, b).error >= tol && IsLeaf(expand, h.0, h.1, rest, levels - 1, tol) {
      forall k | 0 <= k < |path|
        ensures IsRefused(expand, a, b, path, k, tol)
      {
        assert k > 0 ==> IsRefused(expand, h.0, h.1, rest, k - 1, tol);
      }
    }
  }

  lemma WholeIsLeaf(expand: Expand, a: real, b: real, levels: nat, tol: real)
    ensures IsLeaf(expand, a, b, [], levels, tol) <==> levels == 0 || expand(a, b).error < tol
    ensures SegmentAt(expand, a, b, []) == ChebSegment(expand(a, b), a, b)
  {
  }

  lemma LeafSegments(expand: Expand, a: real, b: real, s: ChebSegment, levels: nat, tol: real)
    ensures IsLeafSegment(expand, a, b, s, levels, tol) <==>
              if levels == 0 || expand(a, b).error < tol then s == ChebSegment(expand(a, b), a, b)
              else var mid := a + (b - a) * 0.5;
                   || IsLeafSegment(expand, a, mid, s, levels - 1, tol)
                   || IsLeafSegment(expand, mid, b, s, levels - 1, tol)
  {
    hide IsLeaf, SegmentAt, IsRefused;
    var mid := a + (b - a) * 0.5;
    WholeIsLeaf(expand, a, b, levels, tol);
    if path :| IsLeaf(expand, a, b, path, levels, tol) && s == SegmentAt(expand, a, b, path) {
      if path != [] {
        LeafOfHalf(expand, a, b, path, levels, tol);
      }
    }
    if levels > 0 && expand(a, b).error >= tol {
      if path :| IsLeaf(expand, a, mid, path, levels - 1, tol) && s == SegmentAt(expand, a, mid, path) {
        assert ([false] + path)[1..] == path;
        LeafOfHalf(expand, a, b, [false] + path, levels, tol);
      }
      if path :| IsLeaf(expand, mid, b, path, levels - 1, tol) && s == SegmentAt(expand, mid, b, path) {
        assert ([true] + path)[1..] == path;
        LeafOfHalf(expand, a, b, [true] + path, levels, tol);
      }
    }
  }

  /** The segments are exactly the ranges where halving stops, and there are at most 2^levels of them. */
  lemma {:induction false} SegmentsAreLeaves(expand: Expand, umin: real, umax: real, depth: int, maxDepth: int,
                                             tol: real)
    ensures var r, levels := ApproxSegment(expand, umin, umax, depth, maxDepth, tol), Levels(depth, maxDepth);
            && |r| <= PowerOfTwo(levels)
            && forall s :: s in r <==> IsLeafSegment(expand, umin, umax, s, levels, tol)
    decreases Levels(depth, maxDepth)
  {
    hide IsLeafSegment;
    var r, levels := ApproxSegment(expand, umin, umax, depth, maxDepth, tol), Levels(depth, maxDepth);
    if levels > 0 && expand(umin, umax).error >= tol {
      var mid := umin + (umax - umin) * 0.5;
      SegmentsAreLeaves(expand, umin, mid, depth + 1, maxDepth, tol);
      SegmentsAreLeaves(expand, mid, umax, depth + 1, maxDepth, tol);
    }
    forall s
      ensures s in r <==> IsLeafSegment(expand, umin, umax, s, levels, tol)
    {
      LeafSegments(expand, umin, umax, s, levels, tol);
    }
  }

  /** The whole range is one segment exactly if its expansion is good enough or no halving is allowed. */
  lemma OneSegment(expand: Expand, umin: real, umax: real, maxDepth: int, tol: real)
    ensures |ApproxSegment(expand, umin, umax, 1, maxDepth, tol)| == 1
            <==> expand(umin, umax).error < tol || maxDepth <= 1
  {
    if expand(umin, umax).error >= tol && maxDepth > 1 {
      var mid := umin + (umax - umin) * 0.5;
      ApproxIsPartition(expand, umin, mid, 2, maxDepth, tol);
      ApproxIsPartition(expand, mid, umax, 2, maxDepth, tol);
    }
  }

  ghost predicate AreLeaves(t: seq<ChebSegment>, expand: Expand, a: real, b: real, levels: nat, tol: real) {
    forall i :: 0 <= i < |t| ==> IsLeafSegment(expand, a, b, t[i], levels, tol)
  }

  lemma {:induction false} LeafInRange(expand: Expand, a: real, b: real, path: seq<bool>)
    requires a < b
    ensures var s := SegmentAt(expand, a, b, path); a <= s.umin < s.umax <= b
    decreases |path|
  {
    if path != [] {
      var h := HalfOf(a, b, path[0]);
      LeafInRange(expand, h.0, h.1, path[1..]);
    }
  }

  lemma LeafSegmentInRange(expand: Expand, a: real, b: real, s: ChebSegment, levels: nat, tol: real)
    requires a < b && IsLeafSegment(expand, a, b, s, levels, tol)
    ensures a <= s.umin < s.umax <= b
  {
    var path :| IsLeaf(expand, a, b, path, levels, tol) && s == SegmentAt(expand, a, b, path);
    LeafInRange(expand, a, b, path);
  }

  lemma {:induction false} LaterSegments(t: seq<ChebSegment>, a: real, b: real, i: nat, j: nat)
    requires IsPartition(t, a, b) && a < b && i < j < |t|
    ensures t[i].umax <= t[j].umin
    decreases j
  {
    assert t[j - 1].umax == t[j].umin;
    if i < j - 1 {
      LaterSegments(t, a, b, i, j - 1);
    }
  }

  /** Where a partition goes from one half to the other. */
  lemma SplitsAt(t: seq<ChebSegment>, a: real, mid: real, b: real) returns (k: nat)
    requires IsPartition(t, a, b) && a < mid < b
    requires forall i :: 0 <= i < |t| ==> t[i].umax <= mid || mid <= t[i].umin
    ensures 0 < k < |t| && IsPartition(t[..k], a, mid) && IsPartition(t[k..], mid, b)
  {
    k := 1;
    while k < |t| && t[k].umin < mid
      invariant 0 < k <= |t| && t[k - 1].umin < mid
    {
      k := k + 1;
    }
    assert t[k - 1].umax <= mid;
    if k < |t| {
      assert t[k - 1].umax == t[k].umin;
      assert t[k].umin == mid;
    }
  }

  lemma PartitionBounds(t: seq<ChebSegment>, a: real, b: real, i: nat)
    requires IsPartition(t, a, b) && a < b && i < |t|
    ensures a <= t[i].umin < t[i].umax <= b
  {
    if i > 0 {
      LaterSegments(t, a, b, 0, i);
    }
    if i < |t| - 1 {
      LaterSegments(t, a, b, i, |t| - 1);
    }
  }

  lemma HalfLeaves(expand: Expand, a: real, mid: real, b: real, levels: nat, tol: real, t: seq<ChebSegment>, k: nat)
    requires a < mid < b && 0 < k < |t| && IsPartition(t[..k], a, mid) && IsPartition(t[k..], mid, b)
    requires forall i :: 0 <= i < |t| ==>
               if t[i].umax <= mid then IsLeafSegment(expand, a, mid, t[i], levels, tol)
               else mid <= t[i].umin && IsLeafSegment(expand, mid, b, t[i], levels, tol)
    ensures AreLeaves(t[..k], expand, a, mid, levels, tol) && AreLeaves(t[k..], expand, mid, b, levels, tol)
  {
    hide IsLeafSegment;
    forall i | 0 <= i < k
      ensures IsLeafSegment(expand, a, mid, t[..k][i], levels, tol)
    {
      PartitionBounds(t[..k], a, mid, i);
    }
    forall i | 0 <= i < |t| - k
      ensures IsLeafSegment(expand, mid, b, t[k..][i], levels, tol)
    {
      PartitionBounds(t[k..], mid, b, i);
    }
  }

  /** A partition into leaves of a range that is halved comes from partitions of the halves. */
  lemma LeavesOfHalves(expand: Expand, a: real, mid: real, b: real, levels: nat, tol: real, t: seq<ChebSegment>)
    returns (k: nat)
    requires a < mid < b && mid == a + (b - a) * 0.5 && IsPartition(t, a, b)
    requires levels > 0 && expand(a, b).error >= tol && AreLeaves(t, expand, a, b, levels, tol)
    ensures 0 < k < |t| && IsPartition(t[..k], a, mid) && IsPartition(t[k..], mid, b)
    ensures AreLeaves(t[..k], expand, a, mid, levels - 1, tol) && AreLeaves(t[k..], expand, mid, b, levels - 1, tol)
  {
    hide IsLeafSegment, IsPartition;
    forall i | 0 <= i < |t|
      ensures if t[i].umax <= mid then IsLeafSegment(expand, a, mid, t[i], levels - 1, tol)
              else mid <= t[i].umin && IsLeafSegment(expand, mid, b, t[i], levels - 1, tol)
    {
      assert IsLeafSegment(expand, a, b, t[i], levels, tol);
      LeafSegments(expand, a, b, t[i], levels, tol);
      if IsLeafSegment(expand, a, mid, t[i], levels - 1, tol) {
        LeafSegmentInRange(expand, a, mid, t[i], levels - 1, tol);
      } else {
        LeafSegmentInRange(expand, mid, b, t[i], levels - 1, tol);
      }
    }
    k := SplitsAt(t, a, mid, b);
    HalfLeaves(expand, a, mid, b, levels - 1, tol, t, k);
  }

  lemma OnlyWhole(expand: Expand, a: real, b: real, levels: nat, tol: real, t: seq<ChebSegment>)
    requires a < b && IsPartition(t, a, b) && AreLeaves(t, expand, a, b, levels, tol)
    requires levels == 0 || expand(a, b).error < tol
    ensures t == [ChebSegment(expand(a, b), a, b)]
  {
    hide IsLeafSegment;
    assert IsLeafSegment(expand, a, b, t[0], levels, tol);
    LeafSegments(expand, a, b, t[0], levels, tol);
    if |t| > 1 {
      assert IsLeafSegment(expand, a, b, t[1], levels, tol);
      LeafSegments(expand, a, b, t[1], levels, tol);
    }
  }

  /** No other partition of the range consists of such segments. */
  lemma {:induction false} OnlyPartition(expand: Expand, umin: real, umax: real, depth: int, maxDepth: int, tol: real,
                                         t: seq<ChebSegment>)
    requires umin < umax && IsPartition(t, umin, umax)
    requires AreLeaves(t, expand, umin, umax, Levels(depth, maxDepth), tol)
    ensures t == ApproxSegment(expand, umin, umax, depth, maxDepth, tol)
    decreases Levels(depth, maxDepth)
  {
    hide IsPartition, AreLeaves;
    var levels := Levels(depth, maxDepth);
    if levels == 0 || expand(umin, umax).error < tol {
      OnlyWhole(expand, umin, umax, levels, tol, t);
    } else {
      var mid := umin + (umax - umin) * 0.5;
      var k := LeavesOfHalves(expand, umin, mid, umax, levels, tol, t);
      OnlyPartition(expand, umin, mid, depth + 1, maxDepth, tol, t[..k]);
      OnlyPartition(expand, mid, umax, depth + 1, maxDepth, tol, t[k..]);
      assert t == t[..k] + t[k..];
    }
  }

  // From segments to the curve.

  ghost predicate HasDegree(expand: Expand, degree: nat) {
    forall a: real, b: real {:trigger expand(a, b)} ::
      var e := expand(a, b); |e.cx| == |e.cy| == |e.cz| == degree + 1
  }

  /** The control points of a segment, with the ends moved onto the approximated curve. */
  function Poles(func: real -> Point, degree: nat, s: ChebSegment): (r: seq<Point>)
    requires degree >= 1 && |s.expansion.cx| == |s.expansion.cy| == |s.expansion.cz| == degree + 1
    ensures |r| == degree + 1
  {
    var e := s.expansion;
    seq(degree + 1, i requires 0 <= i <= degree =>
      if i == 0 then func(s.umin)
      else if i == degree then func(s.umax)
      else Point(ControlPoints(degree, VectorOf(e.cx))(i), ControlPoints(degree, VectorOf(e.cy))(i),
                 ControlPoints(degree, VectorOf(e.cz))(i)))
  }

  function SegmentSpline(func: real -> Point, degree: nat, s: ChebSegment): (r: Curve)
    requires degree >= 1 && |s.expansion.cx| == |s.expansion.cy| == |s.expansion.cz| == degree + 1
    ensures r.WellFormed()
  {
    Curve([s.umin, s.umax], [degree + 1, degree + 1], Poles(func, degree, s), seq(degree + 1, i => 1.0))
  }

  /** The segments all come from expansions of the degree. */
  ghost predicate Sized(segments: seq<ChebSegment>, degree: nat) {
    forall i :: 0 <= i < |segments| ==>
      |segments[i].expansion.cx| == |segments[i].expansion.cy| == |segments[i].expansion.cz| == degree + 1
  }

  function SegmentSplines(func: real -> Point, degree: nat, segments: seq<ChebSegment>): (r: seq<Curve>)
    requires degree >= 1 && Sized(segments, degree)
    ensures |r| == |segments| && AllWellFormed(r) && NonRational(r)
    ensures forall i :: 0 <= i < |r| ==> r[i] == SegmentSpline(func, degree, segments[i])
  {
    seq(|segments|, i requires 0 <= i < |segments| => SegmentSpline(func, degree, segments[i]))
  }

  function MaxError(segments: seq<ChebSegment>): (r: real)
    ensures r >= 0.0 && forall i :: 0 <= i < |segments| ==> segments[i].expansion.error <= r
    ensures r == 0.0 || exists i :: 0 <= i < |segments| && segments[i].expansion.error == r
  {
    if segments == [] then 0.0 else
      var n := |segments| - 1;
      var r := MaxError(segments[..n]);
      assert r == 0.0 || exists i :: 0 <= i < n && segments[..n][i].expansion.error == r;
      if segments[n].expansion.error > r then segments[n].expansion.error else r
  }

  lemma {:induction false} ApproxIsSized(expand: Expand, umin: real, umax: real, depth: int, maxDepth: int, tol: real,
                                         degree: nat)
    requires HasDegree(expand, degree)
    ensures Sized(ApproxSegment(expand, umin, umax, depth, maxDepth, tol), degree)
    decreases Levels(depth, maxDepth)
  {
    if !(expand(umin, umax).error < tol || depth >= maxDepth) {
      var mid := umin + (umax - umin) * 0.5;
      ApproxIsSized(expand, umin, mid, depth + 1, maxDepth, tol, degree);
      ApproxIsSized(expand, mid, umax, depth + 1, maxDepth, tol, degree);
    }
  }

  method Approximate(func: real -> Point, expand: Expand, umin: real, umax: real, degree: nat, tol: real, maxDepth: int)
    returns (result: Option<Curve>, err: real)
    requires degree >= 1 && HasDegree(expand, degree)
    ensures var segments := ApproxSegment(expand, umin, umax, 1, maxDepth, tol);
            && Sized(segments, degree) && segments != []
            && err == MaxError(segments)
            && var splines := SegmentSplines(func, degree, segments);
               result == Some(if |splines| == 1 then splines[0] else Joined(splines, degree, true))
  {
    hide Joined, ControlPoints, ApproxSegment, IsPartition, MaxError, HasDegree, Poles, Sized, NonRational;
    var segments := ApproxSegment(expand, umin, umax, 1, maxDepth, tol);
    ApproxIsPartition(expand, umin, umax, 1, maxDepth, tol);
    ApproxIsSized(expand, umin, umax, 1, maxDepth, tol, degree);
    PartitionNotEmpty(segments, umin, umax);
    var curves := [];
    var errTotal := 0.0;
    MaxErrorStep(segments, 0);
    for i := 0 to |segments|
      invariant |curves| == i && forall k :: 0 <= k < i ==> curves[k] == SegmentSplines(func, degree, segments)[k]
      invariant errTotal == MaxError(segments[..i])
    {
      var seg := segments[i];
      var curve := BuildSpline(func, degree, segments, i);
      curves := curves + [curve];
      MaxErrorStep(segments, i);
      if seg.expansion.error > errTotal {
        errTotal := seg.expansion.error;
      }
    }
    assert segments[..|segments|] == segments;
    assert curves == SegmentSplines(func, degree, segments);
    err := errTotal;
    NonRationalKeepsWeights(curves, degree);
    result := ConcatC1(curves, degree);
  }

  lemma PartitionNotEmpty(segments: seq<ChebSegment>, a: real, b: real)
    requires IsPartition(segments, a, b)
    ensures segments != []
  {
  }

  lemma MaxErrorStep(segments: seq<ChebSegment>, i: nat)
    ensures i < |segments| ==>
              MaxError(segments[..i + 1]) ==
              var r := MaxError(segments[..i]); if segments[i].expansion.error > r then segments[i].expansion.error
                  else r
    ensures MaxError(segments[..0]) == 0.0
  {
    if i < |segments| {
      assert segments[..i + 1][..i] == segments[..i];
    }
  }

  method BuildSpline(func: real -> Point, degree: nat, segments: seq<ChebSegment>, i: nat) returns (curve: Curve)
    requires degree >= 1 && Sized(segments, degree) && i < |segments|
    ensures curve == SegmentSplines(func, degree, segments)[i]
  {
    hide ControlPoints;
    var seg := segments[i];
    var e := seg.expansion;
    var cp := SegmentPoles(degree, e.cx, e.cy, e.cz, func(seg.umin), func(seg.umax));
    assert cp == Poles(func, degree, seg);
    curve := Curve([seg.umin, seg.umax], [degree + 1, degree + 1], cp, seq(degree + 1, i => 1.0));
  }

  lemma SplineIsValid(func: real -> Point, degree: nat, s: ChebSegment)
    requires degree >= 1 && |s.expansion.cx| == |s.expansion.cy| == |s.expansion.cz| == degree + 1 && s.umin < s.umax
    ensures Valid(SegmentSpline(func, degree, s), degree)
  {
    hide Poles;
    var m := [degree + 1, degree + 1];
    assert m[..1] == [degree + 1] && m[..1][..0] == [];
    TotalOfOne(degree + 1);
    assert Total(m) == Total(m[..1]) + degree + 1;
  }

  /** A valid B-spline curve from a to b that starts and ends on the function. */
  ghost predicate Spans(r: Curve, func: real -> Point, degree: nat, a: real, b: real) {
    && Valid(r, degree)
    && r.FirstParameter() == a && r.LastParameter() == b
    && r.poles[0] == func(a) && r.poles[|r.poles| - 1] == func(b)
  }

  lemma SplinesOfPartition(func: real -> Point, degree: nat, segments: seq<ChebSegment>, a: real, b: real)
    requires degree >= 1 && Sized(segments, degree) && IsPartition(segments, a, b) && a < b
    ensures var cs := SegmentSplines(func, degree, segments);
            && cs != [] && Connected(cs) && (forall i :: 0 <= i < |cs| ==>
                                             Valid(cs[i], degree) && |cs[i].poles| == degree + 1)
            && cs[0].FirstParameter() == a && cs[|cs| - 1].LastParameter() == b
            && cs[0].poles[0] == func(a) && cs[|cs| - 1].poles[degree] == func(b)
  {
    hide ControlPoints, Valid, NonRational, SegmentSpline, Poles, Sized, IsPartition;
    var cs := SegmentSplines(func, degree, segments);
    PartitionNotEmpty(segments, a, b);
    forall i | 0 <= i < |segments|
      ensures Valid(cs[i], degree) && |cs[i].poles| == degree + 1
      ensures cs[i].FirstParameter() == segments[i].umin && cs[i].LastParameter() == segments[i].umax
      ensures i > 0 ==> segments[i - 1].umax == segments[i].umin
      ensures cs[i].poles[0] == func(segments[i].umin) && cs[i].poles[degree] == func(segments[i].umax)
    {
      InPartition(segments, degree, a, b, i);
      SplineIsValid(func, degree, segments[i]);
      SplineEnds(func, degree, segments[i]);
    }
    EndsOfPartition(segments, a, b);
  }

  lemma InPartition(segments: seq<ChebSegment>, degree: nat, a: real, b: real, i: nat)
    requires IsPartition(segments, a, b) && Sized(segments, degree) && i < |segments| && a < b
    ensures segments[i].umin < segments[i].umax && (i > 0 ==> segments[i - 1].umax == segments[i].umin)
    ensures var e := segments[i].expansion; |e.cx| == |e.cy| == |e.cz| == degree + 1
  {
  }

  lemma EndsOfPartition(segments: seq<ChebSegment>, a: real, b: real)
    requires IsPartition(segments, a, b)
    ensures segments != [] && segments[0].umin == a && segments[|segments| - 1].umax == b
  {
  }

  lemma SplineEnds(func: real -> Point, degree: nat, s: ChebSegment)
    requires degree >= 1 && |s.expansion.cx| == |s.expansion.cy| == |s.expansion.cz| == degree + 1
    ensures var r := SegmentSpline(func, degree, s);
            && r.FirstParameter() == s.umin && r.LastParameter() == s.umax
            && |r.poles| == degree + 1 && r.poles[0] == func(s.umin) && r.poles[degree] == func(s.umax)
  {
    hide ControlPoints;
  }

  /** So what smooth joining does to each of them is known. */
  lemma SplinesAreSegments(func: real -> Point, degree: nat, segments: seq<ChebSegment>, a: real, b: real)
    requires degree >= 1 && Sized(segments, degree) && IsPartition(segments, a, b) && a < b
    ensures AreSegments(SegmentSplines(func, degree, segments), degree)
  {
    hide Poles, NonRational;
    var cs := SegmentSplines(func, degree, segments);
    forall i | 0 < i < |cs|
      ensures cs[i - 1].knots[1] == cs[i].knots[0]
    {
      assert segments[i - 1].umax == segments[i].umin;
    }
  }

  lemma JoinedSpans(func: real -> Point, degree: nat, segments: seq<ChebSegment>, a: real, b: real)
    requires degree >= 1 && Sized(segments, degree) && IsPartition(segments, a, b) && a < b
    ensures var cs := SegmentSplines(func, degree, segments);
            && cs != []
            && var r := if |cs| == 1 then cs[0] else Joined(cs, degree, true);
               && (Spans(r, func, degree, a, b) <==> degree >= 2 || |segments| == 1)
               && |r.poles| == |segments| * (degree - 1) + 2
  {
    hide Joined, SegmentSpline, Valid, NonRational, IsPartition, Sized;
    var cs := SegmentSplines(func, degree, segments);
    SplinesOfPartition(func, degree, segments, a, b);
    JoinedIsValid(cs, degree, true);
    EndPoles(cs, degree, degree + 1);
    ValidIsWellFormed(Joined(cs, degree, true), degree);
  }

  lemma ValidIsWellFormed(c: Curve, degree: nat)
    ensures Valid(c, degree) ==> c.WellFormed()
  {
  }

  /** The curve is a valid B-spline over the whole range that starts and ends on the function, if and only if the degree
      allows for smooth joints or none are needed. */
  lemma ApproximationIsValid(func: real -> Point, expand: Expand, umin: real, umax: real, degree: nat, tol: real,
                             maxDepth: int)
    requires degree >= 1 && HasDegree(expand, degree) && umin < umax
    ensures var segments := ApproxSegment(expand, umin, umax, 1, maxDepth, tol);
            && Sized(segments, degree) && segments != []
            && var splines := SegmentSplines(func, degree, segments);
               var r := if |splines| == 1 then splines[0] else Joined(splines, degree, true);
               && (Spans(r, func, degree, umin, umax) <==> degree >= 2 || |segments| == 1)
               && |r.poles| == |segments| * (degree - 1) + 2
  {
    hide Joined, ApproxSegment, Spans, HasDegree, IsPartition, Sized, SegmentSpline, NonRational;
    var segments := ApproxSegment(expand, umin, umax, 1, maxDepth, tol);
    ApproxIsPartition(expand, umin, umax, 1, maxDepth, tol);
    ApproxIsSized(expand, umin, umax, 1, maxDepth, tol, degree);
    JoinedSpans(func, degree, segments, umin, umax);
  }

  lemma EndPoles(cs: seq<Curve>, degree: nat, poles: nat)
    requires cs != [] && AllWellFormed(cs) && degree > 0 && forall i :: 0 <= i < |cs| ==> |cs[i].poles| == poles
    ensures var r, last := Joined(cs, degree, true), cs[|cs| - 1];
            && |r.poles| == |cs| * (poles - 2) + 2
            && r.poles[0] == cs[0].poles[0] && r.poles[|r.poles| - 1] == last.poles[poles - 1]
  {
    hide Start;
    StartPoles(cs, |cs|, degree, poles);
  }

  lemma {:induction false} StartPoles(cs: seq<Curve>, n: nat, degree: nat, poles: nat)
    requires 0 < n <= |cs| && AllWellFormed(cs) && degree > 0 && forall i :: 0 <= i < |cs| ==> |cs[i].poles| == poles
    ensures var s := Start(cs, n, degree, true); |s.poles| == n * (poles - 2) + 1 && s.poles[0] == cs[0].poles[0]
  {
    hide Start, AppendCurve;
    NextStart(cs, n - 1, degree, true);
    AppendedC1(Start(cs, n - 1, degree, true), cs, n - 1, degree);
    if n > 1 {
      StartPoles(cs, n - 1, degree, poles);
      assert n * (poles - 2) == (n - 1) * (poles - 2) + (poles - 2);
    } else {
      NextStart(cs, 0, degree, true);
    }
  }
}
