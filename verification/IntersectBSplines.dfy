/** The bracketing of curve intersections: prune and bisect with bounding boxes, then sort, deduplicate, merge and
    recombine. */
module IntersectBSplines {
  import opened Wrappers
  import opened Boxes
  import opened Geometry
  import opened MergeAdjacent

  /** The comparison of a control polygon's length with the distance of its ends: at most 1.0005 times as long, longer,
      or neither because both are zero and the quotient is not a number. */
  datatype Shape = Flat | Bent | Degenerate

  /** The curve operations that the algorithm is built on. */
  datatype Kernel<!T> = Kernel(first: T -> real, last: T -> real, poles: T -> seq<Point>, shape: T -> Shape,
                               at: (T, real) -> Point, trim: (T, real, real) -> T)
  {
    function BoxOf(c: T): Box {
      Box(LowOf(poles(c)), HighOf(poles(c)), first(c), last(c))
    }

    function Mid(c: T): real { 0.5 * (first(c) + last(c)) }

    function LowerHalf(c: T): T { trim(c, first(c), Mid(c)) }

    function UpperHalf(c: T): T { trim(c, Mid(c), last(c)) }

    predicate InRange(c: T, t: real) { first(c) <= t <= last(c) }
  }

  function LowOf(ps: seq<Point>): (p: Point) {
    if ps == [] then Point(0.0, 0.0, 0.0)
    else if |ps| == 1 then ps[0]
    else MinCoords(LowOf(ps[..|ps| - 1]), ps[|ps| - 1])
  }

  function HighOf(ps: seq<Point>): (p: Point) {
    if ps == [] then Point(0.0, 0.0, 0.0)
    else if |ps| == 1 then ps[0]
    else MaxCoords(HighOf(ps[..|ps| - 1]), ps[|ps| - 1])
  }

  /** A box that is built from the poles of a curve and extended in place. */
  class BoundingBox {
    var low: Point
    var high: Point
    var min: real
    var max: real

    function View(): Box
      reads this
    {
      Box(low, high, min, max)
    }

    /** huge is the greatest number there is. */
    constructor (first: real, last: real, poles: seq<Point>, huge: real)
      requires poles != [] && forall p :: p in poles ==> WithinLimit(p, huge)
      ensures View() == Box(LowOf(poles), HighOf(poles), first, last)
    {
      min, max := first, last;
      low, high := Point(huge, huge, huge), Point(-huge, -huge, -huge);
      new;
      for i := 0 to |poles|
        invariant min == first && max == last
        invariant if i == 0 then low == Point(huge, huge, huge) && high == Point(-huge, -huge, -huge)
                  else low == LowOf(poles[..i]) && high == HighOf(poles[..i])
      {
        assert WithinLimit(poles[i], huge);
        assert poles[..i + 1][..i] == poles[..i];
        low := MinCoords(low, poles[i]);
        high := MaxCoords(high, poles[i]);
      }
      assert poles[..|poles|] == poles;
    }

    method Merge(other: BoundingBox)
      requires max == other.min
      modifies this
      ensures View() == old(View()).Merged(old(other.View()))
    {
      max := other.max;
      high := MaxCoords(high, other.high);
      low := MinCoords(low, other.low);
    }
  }

  /** The box of the poles is the least one around them. */
  lemma {:induction false} HullOfPoles(ps: seq<Point>, e: Box)
    requires ps != []
    ensures e.Encloses(LowOf(ps)) && e.Encloses(HighOf(ps)) <==> forall p :: p in ps ==> e.Encloses(p)
  {
    var n := |ps| - 1;
    if n > 0 {
      HullOfPoles(ps[..n], e);
      LowBelowHigh(ps[..n]);
      HullWithPoint(LowOf(ps[..n]), HighOf(ps[..n]), ps[n], e);
      assert ps == ps[..n] + [ps[n]];
      assert forall p :: p in ps <==> p in ps[..n] || p == ps[n];
    } else {
      assert ps == [ps[0]];
    }
  }

  lemma HullWithPoint(low: Point, high: Point, p: Point, e: Box)
    requires low.x <= high.x && low.y <= high.y && low.z <= high.z
    ensures e.Encloses(MinCoords(low, p)) && e.Encloses(MaxCoords(high, p))
            <==> e.Encloses(low) && e.Encloses(high) && e.Encloses(p)
  {
  }

  lemma {:induction false} LowBelowHigh(ps: seq<Point>)
    ensures LowOf(ps).x <= HighOf(ps).x && LowOf(ps).y <= HighOf(ps).y && LowOf(ps).z <= HighOf(ps).z
  {
    if |ps| > 1 {
      LowBelowHigh(ps[..|ps| - 1]);
    }
  }

  predicate WithinLimit(p: Point, huge: real) {
    -huge <= p.x <= huge && -huge <= p.y <= huge && -huge <= p.z <= huge
  }

  // ----- what the kernel has to promise -----

  /** A curve lies in the box of its poles. */
  ghost predicate HullLaw<T(!new)>(k: Kernel<T>) {
    && (forall c :: k.first(c) < k.last(c))
    && (forall c :: k.poles(c) != [])
    && (forall c, t :: k.InRange(c, t) ==> k.BoxOf(c).Encloses(k.at(c, t)))
  }

  /** Trimming keeps the points of the curve. */
  ghost predicate TrimLaw<T(!new)>(k: Kernel<T>) {
    forall c, a, b :: k.first(c) <= a < b <= k.last(c) ==> TrimmedWell(k, c, a, b)
  }

  ghost predicate TrimmedWell<T(!new)>(k: Kernel<T>, c: T, a: real, b: real) {
    var d := k.trim(c, a, b);
    k.first(d) == a && k.last(d) == b && forall t :: a <= t <= b ==> k.at(d, t) == k.at(c, t)
  }

  ghost predicate Lawful<T(!new)>(k: Kernel<T>) {
    HullLaw(k) && TrimLaw(k)
  }

  lemma HalvesKeepPoints<T(!new)>(k: Kernel<T>, c: T)
    requires Lawful(k)
    ensures k.first(k.LowerHalf(c)) == k.first(c) < k.Mid(c) == k.last(k.LowerHalf(c))
    ensures k.first(k.UpperHalf(c)) == k.Mid(c) < k.last(c) == k.last(k.UpperHalf(c))
    ensures forall t :: k.InRange(k.LowerHalf(c), t) ==> k.at(k.LowerHalf(c), t) == k.at(c, t)
    ensures forall t :: k.InRange(k.UpperHalf(c), t) ==> k.at(k.UpperHalf(c), t) == k.at(c, t)
  {
    assert k.first(c) < k.last(c);
    assert TrimmedWell(k, c, k.first(c), k.Mid(c));
    assert TrimmedWell(k, c, k.Mid(c), k.last(c));
  }

  lemma BoxIsProper<T(!new)>(k: Kernel<T>, c: T)
    requires Lawful(k)
    ensures k.BoxOf(c).Proper()
  {
    assert k.first(c) < k.last(c) && k.InRange(c, k.first(c));
  }

  // ----- the recursion -----

  datatype BoxPair = BoxPair(b1: Box, b2: Box)

  /** The ranges where the curves may meet, or None if they are not found within that depth of recursion. */
  function Ranges<T>(k: Kernel<T>, c1: T, c2: T, tolerance: real, depth: nat): Option<seq<BoxPair>> {
    var h1, h2 := k.BoxOf(c1), k.BoxOf(c2);
    var s1, s2 := k.shape(c1), k.shape(c2);
    if !h1.Intersects(h2, tolerance) then Some([])
    else if s1.Flat? && s2.Flat? then Some([BoxPair(h1, h2)])
    else if s1.Degenerate? || s2.Degenerate? then Some([])
    else if depth == 0 then None
    else if s1.Bent? && s2.Bent? then
      Append4(Ranges(k, k.LowerHalf(c1), k.LowerHalf(c2), tolerance, depth - 1),
              Ranges(k, k.LowerHalf(c1), k.UpperHalf(c2), tolerance, depth - 1),
              Ranges(k, k.UpperHalf(c1), k.LowerHalf(c2), tolerance, depth - 1),
              Ranges(k, k.UpperHalf(c1), k.UpperHalf(c2), tolerance, depth - 1))
    else if s2.Bent? then
      Append2(Ranges(k, c1, k.LowerHalf(c2), tolerance, depth - 1),
              Ranges(k, c1, k.UpperHalf(c2), tolerance, depth - 1))
    else
      Append2(Ranges(k, k.LowerHalf(c1), c2, tolerance, depth - 1),
              Ranges(k, k.UpperHalf(c1), c2, tolerance, depth - 1))
  }

  /** Each result goes in front of those before it. */
  function Append2(r1: Option<seq<BoxPair>>, r2: Option<seq<BoxPair>>): Option<seq<BoxPair>> {
    if r1.None? || r2.None? then None else Some(r2.value + r1.value)
  }

  function Append4(r1: Option<seq<BoxPair>>, r2: Option<seq<BoxPair>>, r3: Option<seq<BoxPair>>,
                   r4: Option<seq<BoxPair>>)
    : Option<seq<BoxPair>>
  {
    Append2(Append2(Append2(r1, r2), r3), r4)
  }

  /** A recursion that ends gives the same result whatever greater depth is allowed. */
  lemma {:induction false} DeeperIsSame<T>(k: Kernel<T>, c1: T, c2: T, tolerance: real, depth: nat, deeper: nat)
    requires Ranges(k, c1, c2, tolerance, depth).Some? && depth <= deeper
    ensures Ranges(k, c1, c2, tolerance, deeper) == Ranges(k, c1, c2, tolerance, depth)
    decreases depth
  {
    hide Box.Intersects;
    if depth > 0 && Refines(k, c1, c2, tolerance) {
      var n, m := depth - 1, deeper - 1;
      RangesOfParts(k, c1, c2, tolerance, n, Ranges(k, c1, c2, tolerance, depth).value);
      forall a, b
        ensures SamePart(k, c1, c2, tolerance, n, m, a, b)
      {
        assert PartRanges(k, c1, c2, tolerance, n, a, b).Some?;
        DeeperIsSame(k, Part(k, c1, a), Part(k, c2, b), tolerance, n, m);
      }
      SameParts(k, c1, c2, tolerance, n, m);
    }
  }

  predicate SamePart<T>(k: Kernel<T>, c1: T, c2: T, tolerance: real, n: nat, m: nat, a: bool, b: bool) {
    PartRanges(k, c1, c2, tolerance, m, a, b) == PartRanges(k, c1, c2, tolerance, n, a, b)
  }

  lemma SameParts<T>(k: Kernel<T>, c1: T, c2: T, tolerance: real, n: nat, m: nat)
    requires Refines(k, c1, c2, tolerance)
    requires forall a, b :: SamePart(k, c1, c2, tolerance, n, m, a, b)
    ensures Ranges(k, c1, c2, tolerance, m + 1) == Ranges(k, c1, c2, tolerance, n + 1)
  {
    hide Box.Intersects;
    var l, r := false, true;
    assert SamePart(k, c1, c2, tolerance, n, m, l, l) && SamePart(k, c1, c2, tolerance, n, m, l, r);
    assert SamePart(k, c1, c2, tolerance, n, m, r, l) && SamePart(k, c1, c2, tolerance, n, m, r, r);
  }

  // ----- when the recursion ends -----

  /** The bisection of c by itself ends within that many halvings. */
  predicate EndsWithin<T>(k: Kernel<T>, c: T, depth: nat) {
    k.shape(c).Bent? ==>
      depth > 0 && EndsWithin(k, k.LowerHalf(c), depth - 1) && EndsWithin(k, k.UpperHalf(c), depth - 1)
  }

  lemma {:induction false} EndsWithinMore<T>(k: Kernel<T>, c: T, depth: nat, more: nat)
    requires EndsWithin(k, c, depth) && depth <= more
    ensures EndsWithin(k, c, more)
    decreases depth
  {
    if k.shape(c).Bent? {
      EndsWithinMore(k, k.LowerHalf(c), depth - 1, more - 1);
      EndsWithinMore(k, k.UpperHalf(c), depth - 1, more - 1);
    }
  }

  lemma EndsWithinParts<T>(k: Kernel<T>, c: T, depth: nat, upper: bool)
    requires EndsWithin(k, c, depth + 1)
    ensures EndsWithin(k, Part(k, c, upper), depth)
  {
  }

  /** If the bisections of both curves end, the recursion on the two ends with them. */
  lemma {:induction false} BisectionsEndRanges<T>(k: Kernel<T>, c1: T, c2: T, tolerance: real, depth: nat)
    requires EndsWithin(k, c1, depth) && EndsWithin(k, c2, depth)
    ensures Ranges(k, c1, c2, tolerance, depth).Some?
    decreases depth
  {
    hide Box.Intersects;
    if depth > 0 && Refines(k, c1, c2, tolerance) {
      var n := depth - 1;
      forall a, b
        ensures PartEnds(k, c1, c2, tolerance, n, a, b)
      {
        EndsWithinParts(k, c1, n, a);
        EndsWithinParts(k, c2, n, b);
        BisectionsEndRanges(k, Part(k, c1, a), Part(k, c2, b), tolerance, n);
      }
      PartsEnd(k, c1, c2, tolerance, n);
    }
  }

  predicate PartEnds<T>(k: Kernel<T>, c1: T, c2: T, tolerance: real, n: nat, a: bool, b: bool) {
    PartRanges(k, c1, c2, tolerance, n, a, b).Some?
  }

  /** The recursion ends if it does on all parts. */
  lemma PartsEnd<T>(k: Kernel<T>, c1: T, c2: T, tolerance: real, n: nat)
    requires Refines(k, c1, c2, tolerance) && forall a, b :: PartEnds(k, c1, c2, tolerance, n, a, b)
    ensures Ranges(k, c1, c2, tolerance, n + 1).Some?
  {
    hide Box.Intersects;
    var l, r := false, true;
    assert PartEnds(k, c1, c2, tolerance, n, l, l) && PartEnds(k, c1, c2, tolerance, n, l, r);
    assert PartEnds(k, c1, c2, tolerance, n, r, l) && PartEnds(k, c1, c2, tolerance, n, r, r);
  }

  // ----- leaves: the sub-curves where the refinement of one curve stops -----

  /** b is the box of the first flat curve on this way down the bisection of c. */
  predicate LeafAt<T>(k: Kernel<T>, c: T, path: seq<bool>, b: Box)
    decreases |path|
  {
    if path == [] then k.shape(c).Flat? && b == k.BoxOf(c)
    else k.shape(c).Bent? && LeafAt(k, if path[0] then k.UpperHalf(c) else k.LowerHalf(c), path[1..], b)
  }

  ghost predicate IsLeaf<T>(k: Kernel<T>, c: T, b: Box) {
    exists path :: LeafAt(k, c, path, b)
  }

  lemma {:induction false} LeafInRange<T(!new)>(k: Kernel<T>, c: T, path: seq<bool>, b: Box)
    requires Lawful(k) && LeafAt(k, c, path, b)
    ensures b.Proper() && k.first(c) <= b.min && b.max <= k.last(c)
    decreases |path|
  {
    if path == [] {
      BoxIsProper(k, c);
    } else {
      HalvesKeepPoints(k, c);
      LeafInRange(k, if path[0] then k.UpperHalf(c) else k.LowerHalf(c), path[1..], b);
    }
  }

  /** Refinement looks at one curve only, so any two of its leaves are the same or have no common interior. */
  lemma {:induction false} LeavesSeparate<T(!new)>(k: Kernel<T>, c: T, path1: seq<bool>, path2: seq<bool>, b1: Box,
                                                   b2: Box)
    requires Lawful(k) && LeafAt(k, c, path1, b1) && LeafAt(k, c, path2, b2)
    ensures b1 == b2 || b1.Before(b2) || b2.Before(b1)
    decreases |path1|
  {
    if path1 != [] {
      HalvesKeepPoints(k, c);
      var d1 := if path1[0] then k.UpperHalf(c) else k.LowerHalf(c);
      var d2 := if path2[0] then k.UpperHalf(c) else k.LowerHalf(c);
      if path1[0] == path2[0] {
        LeavesSeparate(k, d1, path1[1..], path2[1..], b1, b2);
      } else {
        LeafInRange(k, d1, path1[1..], b1);
        LeafInRange(k, d2, path2[1..], b2);
      }
    }
  }

  lemma LeafOfPart<T>(k: Kernel<T>, c: T, upper: bool, b: Box)
    requires IsLeaf(k, Part(k, c, upper), b)
    ensures IsLeaf(k, c, b)
  {
    if k.shape(c).Bent? {
      var path :| LeafAt(k, Part(k, c, upper), path, b);
      assert ([upper] + path)[1..] == path;
      assert LeafAt(k, c, [upper] + path, b);
    }
  }

  /** The half of a bent curve, or the whole of a flat one. */
  function Part<T>(k: Kernel<T>, c: T, upper: bool): T {
    if !k.shape(c).Bent? then c else if upper then k.UpperHalf(c) else k.LowerHalf(c)
  }

  function PartRanges<T>(k: Kernel<T>, c1: T, c2: T, tolerance: real, depth: nat, upper1: bool,
                         upper2: bool): Option<seq<BoxPair>> {
    Ranges(k, Part(k, c1, upper1), Part(k, c2, upper2), tolerance, depth)
  }

  predicate Refines<T>(k: Kernel<T>, c1: T, c2: T, tolerance: real) {
    && k.BoxOf(c1).Intersects(k.BoxOf(c2), tolerance)
    && !k.shape(c1).Degenerate? && !k.shape(c2).Degenerate?
    && (k.shape(c1).Bent? || k.shape(c2).Bent?)
  }

  /** Whichever of the curves is refined, the result collects the results for the parts. */
  lemma RangesOfParts<T>(k: Kernel<T>, c1: T, c2: T, tolerance: real, depth: nat, whole: seq<BoxPair>)
    requires Refines(k, c1, c2, tolerance) && Ranges(k, c1, c2, tolerance, depth + 1) == Some(whole)
    ensures forall a, b :: PartRanges(k, c1, c2, tolerance, depth, a, b).Some?
    ensures forall p :: p in whole <==> exists a, b :: p in PartRanges(k, c1, c2, tolerance, depth, a, b).value
  {
    var l, r := false, true;
    var ll, lr := PartRanges(k, c1, c2, tolerance, depth, l, l), PartRanges(k, c1, c2, tolerance, depth, l, r);
    var rl, rr := PartRanges(k, c1, c2, tolerance, depth, r, l), PartRanges(k, c1, c2, tolerance, depth, r, r);
    if k.shape(c1).Bent? && k.shape(c2).Bent? {
      AppendAll(ll, lr, rl, rr);
    }
    forall p
      ensures p in whole <==> p in ll.value || p in lr.value || p in rl.value || p in rr.value
    {
    }
  }

  lemma AppendAll(r1: Option<seq<BoxPair>>, r2: Option<seq<BoxPair>>, r3: Option<seq<BoxPair>>,
                  r4: Option<seq<BoxPair>>)
    requires Append4(r1, r2, r3, r4).Some?
    ensures r1.Some? && r2.Some? && r3.Some? && r4.Some?
    ensures forall p :: p in Append4(r1, r2, r3, r4).value <==>
            p in r1.value || p in r2.value || p in r3.value || p in r4.value
  {
  }

  lemma {:induction false} RangesAreLeaves<T>(k: Kernel<T>, c1: T, c2: T, tolerance: real, depth: nat, p: BoxPair)
    requires Ranges(k, c1, c2, tolerance, depth).Some? && p in Ranges(k, c1, c2, tolerance, depth).value
    ensures IsLeaf(k, c1, p.b1) && IsLeaf(k, c2, p.b2) && p.b1.Intersects(p.b2, tolerance)
    decreases depth
  {
    hide Box.Intersects;
    if k.shape(c1).Flat? && k.shape(c2).Flat? {
      assert LeafAt(k, c1, [], k.BoxOf(c1)) && LeafAt(k, c2, [], k.BoxOf(c2));
    } else {
      RangesOfParts(k, c1, c2, tolerance, depth - 1, Ranges(k, c1, c2, tolerance, depth).value);
      var a, b :| p in PartRanges(k, c1, c2, tolerance, depth - 1, a, b).value;
      RangesAreLeaves(k, Part(k, c1, a), Part(k, c2, b), tolerance, depth - 1, p);
      LeafOfPart(k, c1, a, p.b1);
      LeafOfPart(k, c2, b, p.b2);
    }
  }

  // ----- no near pair of points is lost in the recursion -----

  function SubCurve<T>(k: Kernel<T>, c: T, path: seq<bool>): T
    decreases |path|
  {
    if path == [] then c
    else SubCurve(k, if path[0] then k.UpperHalf(c) else k.LowerHalf(c), path[1..])
  }

  /** No part of the curve that the bisection can reach is a single point. */
  ghost predicate Regular<T>(k: Kernel<T>, c: T) {
    forall path :: !k.shape(SubCurve(k, c, path)).Degenerate?
  }

  lemma RegularHalves<T>(k: Kernel<T>, c: T)
    requires Regular(k, c)
    ensures !k.shape(c).Degenerate? && Regular(k, k.LowerHalf(c)) && Regular(k, k.UpperHalf(c))
  {
    assert SubCurve(k, c, []) == c;
    forall path
      ensures !k.shape(SubCurve(k, k.LowerHalf(c), path)).Degenerate?
              && !k.shape(SubCurve(k, k.UpperHalf(c), path)).Degenerate?
    {
      assert ([false] + path)[1..] == path && ([true] + path)[1..] == path;
      assert SubCurve(k, c, [false] + path) == SubCurve(k, k.LowerHalf(c), path);
      assert SubCurve(k, c, [true] + path) == SubCurve(k, k.UpperHalf(c), path);
    }
  }

  /** This pair of boxes brackets the points at u and v. */
  predicate Brackets<T>(k: Kernel<T>, c1: T, c2: T, u: real, v: real, p: BoxPair) {
    p.b1.Covers(u) && p.b1.Encloses(k.at(c1, u)) && p.b2.Covers(v) && p.b2.Encloses(k.at(c2, v))
  }

  ghost predicate IsNearPair<T>(k: Kernel<T>, c1: T, c2: T, tolerance: real, u: real, v: real) {
    tolerance > 0.0 && k.InRange(c1, u) && k.InRange(c2, v) && Near(k.at(c1, u), k.at(c2, v), tolerance)
  }

  lemma PartKeepsPoint<T(!new)>(k: Kernel<T>, c: T, t: real)
    requires Lawful(k) && k.InRange(c, t) && Regular(k, c)
    ensures var d := Part(k, c, t > k.Mid(c)); k.InRange(d, t) && k.at(d, t) == k.at(c, t) && Regular(k, d)
  {
    HalvesKeepPoints(k, c);
    RegularHalves(k, c);
  }

  lemma {:induction false} NearPairBracketed<T(!new)>(k: Kernel<T>, c1: T, c2: T, tolerance: real, depth: nat, u: real,
                                                      v: real)
    returns (p: BoxPair)
    requires Lawful(k) && Regular(k, c1) && Regular(k, c2) && IsNearPair(k, c1, c2, tolerance, u, v)
    requires Ranges(k, c1, c2, tolerance, depth).Some?
    ensures p in Ranges(k, c1, c2, tolerance, depth).value && Brackets(k, c1, c2, u, v, p)
    decreases depth
  {
    var h1, h2 := k.BoxOf(c1), k.BoxOf(c2);
    NearBoxesIntersect(h1, h2, k.at(c1, u), k.at(c2, v), tolerance);
    RegularHalves(k, c1);
    RegularHalves(k, c2);
    if k.shape(c1).Flat? && k.shape(c2).Flat? {
      p := BoxPair(h1, h2);
    } else {
      RangesOfParts(k, c1, c2, tolerance, depth - 1, Ranges(k, c1, c2, tolerance, depth).value);
      var a, b := u > k.Mid(c1), v > k.Mid(c2);
      PartKeepsPoint(k, c1, u);
      PartKeepsPoint(k, c2, v);
      assert PartRanges(k, c1, c2, tolerance, depth - 1, a, b).Some?;
      p := NearPairBracketed(k, Part(k, c1, a), Part(k, c2, b), tolerance, depth - 1, u, v);
      assert p in PartRanges(k, c1, c2, tolerance, depth - 1, a, b).value;
    }
  }

  /** A curve whose poles all coincide is never reported to meet anything, not even itself. */
  lemma DegenerateMeetsNothing<T>(k: Kernel<T>, c1: T, c2: T, tolerance: real, depth: nat)
    requires k.shape(c1).Degenerate? || k.shape(c2).Degenerate?
    ensures Ranges(k, c1, c2, tolerance, depth) == Some([])
  {
  }

  // ----- sorting, removing duplicates, merging, recombining -----

  function IsAdjacent(a: Box, b: Box): bool { a.Adjacent(b) }

  function MergeBoxes(a: Box, b: Box): Box { a.Merged(b) }

  /** The ranges of one curve, each stretch of touching ranges merged into one. */
  function MergedRanges(s: seq<Box>): seq<Box> {
    Merge(Unique(Sort(s)), IsAdjacent, MergeBoxes)
  }

  predicate Gapped(s: seq<Box>) {
    forall i, j :: 0 <= i < j < |s| ==> s[i].max < s[j].min
  }

  ghost predicate CoveredBy(s: seq<Box>, t: real) {
    exists b :: b in s && b.Covers(t)
  }

  ghost predicate ContainedIn(a: Box, s: seq<Box>) {
    exists b :: b in s && b.Contains(a)
  }

  lemma MergedPair(s: seq<Box>)
    requires Ascending(s) && AllProper(s) && |s| > 1 && s[0].Adjacent(s[1])
    ensures var t := [s[0].Merged(s[1])] + s[2..];
            && Ascending(t) && AllProper(t)
            && t[0].Contains(s[0]) && t[0].Contains(s[1])
            && forall x :: t[0].Covers(x) <==> s[0].Covers(x) || s[1].Covers(x)
  {
    var t := [s[0].Merged(s[1])] + s[2..];
    assert s[0] in s && s[1] in s;
    forall j | 0 < j < |t|
      ensures t[0].Before(t[j])
    {
      assert t[j] == s[j + 1];
      assert s[1].Before(s[j + 1]);
    }
  }

  lemma {:induction false} MergeOfAscending(s: seq<Box>)
    requires Ascending(s) && AllProper(s)
    ensures var r := Merge(s, IsAdjacent, MergeBoxes);
            && Gapped(r) && AllProper(r) && (s != [] ==> r[0].min == s[0].min)
            && (forall b :: b in s ==> ContainedIn(b, r))
            && (forall t :: CoveredBy(s, t) <==> CoveredBy(r, t))
    decreases |s|
  {
    var r := Merge(s, IsAdjacent, MergeBoxes);
    if |s| <= 1 {
      forall b | b in s
        ensures ContainedIn(b, r)
      {
        assert b in r && b.Contains(b);
      }
    } else if s[0].Adjacent(s[1]) {
      var t := [s[0].Merged(s[1])] + s[2..];
      MergedPair(s);
      MergeOfAscending(t);
      MergedContains(s, t, r);
      MergedCovers(s, t);
    } else {
      var t := s[1..];
      assert s == [s[0]] + t;
      MergeOfAscending(t);
      var r' := Merge(t, IsAdjacent, MergeBoxes);
      assert r == [s[0]] + r';
      assert s[0] in s && s[0].Before(s[1]);
      GapsExtend(s[0], r');
      KeptContains(s[0], t, r');
      KeptCovers(s[0], t, r');
    }
  }

  lemma GapsExtend(a: Box, r: seq<Box>)
    requires Gapped(r) && AllProper(r) && a.Proper() && (r != [] ==> a.max < r[0].min)
    ensures Gapped([a] + r) && AllProper([a] + r)
  {
    forall j | 0 <= j < |r|
      ensures a.max < r[j].min
    {
      assert r[0] in r;
      assert j > 0 ==> r[0].max < r[j].min;
    }
  }

  lemma KeptContains(a: Box, t: seq<Box>, r: seq<Box>)
    requires a.Proper() && forall b :: b in t ==> ContainedIn(b, r)
    ensures forall b :: b in [a] + t ==> ContainedIn(b, [a] + r)
  {
    forall b | b in [a] + t
      ensures ContainedIn(b, [a] + r)
    {
      if b == a {
        assert a in [a] + r && a.Contains(a);
      } else {
        var c :| c in r && c.Contains(b);
        assert c in [a] + r;
      }
    }
  }

  lemma KeptCovers(a: Box, t: seq<Box>, r: seq<Box>)
    requires forall x :: CoveredBy(t, x) <==> CoveredBy(r, x)
    ensures forall x :: CoveredBy([a] + t, x) <==> CoveredBy([a] + r, x)
  {
    forall x
      ensures CoveredBy([a] + t, x) <==> CoveredBy([a] + r, x)
    {
      CoverSplit(a, t, x);
      CoverSplit(a, r, x);
    }
  }

  lemma CoverSplit(a: Box, t: seq<Box>, x: real)
    ensures CoveredBy([a] + t, x) <==> a.Covers(x) || CoveredBy(t, x)
  {
    if a.Covers(x) {
      assert a in [a] + t;
    } else if CoveredBy(t, x) {
      var b :| b in t && b.Covers(x);
      assert b in [a] + t;
    }
  }

  lemma MergedContains(s: seq<Box>, t: seq<Box>, r: seq<Box>)
    requires |s| > 1 && t == [s[0].Merged(s[1])] + s[2..] && t[0].Contains(s[0]) && t[0].Contains(s[1])
    requires forall b :: b in t ==> ContainedIn(b, r)
    ensures forall b :: b in s ==> ContainedIn(b, r)
  {
    forall b | b in s
      ensures ContainedIn(b, r)
    {
      assert s == [s[0], s[1]] + s[2..];
      var m := if b == s[0] || b == s[1] then t[0] else b;
      assert m in t;
      var c :| c in r && c.Contains(m);
      assert c.Contains(b);
    }
  }

  lemma MergedCovers(s: seq<Box>, t: seq<Box>)
    requires |s| > 1 && t == [s[0].Merged(s[1])] + s[2..]
    requires forall x :: t[0].Covers(x) <==> s[0].Covers(x) || s[1].Covers(x)
    ensures forall x :: CoveredBy(s, x) <==> CoveredBy(t, x)
  {
    assert s == [s[0]] + ([s[1]] + s[2..]);
    forall x
      ensures CoveredBy(s, x) <==> CoveredBy(t, x)
    {
      CoverSplit(s[0], [s[1]] + s[2..], x);
      CoverSplit(s[1], s[2..], x);
      CoverSplit(t[0], s[2..], x);
    }
  }

  /** For separate ranges, whatever their order and repetitions: the merged ranges have gaps between them, cover the
      same parameters, and each original box lies in one of them. */
  lemma MergedRangesOfSeparate(s: seq<Box>)
    requires Separate(s) && AllProper(s)
    ensures var r := MergedRanges(s);
            && Gapped(r) && AllProper(r)
            && (forall b :: b in s ==> ContainedIn(b, r))
            && (forall t :: CoveredBy(s, t) <==> CoveredBy(r, t))
  {
    var a := Sort(s);
    UniqueOfSorted(a);
    MergeOfAscending(Unique(a));
    assert forall x :: x in s <==> x in Unique(a);
    forall t
      ensures CoveredBy(s, t) <==> CoveredBy(MergedRanges(s), t)
    {
      assert CoveredBy(s, t) <==> CoveredBy(Unique(a), t);
    }
  }

  /** The ranges of s that lie in that of m have boxes in e. */
  ghost predicate BoxesWithin(s: seq<Box>, m: Box, e: Box) {
    forall b :: b in s && m.min <= b.min && b.max <= m.max ==> e.Encloses(b.low) && e.Encloses(b.high)
  }

  lemma {:induction false} MergeIsTight(s: seq<Box>, m: Box, e: Box)
    requires AllProper(s) && m in Merge(s, IsAdjacent, MergeBoxes) && BoxesWithin(s, m, e)
    ensures e.Encloses(m.low) && e.Encloses(m.high)
    decreases |s|
  {
    if |s| > 1 {
      assert s == [s[0], s[1]] + s[2..];
      var a, b := s[0], s[1];
      if a.Adjacent(b) {
        var t := [a.Merged(b)] + s[2..];
        assert a in s && b in s;
        MergedIsHull(a, b, e);
        assert a.Merged(b).Proper();
        MergeIsTight(t, m, e);
      } else if m != a {
        assert s == [a] + s[1..];
        MergeIsTight(s[1..], m, e);
      }
    }
  }

  /** The box of a merged range is the least one around the boxes of the ranges that were merged. */
  lemma MergedRangeIsTight(s: seq<Box>, m: Box, e: Box)
    requires Separate(s) && AllProper(s) && m in MergedRanges(s) && BoxesWithin(s, m, e)
    ensures e.Encloses(m.low) && e.Encloses(m.high)
  {
    var u := Unique(Sort(s));
    assert forall b :: b in u ==> b in s;
    MergeIsTight(u, m, e);
  }

  // ----- the algorithm up to the candidate list -----

  function FirstBoxes(hulls: seq<BoxPair>): (r: seq<Box>)
    ensures |r| == |hulls| && forall i :: 0 <= i < |r| ==> r[i] == hulls[i].b1
  {
    seq(|hulls|, i requires 0 <= i < |hulls| => hulls[i].b1)
  }

  function SecondBoxes(hulls: seq<BoxPair>): (r: seq<Box>)
    ensures |r| == |hulls| && forall i :: 0 <= i < |r| ==> r[i] == hulls[i].b2
  {
    seq(|hulls|, i requires 0 <= i < |hulls| => hulls[i].b2)
  }

  function PairsWith(b1: Box, s2: seq<Box>, tolerance: real): (r: seq<BoxPair>)
    ensures forall p :: p in r <==> p.b1 == b1 && p.b2 in s2 && b1.Intersects(p.b2, tolerance)
  {
    if s2 == [] then []
    else
      var t := s2[..|s2| - 1];
      assert s2 == t + [s2[|s2| - 1]];
      PairsWith(b1, t, tolerance)
      + if b1.Intersects(s2[|s2| - 1], tolerance) then [BoxPair(b1, s2[|s2| - 1])] else []
  }

  function Candidates(s1: seq<Box>, s2: seq<Box>, tolerance: real): (r: seq<BoxPair>)
    ensures forall p :: p in r <==> p.b1 in s1 && p.b2 in s2 && p.b1.Intersects(p.b2, tolerance)
  {
    if s1 == [] then []
    else
      var t := s1[..|s1| - 1];
      assert s1 == t + [s1[|s1| - 1]];
      Candidates(t, s2, tolerance) + PairsWith(s1[|s1| - 1], s2, tolerance)
  }

  method CleanUp(list: MutableList<Box>)
    modifies list
    ensures list.items == MergedRanges(old(list.items))
  {
    list.items := Sort(list.items);
    list.items := Unique(list.items);
    list.ReplaceAdjacentWithMerged(IsAdjacent, MergeBoxes);
  }

  method SplitBoxes(hulls: seq<BoxPair>) returns (list1: MutableList<Box>, list2: MutableList<Box>)
    ensures fresh(list1) && fresh(list2) && list1 != list2
    ensures list1.items == FirstBoxes(hulls) && list2.items == SecondBoxes(hulls)
  {
    list1 := new MutableList<Box>([]);
    list2 := new MutableList<Box>([]);
    for i := 0 to |hulls|
      invariant list1.items == FirstBoxes(hulls)[..i] && list2.items == SecondBoxes(hulls)[..i]
    {
      list1.items := list1.items + [hulls[i].b1];
      list2.items := list2.items + [hulls[i].b2];
    }
  }

  method Combine(s1: seq<Box>, s2: seq<Box>, tolerance: real) returns (candidates: seq<BoxPair>)
    ensures candidates == Candidates(s1, s2, tolerance)
  {
    candidates := [];
    for i := 0 to |s1|
      invariant candidates == Candidates(s1[..i], s2, tolerance)
    {
      ghost var before := candidates;
      for j := 0 to |s2|
        invariant candidates == before + PairsWith(s1[i], s2[..j], tolerance)
      {
        assert s2[..j + 1][..j] == s2[..j];
        if s1[i].Intersects(s2[j], tolerance) {
          candidates := candidates + [BoxPair(s1[i], s2[j])];
        }
      }
      assert s2[..|s2|] == s2 && s1[..i + 1][..i] == s1[..i];
    }
    assert s1[..|s1|] == s1;
  }

  /** The pairs of parameter ranges in which the intersections are sought, or None beyond that depth of recursion. */
  method IntersectionCandidates<T>(k: Kernel<T>, c1: T, c2: T, tolerance: real,
                                   depth: nat)
    returns (r: Option<seq<BoxPair>>)
    ensures r.Some? == Ranges(k, c1, c2, tolerance, depth).Some?
    ensures r.Some? ==> r.value == FinalCandidates(Ranges(k, c1, c2, tolerance, depth).value, tolerance)
  {
    var ranges := Ranges(k, c1, c2, tolerance, depth);
    if ranges.None? {
      return None;
    }
    var list1, list2 := SplitBoxes(ranges.value);
    CleanUp(list1);
    CleanUp(list2);
    var candidates := Combine(list1.items, list2.items, tolerance);
    return Some(candidates);
  }

  function FinalCandidates(hulls: seq<BoxPair>, tolerance: real): seq<BoxPair> {
    Candidates(MergedRanges(FirstBoxes(hulls)), MergedRanges(SecondBoxes(hulls)), tolerance)
  }

  // ----- the main results -----

  lemma LeafBoxesSeparate<T(!new)>(k: Kernel<T>, c: T, s: seq<Box>)
    requires Lawful(k) && forall b :: b in s ==> IsLeaf(k, c, b)
    ensures Separate(s) && AllProper(s)
  {
    forall b1, b2 | b1 in s && b2 in s
      ensures b1 == b2 || b1.Before(b2) || b2.Before(b1)
    {
      var path1 :| LeafAt(k, c, path1, b1);
      var path2 :| LeafAt(k, c, path2, b2);
      LeavesSeparate(k, c, path1, path2, b1, b2);
    }
    forall b | b in s
      ensures b.Proper()
    {
      var path :| LeafAt(k, c, path, b);
      LeafInRange(k, c, path, b);
    }
  }

  /** Across all branches of the recursion the ranges found for one curve are the same or have no common interior. */
  lemma RangesSeparate<T(!new)>(k: Kernel<T>, c1: T, c2: T, tolerance: real, depth: nat)
    requires Lawful(k) && Ranges(k, c1, c2, tolerance, depth).Some?
    ensures var hulls := Ranges(k, c1, c2, tolerance, depth).value;
            && Separate(FirstBoxes(hulls)) && AllProper(FirstBoxes(hulls))
            && Separate(SecondBoxes(hulls)) && AllProper(SecondBoxes(hulls))
  {
    var hulls := Ranges(k, c1, c2, tolerance, depth).value;
    forall i | 0 <= i < |hulls|
      ensures IsLeaf(k, c1, hulls[i].b1) && IsLeaf(k, c2, hulls[i].b2)
    {
      RangesAreLeaves(k, c1, c2, tolerance, depth, hulls[i]);
    }
    LeafBoxesSeparate(k, c1, FirstBoxes(hulls));
    LeafBoxesSeparate(k, c2, SecondBoxes(hulls));
  }

  /** The merged ranges of either curve, between which the candidates are chosen, are in ascending order with gaps
      between them, and cover exactly the parameters that the recursion reported. */
  lemma CandidateRanges<T(!new)>(k: Kernel<T>, c1: T, c2: T, tolerance: real, depth: nat)
    requires Lawful(k) && Ranges(k, c1, c2, tolerance, depth).Some?
    ensures var hulls := Ranges(k, c1, c2, tolerance, depth).value;
            var r1, r2 := MergedRanges(FirstBoxes(hulls)), MergedRanges(SecondBoxes(hulls));
            && Gapped(r1) && Gapped(r2)
            && (forall t :: CoveredBy(FirstBoxes(hulls), t) <==> CoveredBy(r1, t))
            && (forall t :: CoveredBy(SecondBoxes(hulls), t) <==> CoveredBy(r2, t))
  {
    var hulls := Ranges(k, c1, c2, tolerance, depth).value;
    RangesSeparate(k, c1, c2, tolerance, depth);
    MergedRangesOfSeparate(FirstBoxes(hulls));
    MergedRangesOfSeparate(SecondBoxes(hulls));
  }

  /** Every reported pair holds two near points. */
  lemma CandidatesAreNear<T(!new)>(k: Kernel<T>, c1: T, c2: T, tolerance: real, depth: nat, q: BoxPair)
    returns (p1: Point, p2: Point)
    requires Lawful(k) && Ranges(k, c1, c2, tolerance, depth).Some? && tolerance > 0.0
    requires q in FinalCandidates(Ranges(k, c1, c2, tolerance, depth).value, tolerance)
    ensures q.b1.Encloses(p1) && q.b2.Encloses(p2) && Near(p1, p2, tolerance)
  {
    var hulls := Ranges(k, c1, c2, tolerance, depth).value;
    RangesSeparate(k, c1, c2, tolerance, depth);
    MergedRangesOfSeparate(FirstBoxes(hulls));
    MergedRangesOfSeparate(SecondBoxes(hulls));
    p1, p2 := NearPoints(q.b1, q.b2, tolerance);
  }

  /** And it is one: the pairs are all those of merged ranges whose boxes hold two near points. */
  lemma CandidatesAreAllNear<T(!new)>(k: Kernel<T>, c1: T, c2: T, tolerance: real, depth: nat, q: BoxPair)
    requires Lawful(k) && Ranges(k, c1, c2, tolerance, depth).Some? && tolerance > 0.0
    ensures var hulls := Ranges(k, c1, c2, tolerance, depth).value;
            q in FinalCandidates(hulls, tolerance)
            <==> && q.b1 in MergedRanges(FirstBoxes(hulls)) && q.b2 in MergedRanges(SecondBoxes(hulls))
                 && exists p1, p2 :: q.b1.Encloses(p1) && q.b2.Encloses(p2) && Near(p1, p2, tolerance)
  {
    hide Box.Intersects, Near, Box.Encloses;
    var hulls := Ranges(k, c1, c2, tolerance, depth).value;
    RangesSeparate(k, c1, c2, tolerance, depth);
    MergedRangesOfSeparate(FirstBoxes(hulls));
    MergedRangesOfSeparate(SecondBoxes(hulls));
    if q.b1 in MergedRanges(FirstBoxes(hulls)) && q.b2 in MergedRanges(SecondBoxes(hulls)) {
      IntersectsIffNear(q.b1, q.b2, tolerance);
    }
  }

  /** Curves that are far apart meet nowhere. */
  lemma FarCurvesMeetNothing<T>(k: Kernel<T>, c1: T, c2: T, tolerance: real, depth: nat)
    requires FarApart(k.BoxOf(c1), k.BoxOf(c2), tolerance)
    ensures Ranges(k, c1, c2, tolerance, depth) == Some([]) && FinalCandidates([], tolerance) == []
  {
    FarApartIsPruned(k.BoxOf(c1), k.BoxOf(c2), tolerance);
    assert FirstBoxes([]) == [] && Candidates([], [], tolerance) == [];
  }

  lemma MergedContainer(s: seq<Box>, b: Box) returns (m: Box)
    requires Separate(s) && AllProper(s) && b in s
    ensures m in MergedRanges(s) && m.Contains(b)
  {
    MergedRangesOfSeparate(s);
    assert ContainedIn(b, MergedRanges(s));
    m :| m in MergedRanges(s) && m.Contains(b);
  }

  /** No near pair of points is lost, from the recursion to the final candidates. */
  lemma NoIntersectionLost<T(!new)>(k: Kernel<T>, c1: T, c2: T, tolerance: real, depth: nat, u: real,
                                    v: real)
    returns (q: BoxPair)
    requires Lawful(k) && Regular(k, c1) && Regular(k, c2) && IsNearPair(k, c1, c2, tolerance, u, v)
    requires Ranges(k, c1, c2, tolerance, depth).Some?
    ensures q in FinalCandidates(Ranges(k, c1, c2, tolerance, depth).value, tolerance)
    ensures q.b1.Covers(u) && q.b2.Covers(v)
  {
    var hulls := Ranges(k, c1, c2, tolerance, depth).value;
    var p := NearPairBracketed(k, c1, c2, tolerance, depth, u, v);
    RangesSeparate(k, c1, c2, tolerance, depth);
    var n :| 0 <= n < |hulls| && hulls[n] == p;
    assert FirstBoxes(hulls)[n] == p.b1 && SecondBoxes(hulls)[n] == p.b2;
    var m1 := MergedContainer(FirstBoxes(hulls), p.b1);
    var m2 := MergedContainer(SecondBoxes(hulls), p.b2);
    NearBoxesIntersect(m1, m2, k.at(c1, u), k.at(c2, v), tolerance);
    q := BoxPair(m1, m2);
  }
}
