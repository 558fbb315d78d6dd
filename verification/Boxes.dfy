/** Points, parameter ranges with bounding boxes, and lists of them. */
module Boxes {
  import opened Geometry

  function Min(a: real, b: real): real { if a < b then a else b }

  function Max(a: real, b: real): real { if a > b then a else b }

  function MinCoords(p: Point, q: Point): Point { Point(Min(p.x, q.x), Min(p.y, q.y), Min(p.z, q.z)) }

  function MaxCoords(p: Point, q: Point): Point { Point(Max(p.x, q.x), Max(p.y, q.y), Max(p.z, q.z)) }

  /** The two points differ by less than d in every coordinate. */
  predicate Near(p: Point, q: Point, d: real) {
    && -d < p.x - q.x < d
    && -d < p.y - q.y < d
    && -d < p.z - q.z < d
  }

  datatype Box = Box(low: Point, high: Point, min: real, max: real) {
    predicate Encloses(p: Point) {
      low.x <= p.x <= high.x && low.y <= p.y <= high.y && low.z <= p.z <= high.z
    }

    predicate Covers(t: real) { min <= t <= max }

    predicate Intersects(other: Box, eps: real) {
      var lo := MaxCoords(low, other.low);
      var hi := MinCoords(high, other.high);
      lo.x < hi.x + eps && lo.y < hi.y + eps && lo.z < hi.z + eps
    }

    /** Equality looks at the ranges only. */
    predicate SameRange(other: Box) { min == other.min && max == other.max }

    predicate Adjacent(other: Box) { max == other.min }

    function Merged(other: Box): Box {
      Box(MinCoords(low, other.low), MaxCoords(high, other.high), min, other.max)
    }

    predicate Before(other: Box) { max <= other.min }

    /** Range and box of the other lie in this. */
    predicate Contains(other: Box) {
      min <= other.min && other.max <= max && Encloses(other.low) && Encloses(other.high)
    }

    predicate Proper() { min < max && Encloses(low) && Encloses(high) }
  }

  /** Boxes around two near points intersect. */
  lemma NearBoxesIntersect(a: Box, b: Box, p: Point, q: Point, eps: real)
    requires a.Encloses(p) && b.Encloses(q) && Near(p, q, eps) && eps > 0.0
    ensures a.Intersects(b, eps)
  {
  }

  /** Points of two ranges that are nearer than eps, if the ranges are. */
  lemma NearInRanges(l1: real, h1: real, l2: real, h2: real, eps: real) returns (p: real, q: real)
    requires l1 <= h1 && l2 <= h2 && eps > 0.0 && l1 < h2 + eps && l2 < h1 + eps
    ensures l1 <= p <= h1 && l2 <= q <= h2 && -eps < p - q < eps
  {
    if h2 < l1 {
      p, q := l1, h2;
    } else if h1 < l2 {
      p, q := h1, l2;
    } else {
      p := if l1 < l2 then l2 else l1;
      q := p;
    }
  }

  lemma NearPoints(a: Box, b: Box, eps: real) returns (p: Point, q: Point)
    requires a.Encloses(a.low) && a.Encloses(a.high) && b.Encloses(b.low) && b.Encloses(b.high) && eps > 0.0
    requires a.Intersects(b, eps)
    ensures a.Encloses(p) && b.Encloses(q) && Near(p, q, eps)
  {
    var px, qx := NearInRanges(a.low.x, a.high.x, b.low.x, b.high.x, eps);
    var py, qy := NearInRanges(a.low.y, a.high.y, b.low.y, b.high.y, eps);
    var pz, qz := NearInRanges(a.low.z, a.high.z, b.low.z, b.high.z, eps);
    p, q := Point(px, py, pz), Point(qx, qy, qz);
  }

  /** The pruning test passes exactly if the boxes hold two near points. */
  lemma IntersectsIffNear(a: Box, b: Box, eps: real)
    requires a.Encloses(a.low) && a.Encloses(a.high) && b.Encloses(b.low) && b.Encloses(b.high) && eps > 0.0
    ensures a.Intersects(b, eps) <==> exists p, q :: a.Encloses(p) && b.Encloses(q) && Near(p, q, eps)
  {
    if a.Intersects(b, eps) {
      var p, q := NearPoints(a, b, eps);
    }
    if p, q :| a.Encloses(p) && b.Encloses(q) && Near(p, q, eps) {
      NearBoxesIntersect(a, b, p, q, eps);
    }
  }

  /** The boxes are at least d apart in one of the coordinates. */
  predicate FarApart(a: Box, b: Box, d: real) {
    || a.high.x + d <= b.low.x || b.high.x + d <= a.low.x
    || a.high.y + d <= b.low.y || b.high.y + d <= a.low.y
    || a.high.z + d <= b.low.z || b.high.z + d <= a.low.z
  }

  lemma FarApartIsPruned(a: Box, b: Box, eps: real)
    requires FarApart(a, b, eps)
    ensures !a.Intersects(b, eps)
  {
  }

  /** The hull of two boxes is the least one around both. */
  lemma MergedIsHull(a: Box, b: Box, e: Box)
    requires a.Encloses(a.low) && a.Encloses(a.high) && b.Encloses(b.low) && b.Encloses(b.high)
    ensures var m := a.Merged(b);
            e.Encloses(m.low) && e.Encloses(m.high)
            <==> e.Encloses(a.low) && e.Encloses(a.high) && e.Encloses(b.low) && e.Encloses(b.high)
  {
  }

  // ----- sorting a list of boxes and removing repeated ones -----

  predicate SortedByMin(s: seq<Box>) {
    forall i, j :: 0 <= i < j < |s| ==> s[i].min <= s[j].min
  }

  function Insert(b: Box, s: seq<Box>): (r: seq<Box>)
    requires SortedByMin(s)
    ensures SortedByMin(r)
    ensures forall x :: x in r <==> x == b || x in s
  {
    if s == [] || b.min <= s[0].min then [b] + s
    else
      var t := Insert(b, s[1..]);
      assert forall x :: x in t ==> s[0].min <= x.min;
      [s[0]] + t
  }

  /** The list in ascending order of the range starts; boxes with equal starts keep their order. */
  function Sort(s: seq<Box>): (r: seq<Box>)
    ensures SortedByMin(r)
    ensures forall x :: x in r <==> x in s
  {
    if s == [] then [] else Insert(s[0], Sort(s[1..]))
  }

  /** Drops every box with the range of the box it follows. */
  function Unique(s: seq<Box>): (r: seq<Box>)
    ensures s != [] ==> r != [] && r[0] == s[0]
    ensures forall x :: x in r ==> x in s
    decreases |s|
  {
    if |s| <= 1 then s
    else if s[0].SameRange(s[1]) then Unique([s[0]] + s[2..])
    else [s[0]] + Unique(s[1..])
  }

  /** Any two boxes of the list are the same or have ranges without common interior. */
  ghost predicate Separate(s: seq<Box>) {
    forall a, b :: a in s && b in s ==> a == b || a.Before(b) || b.Before(a)
  }

  ghost predicate AllProper(s: seq<Box>) {
    forall b :: b in s ==> b.Proper()
  }

  /** Consecutive ranges at most touch. */
  predicate Ascending(s: seq<Box>) {
    forall i, j :: 0 <= i < j < |s| ==> s[i].Before(s[j])
  }

  lemma HeadIsBefore(s: seq<Box>, x: Box)
    requires SortedByMin(s) && Separate(s) && AllProper(s)
    requires |s| > 1 && !s[0].SameRange(s[1]) && x in s[1..]
    ensures s[0].Before(x)
  {
    var k :| 0 < k < |s| && s[k] == x;
    assert s[0] in s && s[1] in s && x in s;
    assert s[0].min <= s[1].min <= s[k].min;
  }

  lemma BeforeAscending(x: Box, s: seq<Box>)
    requires Ascending(s) && forall y :: y in s ==> x.Before(y)
    ensures Ascending([x] + s)
  {
  }

  lemma SortedTail(s: seq<Box>)
    requires s != [] && SortedByMin(s) && Separate(s) && AllProper(s)
    ensures SortedByMin(s[1..]) && Separate(s[1..]) && AllProper(s[1..])
    ensures forall x :: x in s <==> x == s[0] || x in s[1..]
  {
    assert s == [s[0]] + s[1..];
  }

  lemma SameRangeIsSame(s: seq<Box>)
    requires |s| > 1 && Separate(s) && AllProper(s) && s[0].SameRange(s[1])
    ensures s[0] == s[1]
  {
    assert s[0] in s && s[1] in s;
  }

  lemma {:induction false} UniqueOfSorted(s: seq<Box>)
    requires SortedByMin(s) && Separate(s) && AllProper(s)
    ensures Ascending(Unique(s)) && forall x :: x in s ==> x in Unique(s)
    decreases |s|
  {
    hide SortedByMin, Separate, AllProper, Box.SameRange, Box.Before;
    if |s| > 1 {
      SortedTail(s);
      UniqueOfSorted(s[1..]);
      if s[0].SameRange(s[1]) {
        SameRangeIsSame(s);
        assert [s[0]] + s[2..] == s[1..];
      } else {
        forall x | x in s[1..]
          ensures s[0].Before(x)
        {
          HeadIsBefore(s, x);
        }
        BeforeAscending(s[0], Unique(s[1..]));
      }
    }
  }

  /** The box at index i has both ends of its range in common with the one before. */
  ghost predicate Repeats(s: seq<Box>, i: nat)
    requires 0 < i < |s|
  {
    s[i - 1].min == s[i].min && s[i - 1].max == s[i].max
  }

  /** Of any list, what is left has no repetition, and nothing is dropped from a list without one. */
  lemma {:induction false} UniqueDropsRepeats(s: seq<Box>)
    ensures forall i :: 0 < i < |Unique(s)| ==> !Repeats(Unique(s), i)
    ensures Unique(s) == s <==> forall i :: 0 < i < |s| ==> !Repeats(s, i)
    ensures |Unique(s)| <= |s|
    decreases |s|
  {
    if |s| > 1 {
      if s[0].SameRange(s[1]) {
        UniqueDropsRepeats([s[0]] + s[2..]);
        assert Repeats(s, 1);
      } else {
        UniqueDropsRepeats(s[1..]);
        ShiftRepeats(s);
        ShiftRepeats(Unique(s));
        assert Unique(s)[1..] == Unique(s[1..]);
        assert s == [s[0]] + s[1..];
      }
    }
  }

  lemma ShiftRepeats(s: seq<Box>)
    requires |s| > 1
    ensures (forall i :: 0 < i < |s| ==> !Repeats(s, i)) <==>
            !Repeats(s, 1) && forall i :: 0 < i < |s| - 1 ==> !Repeats(s[1..], i)
  {
    assert forall i :: 0 < i < |s| - 1 ==> (Repeats(s[1..], i) <==> Repeats(s, i + 1));
    if !Repeats(s, 1) && forall i :: 0 < i < |s| - 1 ==> !Repeats(s[1..], i) {
      forall i | 0 < i < |s|
        ensures !Repeats(s, i)
      {
        if i > 1 {
          assert !Repeats(s[1..], i - 1);
        }
      }
    }
    if forall i :: 0 < i < |s| ==> !Repeats(s, i) {
      forall i | 0 < i < |s| - 1
        ensures !Repeats(s[1..], i)
      {
        assert !Repeats(s, i + 1);
      }
    }
  }
}
