/** Points of space. */
module Geometry {
  datatype Point = Point(x: real, y: real, z: real)

  function SquareDistance(p: Point, q: Point): real {
    (p.x - q.x) * (p.x - q.x) + (p.y - q.y) * (p.y - q.y) + (p.z - q.z) * (p.z - q.z)
  }

  function Midpoint(p: Point, q: Point): Point {
    Point((p.x + q.x) / 2.0, (p.y + q.y) / 2.0, (p.z + q.z) / 2.0)
  }

  function Square(d: real): real {
    d * d
  }

  function Area(x: real, y: real): (r: real)
    ensures x >= 0.0 && y >= 0.0 ==> r >= 0.0
    ensures x > 0.0 && y > 0.0 ==> r > 0.0
  {
    x * y
  }

  lemma SquareDifference(a: real, b: real)
    ensures Square(b) == Square(a) + Area(b - a, b + a)
  {
  }

  lemma SquareGrows(a: real, b: real)
    requires 0.0 <= a <= b
    ensures Square(a) <= Square(b)
    ensures a < b ==> Square(a) < Square(b)
  {
    hide *;
    SquareDifference(a, b);
    var p := Area(b - a, b + a);
  }

  function Moved(p: Point, d: Point): Point {
    Point(p.x + d.x, p.y + d.y, p.z + d.z)
  }

  /** Distances obey Pythagoras, stay the same when both points move, and along an axis they are the difference. */
  lemma DistanceLaws(p: Point, q: Point, d: Point)
    ensures SquareDistance(p, q) == SquareDistance(p, Point(q.x, p.y, p.z))
                + SquareDistance(Point(q.x, p.y, p.z), Point(q.x, q.y, p.z)) + SquareDistance(Point(q.x, q.y, p.z), q)
    ensures SquareDistance(Moved(p, d), Moved(q, d)) == SquareDistance(p, q) == SquareDistance(q, p)
    ensures SquareDistance(p, Moved(p, Point(d.x, 0.0, 0.0))) == d.x * d.x
    ensures SquareDistance(p, Moved(p, Point(0.0, d.y, 0.0))) == d.y * d.y
    ensures SquareDistance(p, Moved(p, Point(0.0, 0.0, d.z))) == d.z * d.z
  {
    SquareOfOpposite(p.x, q.x);
    SquareOfOpposite(p.y, q.y);
    SquareOfOpposite(p.z, q.z);
  }

  lemma SquareOfOpposite(a: real, b: real)
    ensures (a - b) * (a - b) == (b - a) * (b - a)
  {
  }

  /** The midpoint is where the ways to both points are opposite and equal. */
  lemma MidpointIsHalfway(p: Point, q: Point, d: Point)
    ensures Moved(p, d) == Midpoint(p, q) <==> Moved(Midpoint(p, q), d) == q
  {
  }
}
