/**
  Circles used as query ranges (src/Circle.ts). The squared radius `rPow2` is
  computed once when the circle is made, so that no test takes a square root.
 */
module Circles {
  import opened Points
  import opened Boxes

  datatype Circle = Circle(x: real, y: real, r: real, rPow2: real) {

    /** Whether `p` is no farther from the centre than the radius. */
    predicate Contains(p: Point) {
      EuclideanDistancePow2(p, Point(x, y)) <= rPow2
    }

    /**
      Whether `range` comes within the radius of the centre: the centre is
      clamped into the box, and the squared distance to that nearest point of
      the box is compared with `rPow2`.
     */
    predicate Intersects(range: Box) {
      var dX := x - Larger(range.x, Smaller(x, range.x + range.w));
      var dY := y - Larger(range.y, Smaller(y, range.y + range.h));
      dX * dX + dY * dY <= rPow2
    }

    /** The circle caches the square of its own radius. */
    predicate Cached() {
      rPow2 == r * r
    }
  }

  function Larger(a: real, b: real): real { if a >= b then a else b }
  function Smaller(a: real, b: real): real { if a <= b then a else b }

  function Sq(a: real): real { a * a }

  /** The squared distance between two points (Math.pow(_, 2) written as a product). */
  function EuclideanDistancePow2(p1: Point, p2: Point): (d: real)
    ensures d >= 0.0
  {
    SquareNonNegative(p1.x - p2.x);
    SquareNonNegative(p1.y - p2.y);
    Sq(p1.x - p2.x) + Sq(p1.y - p2.y)
  }

  lemma SquareNonNegative(a: real)
    ensures a * a >= 0.0
    ensures a != 0.0 ==> a * a > 0.0
  {
    if a < 0.0 {
      var b := -a;
      assert a * a == b * b;
      ProductOfPositives(b, b);
    } else if a > 0.0 {
      ProductOfPositives(a, a);
    }
  }

  lemma ProductOfPositives(a: real, b: real)
    requires a > 0.0 && b > 0.0
    ensures a * b > 0.0
  {
  }

  /** Squaring is monotone on magnitudes. */
  lemma SquareMonotone(a: real, b: real)
    requires 0.0 <= a <= b
    ensures Sq(a) <= Sq(b)
  {
    MulLeftMonotone(a, a, b);
    MulLeftMonotone(b, a, b);
    assert a * b == b * a;
  }

  /**
    The circle made from centre (x, y) and radius r (the constructor of the
    source): it keeps the three values and contains exactly the points whose
    squared distance to the centre is at most r * r.
   */
  function NewCircle(x: real, y: real, r: real): (c: Circle)
    ensures c.x == x && c.y == y && c.r == r && c.Cached()
    ensures forall p :: c.Contains(p) <==> Sq(p.x - x) + Sq(p.y - y) <= r * r
  {
    Circle(x, y, r, r * r)
  }

  /** The points on the circumference are contained; a positive step outwards along an axis leaves the circle. */
  lemma ContainsIsInclusive(c: Circle, d: real)
    requires c.Cached() && c.r >= 0.0 && d > 0.0
    ensures c.Contains(Point(c.x + c.r, c.y)) && c.Contains(Point(c.x - c.r, c.y))
    ensures c.Contains(Point(c.x, c.y + c.r)) && c.Contains(Point(c.x, c.y - c.r))
    ensures !c.Contains(Point(c.x + c.r + d, c.y)) && !c.Contains(Point(c.x - c.r - d, c.y))
    ensures !c.Contains(Point(c.x, c.y + c.r + d)) && !c.Contains(Point(c.x, c.y - c.r - d))
  {
    var far := c.r + d;
    SquareStrictlyMonotone(c.r, far);
    assert Sq(c.x + c.r - c.x) == Sq(c.r) && Sq(c.y - c.r - c.y) == Sq(-c.r);
    assert Sq(c.x - c.r - c.x) == Sq(-c.r) && Sq(c.y + c.r - c.y) == Sq(c.r);
    SqSymmetric(0.0, c.r);
    assert Sq(c.x + far - c.x) == Sq(far) && Sq(c.y - far - c.y) == Sq(-far);
    assert Sq(c.x - far - c.x) == Sq(-far) && Sq(c.y + far - c.y) == Sq(far);
    SqSymmetric(0.0, far);
  }

  lemma SquareStrictlyMonotone(a: real, b: real)
    requires 0.0 <= a < b
    ensures Sq(a) < Sq(b)
  {
    calc {
      Sq(a);
      a * a;
    <= { MulLeftMonotone(a, a, b); }
      a * b;
    < { MulRightStrict(a, b, b); }
      b * b;
      Sq(b);
    }
  }

  lemma MulLeftMonotone(k: real, x: real, y: real)
    requires k >= 0.0 && x <= y
    ensures k * x <= k * y
  {
  }

  lemma MulRightStrict(x: real, y: real, k: real)
    requires k > 0.0 && x < y
    ensures x * k < y * k
  {
  }

  /**
    One coordinate of the clamped centre is no farther from the centre than
    the same coordinate of any point of the interval [lo, hi].
   */
  lemma ClampIsNearest(c: real, lo: real, hi: real, q: real)
    requires lo <= q <= hi
    ensures Sq(c - Larger(lo, Smaller(c, hi))) <= Sq(c - q)
  {
    var k := Larger(lo, Smaller(c, hi));
    if c <= lo {
      assert k == lo;
      SquareMonotone(k - c, q - c);
      assert Sq(c - k) == (k - c) * (k - c);
      assert Sq(c - q) == (q - c) * (q - c);
    } else if c >= hi {
      assert k == hi;
      SquareMonotone(c - k, c - q);
    } else {
      assert k == c;
      SquareNonNegative(c - q);
    }
  }

  /**
    A circle that contains some point of a box intersects that box: the
    completeness fact for circle queries.
   */
  lemma SharedPointIntersects(c: Circle, b: Box, p: Point)
    requires c.Contains(p) && b.Contains(p)
    ensures c.Intersects(b)
  {
    var kx := Larger(b.x, Smaller(c.x, b.x + b.w));
    var ky := Larger(b.y, Smaller(c.y, b.y + b.h));
    ClampIsNearest(c.x, b.x, b.x + b.w, p.x);
    ClampIsNearest(c.y, b.y, b.y + b.h, p.y);
    SqSymmetric(p.x, c.x);
    SqSymmetric(p.y, c.y);
    assert c.Intersects(b) == (Sq(c.x - kx) + Sq(c.y - ky) <= c.rPow2);
  }

  lemma SqSymmetric(a: real, b: real)
    ensures Sq(a - b) == Sq(b - a)
  {
    assert (a - b) * (a - b) == (b - a) * (b - a);
  }

  /**
    For a box of non-negative size, the clamp test holds exactly when the
    circle and the box share a point (the clamped centre is one).
   */
  lemma IntersectsIffSharedPoint(c: Circle, b: Box)
    requires b.Proper()
    ensures c.Intersects(b) <==> exists p :: c.Contains(p) && b.Contains(p)
  {
    if c.Intersects(b) {
      var p := Point(Larger(b.x, Smaller(c.x, b.x + b.w)), Larger(b.y, Smaller(c.y, b.y + b.h)));
      assert b.Contains(p);
      assert (p.x - c.x) * (p.x - c.x) == (c.x - p.x) * (c.x - p.x);
      assert (p.y - c.y) * (p.y - c.y) == (c.y - p.y) * (c.y - p.y);
      assert c.Contains(p);
    } else {
      forall p | b.Contains(p) ensures !c.Contains(p) {
        if c.Contains(p) {
          SharedPointIntersects(c, b, p);
        }
      }
    }
  }

  /** A box holding the centre always intersects a circle of non-negative radius. */
  lemma CentreInBoxIntersects(c: Circle, b: Box)
    requires c.Cached() && b.Contains(Point(c.x, c.y))
    ensures c.Intersects(b)
  {
    SquareNonNegative(c.r);
  }

  /**
    The circle of centre (100, 50) and radius 25 intersects the box it
    encapsulates, misses a box inside its bounding square but beyond the
    radius, and touches a box at distance exactly 25.
   */
  lemma IntersectsExamples()
    ensures NewCircle(100.0, 50.0, 25.0).Intersects(Box(100.0, 50.0, 12.0, 10.0))
    ensures !NewCircle(100.0, 50.0, 25.0).Intersects(Box(124.0, 74.0, 1.0, 1.0))
    ensures NewCircle(100.0, 50.0, 25.0).Intersects(Box(100.0, 75.0, 1.0, 1.0))
  {
  }
}
