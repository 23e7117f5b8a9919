/**
  Axis-aligned rectangles (src/Box.ts). A box stands for the closed rectangle
  with corners (x, y) and (x + w, y + h); both tests are inclusive on the edges.
 */
module Boxes {
  import opened Points

  datatype Box = Box(x: real, y: real, w: real, h: real) {

    /** Whether `p` lies in the box, edges included. */
    predicate Contains(p: Point) {
      p.x >= x && p.x <= x + w && p.y >= y && p.y <= y + h
    }

    /** Whether `range` and this box are not strictly separated along either axis. */
    predicate Intersects(range: Box) {
      !(range.x > x + w || range.x + range.w < x || range.y > y + h || range.y + range.h < y)
    }

    /** A box whose width and height are not negative: the only kind that contains anything. */
    predicate Proper() {
      w >= 0.0 && h >= 0.0
    }
  }

  /** A box that contains some point has a non-negative width and height. */
  lemma ContainsOnlyInProper(b: Box, p: Point)
    requires b.Contains(p)
    ensures b.Proper()
  {
  }

  /** All four edges belong to the box; anything a positive distance beyond one does not. */
  lemma ContainsIsInclusive(b: Box, d: real)
    requires b.Proper() && d > 0.0
    ensures b.Contains(Point(b.x, b.y)) && b.Contains(Point(b.x + b.w, b.y))
    ensures b.Contains(Point(b.x, b.y + b.h)) && b.Contains(Point(b.x + b.w, b.y + b.h))
    ensures !b.Contains(Point(b.x - d, b.y)) && !b.Contains(Point(b.x + b.w + d, b.y))
    ensures !b.Contains(Point(b.x, b.y - d)) && !b.Contains(Point(b.x, b.y + b.h + d))
  {
  }

  /** The separation test treats both boxes alike. */
  lemma IntersectsIsSymmetric(a: Box, b: Box)
    ensures a.Intersects(b) == b.Intersects(a)
  {
  }

  /** Two boxes that share a point intersect: the fact that makes pruning by box safe. */
  lemma SharedPointIntersects(a: Box, b: Box, p: Point)
    requires a.Contains(p) && b.Contains(p)
    ensures a.Intersects(b)
  {
  }

  /**
    For proper boxes, intersecting means sharing a point; the point with the
    larger of the two left edges and the larger of the two top edges is shared.
   */
  lemma IntersectsIffSharedPoint(a: Box, b: Box)
    requires a.Proper() && b.Proper()
    ensures a.Intersects(b) <==> exists p :: a.Contains(p) && b.Contains(p)
  {
    if a.Intersects(b) {
      var p := Point(if a.x >= b.x then a.x else b.x, if a.y >= b.y then a.y else b.y);
      assert a.Contains(p) && b.Contains(p);
    }
  }

  /** The four half-size quadrants a divided node gives its children, in source order. */
  function NeQuadrant(b: Box): Box { Box(b.x + b.w / 2.0, b.y, b.w / 2.0, b.h / 2.0) }
  function NwQuadrant(b: Box): Box { Box(b.x, b.y, b.w / 2.0, b.h / 2.0) }
  function SeQuadrant(b: Box): Box { Box(b.x + b.w / 2.0, b.y + b.h / 2.0, b.w / 2.0, b.h / 2.0) }
  function SwQuadrant(b: Box): Box { Box(b.x, b.y + b.h / 2.0, b.w / 2.0, b.h / 2.0) }

  /**
    A point lies in a box exactly when it lies in one of its four quadrants:
    the quadrants cover the box and never reach outside it.
   */
  lemma QuadrantsCoverBox(b: Box, p: Point)
    ensures b.Contains(p) <==>
      NeQuadrant(b).Contains(p) || NwQuadrant(b).Contains(p) ||
      SeQuadrant(b).Contains(p) || SwQuadrant(b).Contains(p)
  {
  }

  /** Each quadrant lies inside the box it was cut from. */
  lemma QuadrantsInsideBox(b: Box, p: Point)
    ensures NeQuadrant(b).Contains(p) ==> b.Contains(p)
    ensures NwQuadrant(b).Contains(p) ==> b.Contains(p)
    ensures SeQuadrant(b).Contains(p) ==> b.Contains(p)
    ensures SwQuadrant(b).Contains(p) ==> b.Contains(p)
  {
  }
}
