/**
  The query ranges a quadtree accepts (the Shape interface of src/types.ts):
  anything that can test a point for containment and a box for intersection.
  The two ranges the library ships, boxes and circles, are its two variants.
 */
module Shapes {
  import opened Points
  import opened Boxes
  import opened Circles

  datatype Shape = BoxRange(box: Box) | CircleRange(circle: Circle) {

    predicate Contains(p: Point) {
      match this
      case BoxRange(b) => b.Contains(p)
      case CircleRange(c) => c.Contains(p)
    }

    predicate Intersects(range: Box) {
      match this
      case BoxRange(b) => b.Intersects(range)
      case CircleRange(c) => c.Intersects(range)
    }
  }

  /**
    A range that contains a point of a box intersects that box. Pruning the
    subtrees whose container the range does not intersect therefore never
    loses a point the range contains.
   */
  lemma PruningIsSafe(s: Shape, b: Box, p: Point)
    requires s.Contains(p) && b.Contains(p)
    ensures s.Intersects(b)
  {
    match s
    case BoxRange(q) => Boxes.SharedPointIntersects(q, b, p);
    case CircleRange(c) => Circles.SharedPointIntersects(c, b, p);
  }

  /** For a container of non-negative size, intersecting is exactly sharing a point. */
  lemma IntersectsIffSharedPoint(s: Shape, b: Box)
    requires b.Proper() && (s.BoxRange? ==> s.box.Proper())
    ensures s.Intersects(b) <==> exists p :: s.Contains(p) && b.Contains(p)
  {
    match s
    case BoxRange(q) =>
      Boxes.IntersectsIffSharedPoint(q, b);
      assert q.Intersects(b) <==> exists p :: q.Contains(p) && b.Contains(p);
      assert (exists p :: q.Contains(p) && b.Contains(p)) <==> exists p :: s.Contains(p) && b.Contains(p);
    case CircleRange(c) =>
      Circles.IntersectsIffSharedPoint(c, b);
      assert (exists p :: c.Contains(p) && b.Contains(p)) <==> exists p :: s.Contains(p) && b.Contains(p);
  }
}
