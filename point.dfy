/**
  A point of the plane (src/Point.ts). The user payload `data` carries no
  behaviour in the index and is left out: a point is its two coordinates.
 */
module Points {

  datatype Point = Point(x: real, y: real)

  /** The equality that removal uses: both coordinates match exactly. */
  predicate SameCoordinates(a: Point, b: Point) {
    a.x == b.x && a.y == b.y
  }
}
