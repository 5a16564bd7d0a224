/**
 Integer plane geometry used by the game: points and axis-aligned rectangles,
 in the shape of Go's `image.Point` and `image.Rectangle`.
 */
module Geometry {

  /** A point with integer coordinates; y grows downwards, as on screen. */
  datatype Point = Point(x: int, y: int)

  /** A rectangle given by its two corners; `min` is inclusive, `max` exclusive. */
  datatype Rectangle = Rectangle(min: Point, max: Point) {

    /** The width (Go's `Rectangle.Dx`); negative only for an unordered rectangle. */
    function Dx(): int {
      max.x - min.x
    }

    /** The height (Go's `Rectangle.Dy`). */
    function Dy(): int {
      max.y - min.y
    }

    /** Both corners are ordered, as every rectangle built by `Rect` is. */
    predicate Canonical() {
      min.x <= max.x && min.y <= max.y
    }
  }

  function Abs(n: int): (r: nat)
    ensures r == n || r == -n
  {
    if n < 0 then -n else n
  }

  /** Go's `image.Rect`: the rectangle with corners (x0, y0) and (x1, y1),
      swapping coordinates so that `min` is never beyond `max`. */
  function Rect(x0: int, y0: int, x1: int, y1: int): (r: Rectangle)
    ensures r.Canonical()
    ensures (r.min.x == x0 && r.max.x == x1) || (r.min.x == x1 && r.max.x == x0)
    ensures (r.min.y == y0 && r.max.y == y1) || (r.min.y == y1 && r.max.y == y0)
  {
    var (lx, hx) := if x0 > x1 then (x1, x0) else (x0, x1);
    var (ly, hy) := if y0 > y1 then (y1, y0) else (y0, y1);
    Rectangle(Point(lx, ly), Point(hx, hy))
  }
}
