/** Integer geometry used by the counter: OpenCV-style rectangles and points,
    C++ truncating halving, and the fixed region of interest. */
module Geometry {

  /** A pixel position (cv::Point). */
  datatype Point = Point(x: int, y: int)

  /** An axis-aligned rectangle given by its top-left corner and its size (cv::Rect).
      Width and height are not required to be positive: nothing in the program clamps them. */
  datatype Rect = Rect(x: int, y: int, width: int, height: int)

  /** `n / 2` as C++ evaluates it on `int`: the quotient is truncated toward zero,
      so the remainder takes the sign of `n` (Dafny's own `/` would round -3/2 down to -2). */
  function TruncDiv2(n: int): (q: int)
    ensures n >= 0 ==> 0 <= n - 2 * q <= 1
    ensures n < 0 ==> -1 <= n - 2 * q <= 0
  {
    if n >= 0 then n / 2 else -((-n) / 2)
  }

  /** The centre of a box, computed with truncating halving of its width and height. */
  function Center(b: Rect): Point
  {
    Point(b.x + TruncDiv2(b.width), b.y + TruncDiv2(b.height))
  }

  /** OpenCV's `Rect::contains`: a half-open test, the left and top edges are inside,
      the right and bottom edges are not. */
  predicate Contains(r: Rect, p: Point)
  {
    r.x <= p.x < r.x + r.width && r.y <= p.y < r.y + r.height
  }

  /** The region of interest, fixed for the whole run. */
  const Roi: Rect := Rect(200, 100, 300, 300)

  /** The fixed region admits exactly the centres with 200 <= x < 500 and 100 <= y < 400. */
  lemma RoiBounds(p: Point)
    ensures Contains(Roi, p) <==> 200 <= p.x < 500 && 100 <= p.y < 400
  {
  }
}
