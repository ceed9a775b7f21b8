/** The crop rectangle that the release handler derives from the pointer
    position at press time and at release time. */
module CropGeometry {
  import opened Imaging

  /** A pointer position on the canvas, as reported with a mouse event. */
  datatype Point = Point(x: int, y: int)

  /** The box passed to the imaging library: per axis the smaller coordinate
      becomes the left/top edge and the larger the right/bottom edge, so the
      drag may go in any direction. The result is the smallest box holding
      both points: it contains them, and each edge lies on one of them. */
  function CropBox(press: Point, release: Point): (box: Box)
    ensures box.left <= box.right && box.top <= box.bottom
    ensures box.left <= press.x <= box.right && box.left <= release.x <= box.right
    ensures box.top <= press.y <= box.bottom && box.top <= release.y <= box.bottom
    ensures (box.left == press.x || box.left == release.x) && (box.right == press.x || box.right == release.x)
    ensures (box.top == press.y || box.top == release.y) && (box.bottom == press.y || box.bottom == release.y)
  {
    Box(Min(press.x, release.x), Min(press.y, release.y),
        Max(press.x, release.x), Max(press.y, release.y))
  }

  function Min(a: int, b: int): int { if a <= b then a else b }

  function Max(a: int, b: int): int { if a <= b then b else a }

  /** Which of the two points was the press and which the release does not
      matter: the box is the same. */
  lemma CropBoxSymmetric(p: Point, q: Point)
    ensures CropBox(p, q) == CropBox(q, p)
  {
  }

  /** A drag from (50, 50) back up to (10, 10) selects the same box as the
      drag from (10, 10) down to (50, 50). */
  lemma CropBoxReversedCorners()
    ensures CropBox(Point(50, 50), Point(10, 10)) == Box(10, 10, 50, 50)
    ensures CropBox(Point(10, 10), Point(50, 50)) == Box(10, 10, 50, 50)
  {
  }
}
