/** SkIRect: half-open integer rectangles, and the clipping of a read request against the surface. */
module Rects {

  /** The pixels (x, y) with left <= x < right and top <= y < bottom. */
  datatype Rect = Rect(left: int, top: int, right: int, bottom: int)

  const EmptyRect := Rect(0, 0, 0, 0)

  function MakeWH(w: int, h: int): Rect
  {
    Rect(0, 0, w, h)
  }

  function MakeXYWH(x: int, y: int, w: int, h: int): Rect
  {
    Rect(x, y, x + w, y + h)
  }

  function Width(r: Rect): int { r.right - r.left }
  function Height(r: Rect): int { r.bottom - r.top }

  predicate IsEmpty(r: Rect)
  {
    r.left >= r.right || r.top >= r.bottom
  }

  /** SkIRect::contains(x, y). */
  predicate Contains(r: Rect, x: int, y: int)
  {
    r.left <= x < r.right && r.top <= y < r.bottom
  }

  function Max(a: int, b: int): int { if a < b then b else a }
  function Min(a: int, b: int): int { if a < b then a else b }

  /** SkIRect::Intersects: the overlap is non-empty on both axes. */
  predicate Intersects(a: Rect, b: Rect)
  {
    Max(a.left, b.left) < Min(a.right, b.right) && Max(a.top, b.top) < Min(a.bottom, b.bottom)
  }

  /** `clipped = bounds; if (!clipped.intersect(request)) clipped.setEmpty();` */
  function Clip(bounds: Rect, request: Rect): (r: Rect)
    ensures forall x, y :: Contains(r, x, y) <==> Contains(bounds, x, y) && Contains(request, x, y)
    ensures IsEmpty(r) <==> !Intersects(bounds, request)
  {
    if Intersects(bounds, request) then
      Rect(Max(bounds.left, request.left), Max(bounds.top, request.top),
           Min(bounds.right, request.right), Min(bounds.bottom, request.bottom))
    else
      EmptyRect
  }

  /** The rectangle moved by (dx, dy). */
  function Offset(r: Rect, dx: int, dy: int): (o: Rect)
    ensures forall x, y :: Contains(o, x, y) <==> Contains(r, x - dx, y - dy)
  {
    Rect(r.left + dx, r.top + dy, r.right + dx, r.bottom + dy)
  }

  /** Two rectangles intersect exactly when some pixel lies in both. */
  lemma IntersectsIffCommonPixel(a: Rect, b: Rect)
    ensures Intersects(a, b) <==> exists x, y :: Contains(a, x, y) && Contains(b, x, y)
  {
    if Intersects(a, b) {
      var x, y := Max(a.left, b.left), Max(a.top, b.top);
      assert Contains(a, x, y) && Contains(b, x, y);
    }
  }

  /** Rectangles that only touch along an edge or at a corner do not intersect. */
  lemma TouchingIsNoOverlap(a: Rect, b: Rect)
    requires a.right == b.left || a.bottom == b.top || b.right == a.left || b.bottom == a.top
    ensures !Intersects(a, b)
    ensures IsEmpty(Clip(a, b))
  {
  }
}
