/** Integer rectangles as pygame's Rect treats them: a size may be negative, in which case
    the rectangle extends to the left of (or above) its corner. */
module Rects {
  import opened Basics

  datatype Pixel = Pixel(x: int, y: int)

  datatype Rect = Rect(x: int, y: int, w: int, h: int)

  /** p is one of the unit pixels of r. */
  predicate Inside(p: Pixel, r: Rect) {
    && Min(r.x, r.x + r.w) <= p.x < Max(r.x, r.x + r.w)
    && Min(r.y, r.y + r.h) <= p.y < Max(r.y, r.y + r.h)
  }

  /** Rect.colliderect: false as soon as one of the four sizes is zero. */
  predicate Collide(a: Rect, b: Rect) {
    && a.w != 0 && a.h != 0 && b.w != 0 && b.h != 0
    && Min(a.x, a.x + a.w) < Max(b.x, b.x + b.w)
    && Min(a.y, a.y + a.h) < Max(b.y, b.y + b.h)
    && Min(b.x, b.x + b.w) < Max(a.x, a.x + a.w)
    && Min(b.y, b.y + b.h) < Max(a.y, a.y + a.h)
  }

  /** The top-left pixel of the common area. */
  function CommonPixel(a: Rect, b: Rect): (p: Pixel)
    requires Collide(a, b)
    ensures Inside(p, a) && Inside(p, b)
  {
    Pixel(Max(Min(a.x, a.x + a.w), Min(b.x, b.x + b.w)), Max(Min(a.y, a.y + a.h), Min(b.y, b.y + b.h)))
  }

  /** Colliding is sharing a pixel; in particular an empty rectangle collides with nothing. */
  lemma CollideIsSharingAPixel(a: Rect, b: Rect)
    ensures Collide(a, b) <==> exists p :: Inside(p, a) && Inside(p, b)
  {
    if Collide(a, b) {
      assert Inside(CommonPixel(a, b), a);
    }
  }
}
