// Axis-aligned rectangles in screen coordinates. The Rect type itself lives in
// src/core/rect.rs, which is not part of this model; it is defined here with the
// operations the rest of the server uses: container, intersection, area,
// contains, is_empty and offset.
module Rects {
  import opened Helpers

  /** Position may be negative (windows can be dragged off screen); size never is. */
  datatype Rect = Rect(x: int, y: int, w: nat, h: nat)
  {
    function Left(): int { x }
    function Top(): int { y }
    function Right(): int { x + w }
    function Bottom(): int { y + h }
    function Area(): nat { w * h }
    predicate IsEmpty() { w == 0 || h == 0 }

    /** Point test, inclusive on all four edges. */
    predicate Contains(px: int, py: int) {
      Left() <= px <= Right() && Top() <= py <= Bottom()
    }

    function Offset(dx: int, dy: int): (r: Rect)
      ensures r.w == w && r.h == h && r.x == x + dx && r.y == y + dy
    {
      Rect(x + dx, y + dy, w, h)
    }
  }

  /** `inner` lies entirely inside `outer`. */
  predicate Within(inner: Rect, outer: Rect) {
    outer.Left() <= inner.Left() && inner.Right() <= outer.Right() &&
    outer.Top() <= inner.Top() && inner.Bottom() <= outer.Bottom()
  }

  /** The smallest rectangle holding both arguments. */
  function Container(a: Rect, b: Rect): (r: Rect)
    ensures Within(a, r) && Within(b, r)
    ensures forall c: Rect :: Within(a, c) && Within(b, c) ==> Within(r, c)
  {
    var left := Min(a.Left(), b.Left());
    var top := Min(a.Top(), b.Top());
    var right := Max(a.Right(), b.Right());
    var bottom := Max(a.Bottom(), b.Bottom());
    Rect(left, top, right - left, bottom - top)
  }

  /** The overlap of two rectangles, with size clamped at zero when they are apart. */
  function Intersection(a: Rect, b: Rect): (r: Rect)
    ensures r.x == Max(a.x, b.x) && r.y == Max(a.y, b.y)
    ensures r.w <= a.w && r.w <= b.w && r.h <= a.h && r.h <= b.h
    ensures !r.IsEmpty() ==> Within(r, a) && Within(r, b)
    ensures forall px, py :: a.Contains(px, py) && b.Contains(px, py) ==> r.Contains(px, py)
  {
    var left := Max(a.Left(), b.Left());
    var top := Max(a.Top(), b.Top());
    var right := Min(a.Right(), b.Right());
    var bottom := Min(a.Bottom(), b.Bottom());
    Rect(left, top, Max(0, right - left), Max(0, bottom - top))
  }

  /** The "no rectangle" value used for the hit zones of windows that cannot be resized. */
  const Nowhere: Rect := Rect(-1, -1, 0, 0)

  /** The sentinel contains no point of the visible (non-negative) screen. */
  lemma NowhereHitsNothing(px: int, py: int)
    requires px >= 0 || py >= 0
    ensures !Nowhere.Contains(px, py)
  {
  }
}
