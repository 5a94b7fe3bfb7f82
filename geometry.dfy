// Rectangle geometry of the exostra engine (include/exostra.h, struct Rect).
//
// Coordinates are 16-bit signed (Coord) and extents 16-bit unsigned (Extent).
// Rect is a value type in the source (it is copied everywhere), so its
// mutators inflate/deflate/mergeRect are modelled as functions that return
// the updated value: `r.inflate(px)` is `r := Inflate(r, px)`.
module Geometry {

  type Coord = x: int | -0x8000 <= x < 0x8000
  type Extent = x: int | 0 <= x < 0x1_0000

  /** Two's-complement truncation of an int to int16 (the source's implicit
      conversion of an `int` result back into a Coord field). */
  function Wrap16(x: int): (c: Coord)
    ensures -0x8000 <= x < 0x8000 ==> c == x
  {
    (x + 0x8000) % 0x1_0000 - 0x8000
  }

  /** Conversion to uint16 (`static_cast<Extent>`). */
  function ToExtent(x: int): (e: Extent)
    ensures 0 <= x < 0x1_0000 ==> e == x
  {
    x % 0x1_0000
  }

  datatype Point = Point(x: Coord, y: Coord)

  datatype Rect = Rect(left: Coord, top: Coord, right: Coord, bottom: Coord)

  /** `Rect()`: the default-constructed, all-zero rectangle. */
  const EmptyRect := Rect(0, 0, 0, 0)

  /** The explicit constructor `Rect(Coord l, Coord t, Extent r, Extent b)`:
      right and bottom pass through uint16 on their way into int16 fields. */
  function MakeRect(l: Coord, t: Coord, r: int, b: int): (rect: Rect)
    ensures rect.left == l && rect.top == t
    ensures -0x8000 <= r < 0x8000 ==> rect.right == r
    ensures -0x8000 <= b < 0x8000 ==> rect.bottom == b
  {
    Rect(l, t, Wrap16(ToExtent(r)), Wrap16(ToExtent(b)))
  }

  /** right >= left and bottom >= top: what width()/height() assert. */
  predicate WellFormed(r: Rect) {
    r.left <= r.right && r.top <= r.bottom
  }

  /** width(): `static_cast<Extent>(right - left)`. The assertion right >= left
      is a diagnostic; without it the cast is taken modulo 2^16. */
  function Width(r: Rect): (w: Extent)
    ensures WellFormed(r) ==> w == r.right - r.left
  {
    ToExtent(r.right - r.left)
  }

  function Height(r: Rect): (h: Extent)
    ensures WellFormed(r) ==> h == r.bottom - r.top
  {
    ToExtent(r.bottom - r.top)
  }

  predicate IsEmpty(r: Rect) {
    Width(r) == 0 || Height(r) == 0
  }

  function Min(a: Coord, b: Coord): Coord { if a <= b then a else b }
  function Max(a: Coord, b: Coord): Coord { if a >= b then a else b }

  /** pointWithin: inclusive on all four edges. */
  predicate PointWithin(r: Rect, x: int, y: int) {
    x >= r.left && x <= r.right && y >= r.top && y <= r.bottom
  }

  /** overlapsRect: a directional corner/edge test (not symmetric). */
  predicate OverlapsRect(r: Rect, other: Rect) {
    (((r.top >= other.top && r.top <= other.bottom) ||
      (r.bottom <= other.bottom && r.bottom >= other.top)) &&
     ((r.left <= other.left && r.right >= other.left) ||
      (r.right >= other.right && r.left <= other.right)))
    ||
    (((r.left >= other.left && r.left <= other.right) ||
      (r.right <= other.right && r.right >= other.left)) &&
     ((r.top <= other.top && r.bottom >= other.top) ||
      (r.bottom >= other.bottom && r.top <= other.bottom)))
    ||
    (r.left <= other.left && r.top <= other.top &&
     r.right >= other.right && r.bottom >= other.bottom)
    ||
    (r.left >= other.left && r.top >= other.top &&
     r.right <= other.right && r.bottom <= other.bottom)
  }

  /** intersectsRect: overlapsRect made symmetric. */
  predicate IntersectsRect(r: Rect, other: Rect) {
    OverlapsRect(r, other) || OverlapsRect(other, r)
  }

  /** The two closed boxes share at least one point. */
  predicate BoxesMeet(a: Rect, b: Rect) {
    a.left <= b.right && b.left <= a.right && a.top <= b.bottom && b.top <= a.bottom
  }

  /** Box containment: every edge of `inner` lies inside `outer`. */
  predicate BoxWithin(inner: Rect, outer: Rect) {
    outer.left <= inner.left && inner.right <= outer.right &&
    outer.top <= inner.top && inner.bottom <= outer.bottom
  }

  /** Pixel membership: what a transfer of `r` writes (rows top..bottom-1,
      width() pixels from left). */
  predicate Covers(r: Rect, x: int, y: int) {
    r.left <= x < r.right && r.top <= y < r.bottom
  }

  function GetIntersection(r: Rect, other: Rect): (i: Rect)
    ensures !IntersectsRect(r, other) ==> i == EmptyRect
  {
    if IntersectsRect(r, other) then
      Rect(Max(r.left, other.left), Max(r.top, other.top),
           Min(r.right, other.right), Min(r.bottom, other.bottom))
    else
      EmptyRect
  }

  /** mergeRect: `r` grown to the bounding union of `r` and `other`. */
  function MergeRect(r: Rect, other: Rect): (m: Rect)
    ensures BoxWithin(r, m) && BoxWithin(other, m)
    ensures forall b: Rect :: BoxWithin(r, b) && BoxWithin(other, b) ==> BoxWithin(m, b)
  {
    Rect(Min(r.left, other.left), Min(r.top, other.top),
         Max(r.right, other.right), Max(r.bottom, other.bottom))
  }

  /** outsideRect: no corner of `r` lies inside `other`. */
  predicate OutsideRect(r: Rect, other: Rect) {
    !PointWithin(other, r.left, r.top) &&
    !PointWithin(other, r.right, r.top) &&
    !PointWithin(other, r.left, r.bottom) &&
    !PointWithin(other, r.right, r.bottom)
  }

  /** withinRect: every corner of `r` lies inside `other`. */
  predicate WithinRect(r: Rect, other: Rect) {
    PointWithin(other, r.left, r.top) &&
    PointWithin(other, r.right, r.top) &&
    PointWithin(other, r.left, r.bottom) &&
    PointWithin(other, r.right, r.bottom)
  }

  /** inflate: every edge moves out by px, wrapping in int16. */
  function Inflate(r: Rect, px: Extent): Rect {
    Rect(Wrap16(r.left - px), Wrap16(r.top - px), Wrap16(r.right + px), Wrap16(r.bottom + px))
  }

  /** deflate: every edge moves in by px, wrapping in int16. The source asserts
      px < width() and px < height(); see DeflateGuardAdmitsInversion. */
  function Deflate(r: Rect, px: Extent): Rect {
    Rect(Wrap16(r.left + px), Wrap16(r.top + px), Wrap16(r.right - px), Wrap16(r.bottom - px))
  }

  /** subtractRect: the parts of `r` not covered by `other`, as up to four
      strips, in the order the source emits them. The result is empty when the
      two rectangles do not intersect (see SubtractDropsDisjoint). */
  function SubtractRect(r: Rect, other: Rect): (rects: seq<Rect>)
    ensures |rects| <= 4
    ensures !IntersectsRect(r, other) ==> rects == []
  {
    if !IntersectsRect(r, other) then []
    else
      var merged := MergeRect(r, other);
      var alignedLeft := merged.left >= other.left;
      var alignedTop := merged.top >= other.top;
      var alignedRight := merged.right <= other.right;
      var alignedBottom := merged.bottom <= other.bottom;
      if alignedLeft && alignedTop && alignedRight && alignedBottom then []
      else
        var topNoAlignTop := Max(merged.top, r.top);
        var topNoAlignBottom := Min(merged.bottom, other.bottom);
        var bottomNoAlignTop := Min(merged.bottom, other.top);
        var bottomNoAlignBottom := Min(merged.bottom, r.bottom);
        var leftNoAlignRight := Min(merged.right, other.right);
        var leftNoAlignLeft := Max(merged.left, r.left);
        var rightNoAlignRight := Min(merged.right, r.right);
        var rightNoAlignLeft := Max(merged.left, other.left);
        var rightStrip := Rect(leftNoAlignRight, Max(merged.top, r.top),
                               rightNoAlignRight, Min(merged.bottom, r.bottom));
        var leftStrip := Rect(leftNoAlignLeft, Max(merged.top, r.top),
                              rightNoAlignLeft, Min(merged.bottom, r.bottom));
        var topStrip := Rect(Max(merged.left, r.left), topNoAlignTop,
                             Min(merged.right, r.right), bottomNoAlignTop);
        var bottomStrip := Rect(Max(merged.left, r.left), topNoAlignBottom,
                                Min(merged.right, r.right), bottomNoAlignBottom);
        var horizontal :=
          if alignedLeft || alignedRight then
            (if alignedLeft && !alignedRight then [rightStrip] else []) +
            (if alignedRight && !alignedLeft then [leftStrip] else []) +
            (if !alignedTop && !alignedBottom then [topStrip, bottomStrip] else [])
          else [];
        var vertical :=
          if alignedTop || alignedBottom then
            (if alignedTop && !alignedBottom then [bottomStrip] else []) +
            (if alignedBottom && !alignedTop then [topStrip] else []) +
            (if !alignedLeft && !alignedRight then [rightStrip, leftStrip] else [])
          else [];
        var ring :=
          if !alignedLeft && !alignedTop && !alignedRight && !alignedBottom then
            var e1 := Rect(Min(other.left, r.left), Min(other.top, r.top),
                           Max(other.left, r.left), Max(other.bottom, r.bottom));
            var e2 := e1.(right := Max(other.right, r.right), bottom := Max(other.top, r.top));
            var e3 := e2.(left := Min(other.right, r.right), top := Min(other.top, r.top),
                          bottom := Max(other.bottom, r.bottom));
            var e4 := e3.(left := Min(other.left, r.left), top := Min(other.bottom, r.bottom));
            [e1, e2, e3, e4]
          else [];
        horizontal + vertical + ring
  }
}
