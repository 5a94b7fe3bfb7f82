// Properties of the exostra rectangle operations (module Geometry).
module GeometryFacts {
  import opened Geometry

  /** For well-formed rectangles, intersectsRect is exactly "the two closed
      boxes share a point": the directional overlapsRect tests together miss
      no configuration (in particular the cross-shaped one). */
  lemma IntersectsIffBoxesMeet(a: Rect, b: Rect)
    requires WellFormed(a) && WellFormed(b)
    ensures IntersectsRect(a, b) <==> BoxesMeet(a, b)
  {
  }

  lemma IntersectsSymmetric(a: Rect, b: Rect)
    ensures IntersectsRect(a, b) <==> IntersectsRect(b, a)
  {
  }

  /** getIntersection of intersecting rectangles is a well-formed rectangle
      inside both, and it covers exactly the pixels the two have in common. */
  lemma IntersectionExact(a: Rect, b: Rect, x: int, y: int)
    requires WellFormed(a) && WellFormed(b) && IntersectsRect(a, b)
    ensures var i := GetIntersection(a, b);
      WellFormed(i) && BoxWithin(i, a) && BoxWithin(i, b) &&
      (Covers(i, x, y) <==> Covers(a, x, y) && Covers(b, x, y))
  {
  }

  /** withinRect agrees with box containment. */
  lemma WithinIffBoxWithin(a: Rect, b: Rect)
    requires WellFormed(a)
    ensures WithinRect(a, b) <==> BoxWithin(a, b)
  {
  }

  /** A rectangle that is not outsideRect meets the other one... */
  lemma NotOutsideMeets(a: Rect, b: Rect)
    requires WellFormed(a)
    ensures !OutsideRect(a, b) ==> BoxesMeet(a, b)
  {
  }

  /** ...but the converse fails: a rectangle that encloses the other has all
      four corners outside it, so outsideRect holds although they overlap. */
  lemma OutsideRectOfEnclosing()
    ensures var display := Rect(0, 0, 320, 240);
      var big := Rect(-10, -10, 330, 250);
      OutsideRect(big, display) && BoxesMeet(big, display) && BoxWithin(display, big)
  {
  }

  /** Some piece of `rects` covers pixel (x, y). */
  predicate CoveredBy(rects: seq<Rect>, x: int, y: int) {
    exists k :: 0 <= k < |rects| && Covers(rects[k], x, y)
  }

  // The four strips of `r` around `other`, in simplified form.
  function LeftStrip(r: Rect, o: Rect): Rect { Rect(r.left, r.top, o.left, r.bottom) }
  function TopStrip(r: Rect, o: Rect): Rect { Rect(r.left, r.top, r.right, o.top) }
  function RightStrip(r: Rect, o: Rect): Rect { Rect(o.right, r.top, r.right, r.bottom) }
  function BottomStrip(r: Rect, o: Rect): Rect { Rect(r.left, o.bottom, r.right, r.bottom) }

  predicate IsStrip(p: Rect, r: Rect, o: Rect) {
    (p == LeftStrip(r, o) && r.left < o.left) || (p == TopStrip(r, o) && r.top < o.top) ||
    (p == RightStrip(r, o) && o.right < r.right) || (p == BottomStrip(r, o) && o.bottom < r.bottom)
  }

  /** Every piece subtractRect emits is the strip beside an edge of `other`
      that lies strictly inside `r`. */
  lemma SubtractPiecesAreStrips(r: Rect, other: Rect)
    requires WellFormed(r) && WellFormed(other) && IntersectsRect(r, other)
    ensures forall k :: 0 <= k < |SubtractRect(r, other)| ==> IsStrip(SubtractRect(r, other)[k], r, other)
  {
  }

  /** Every such strip is emitted. */
  lemma SubtractEmitsStrips(r: Rect, other: Rect)
    requires WellFormed(r) && WellFormed(other) && IntersectsRect(r, other)
    ensures r.left < other.left ==> LeftStrip(r, other) in SubtractRect(r, other)
    ensures r.top < other.top ==> TopStrip(r, other) in SubtractRect(r, other)
    ensures other.right < r.right ==> RightStrip(r, other) in SubtractRect(r, other)
    ensures other.bottom < r.bottom ==> BottomStrip(r, other) in SubtractRect(r, other)
  {
  }

  /** Any sequence made only of strips, holding every strip there is, covers
      exactly the pixels of `r` outside `o`. */
  lemma StripsCoverDifference(rects: seq<Rect>, r: Rect, o: Rect, x: int, y: int)
    requires WellFormed(r) && WellFormed(o) && BoxesMeet(r, o)
    requires forall k :: 0 <= k < |rects| ==> IsStrip(rects[k], r, o)
    requires r.left < o.left ==> LeftStrip(r, o) in rects
    requires r.top < o.top ==> TopStrip(r, o) in rects
    requires o.right < r.right ==> RightStrip(r, o) in rects
    requires o.bottom < r.bottom ==> BottomStrip(r, o) in rects
    ensures forall k :: 0 <= k < |rects| ==> WellFormed(rects[k]) && BoxWithin(rects[k], r)
    ensures CoveredBy(rects, x, y) <==> Covers(r, x, y) && !Covers(o, x, y)
  {
    if Covers(r, x, y) && !Covers(o, x, y) {
      var p := if x < o.left then LeftStrip(r, o)
        else if y < o.top then TopStrip(r, o)
        else if x >= o.right then RightStrip(r, o)
        else BottomStrip(r, o);
      var k :| 0 <= k < |rects| && rects[k] == p;
      assert Covers(rects[k], x, y);
    }
    if CoveredBy(rects, x, y) {
      var k :| 0 <= k < |rects| && Covers(rects[k], x, y);
      assert IsStrip(rects[k], r, o);
    }
  }

  /** subtractRect of intersecting rectangles: every piece is a well-formed
      part of `r` that shares no pixel with `other`, and together the pieces
      cover every pixel of `r` that `other` does not. */
  lemma SubtractExact(r: Rect, other: Rect, x: int, y: int)
    requires WellFormed(r) && WellFormed(other) && IntersectsRect(r, other)
    ensures var rects := SubtractRect(r, other);
      (forall k :: 0 <= k < |rects| ==> WellFormed(rects[k]) && BoxWithin(rects[k], r)) &&
      (CoveredBy(rects, x, y) <==> Covers(r, x, y) && !Covers(other, x, y))
  {
    IntersectsIffBoxesMeet(r, other);
    SubtractPiecesAreStrips(r, other);
    SubtractEmitsStrips(r, other);
    StripsCoverDifference(SubtractRect(r, other), r, other, x, y);
  }

  /** No pieces exactly when `r` lies inside `other`; four pieces exactly when
      `other` lies strictly inside `r` (the ring case); otherwise one to three. */
  lemma SubtractCount(r: Rect, other: Rect)
    requires WellFormed(r) && WellFormed(other) && IntersectsRect(r, other)
    ensures |SubtractRect(r, other)| == 0 <==> BoxWithin(r, other)
    ensures |SubtractRect(r, other)| == 4 <==>
      r.left < other.left && r.top < other.top && other.right < r.right && other.bottom < r.bottom
  {
  }

  /** The pieces are not pairwise disjoint: in the ring case the left and the
      top strip share the top-left corner of `r`. */
  lemma SubtractPiecesOverlap()
    ensures var rects := SubtractRect(Rect(0, 0, 10, 10), Rect(2, 2, 5, 5));
      |rects| == 4 && Covers(rects[0], 0, 0) && Covers(rects[1], 0, 0)
  {
  }

  /** As written, subtracting a rectangle that does not touch `r` yields no
      pieces at all, although every pixel of `r` survives the subtraction. */
  lemma SubtractDropsDisjoint()
    ensures var r := Rect(0, 0, 100, 100);
      var other := Rect(200, 200, 300, 300);
      SubtractRect(r, other) == [] && Covers(r, 0, 0) && !Covers(other, 0, 0)
  {
  }

  /** subtractRect with the disjoint case answered by `r` itself. */
  function SubtractRectFixed(r: Rect, other: Rect): (rects: seq<Rect>)
    ensures IntersectsRect(r, other) ==> rects == SubtractRect(r, other)
    ensures !IntersectsRect(r, other) ==> rects == [r]
  {
    if IntersectsRect(r, other) then SubtractRect(r, other) else [r]
  }

  /** The corrected subtraction covers exactly r minus other, for every pair
      of well-formed rectangles. */
  lemma SubtractFixedExact(r: Rect, other: Rect, x: int, y: int)
    requires WellFormed(r) && WellFormed(other)
    ensures var rects := SubtractRectFixed(r, other);
      (forall k :: 0 <= k < |rects| ==> WellFormed(rects[k]) && BoxWithin(rects[k], r)) &&
      (CoveredBy(rects, x, y) <==> Covers(r, x, y) && !Covers(other, x, y))
  {
    IntersectsIffBoxesMeet(r, other);
    if IntersectsRect(r, other) {
      SubtractExact(r, other, x, y);
    } else {
      var rects := SubtractRectFixed(r, other);
      if Covers(r, x, y) {
        assert Covers(rects[0], x, y);
      }
    }
  }

  /** Wrap16 keeps the value modulo 2^16. */
  lemma Wrap16Congruent(x: int)
    ensures (Wrap16(x) - x) % 0x1_0000 == 0
  {
  }

  lemma Wrap16Unique(x: int, c: Coord)
    requires (c - x) % 0x1_0000 == 0
    ensures Wrap16(x) == c
  {
    Wrap16Congruent(x);
  }

  lemma Wrap16Shift(a: Coord, d: int)
    ensures Wrap16(Wrap16(a + d) - d) == a
  {
    var w := Wrap16(a + d);
    Wrap16Congruent(a + d);
    assert (a - (w - d)) % 0x1_0000 == 0;
    Wrap16Unique(w - d, a);
  }

  lemma Wrap16SubShift(a: Coord, d: int)
    ensures Wrap16(Wrap16(a - d) + d) == a
  {
    Wrap16Shift(a, -d);
    assert a - d == a + -d && Wrap16(a - d) + d == Wrap16(a + -d) - -d;
  }

  /** deflate undoes inflate, even when the edges wrap around in int16. */
  lemma DeflateUndoesInflate(r: Rect, px: Extent)
    ensures Deflate(Inflate(r, px), px) == r
  {
    Wrap16SubShift(r.left, px);
    Wrap16SubShift(r.top, px);
    Wrap16Shift(r.right, px);
    Wrap16Shift(r.bottom, px);
  }

  /** inflate undoes deflate. */
  lemma InflateUndoesDeflate(r: Rect, px: Extent)
    ensures Inflate(Deflate(r, px), px) == r
  {
    Wrap16Shift(r.left, px);
    Wrap16Shift(r.top, px);
    Wrap16SubShift(r.right, px);
    Wrap16SubShift(r.bottom, px);
  }

  /** When nothing wraps, inflate moves every edge out by px. */
  lemma InflateNoWrap(r: Rect, px: Extent)
    requires -0x8000 <= r.left - px && -0x8000 <= r.top - px
    requires r.right + px < 0x8000 && r.bottom + px < 0x8000
    ensures Inflate(r, px) == Rect(r.left - px, r.top - px, r.right + px, r.bottom + px)
  {
  }

  /** When 2*px fits the width and the height, deflate gives a well-formed
      rectangle inside the original, 2*px smaller each way. */
  lemma DeflateShrinks(r: Rect, px: Extent)
    requires WellFormed(r) && 2 * px <= Width(r) && 2 * px <= Height(r)
    ensures var s := Deflate(r, px);
      WellFormed(s) && BoxWithin(s, r) &&
      Width(s) == Width(r) - 2 * px && Height(s) == Height(r) - 2 * px
  {
  }

  /** deflate's assertions (px below width and height) admit a px that turns
      the rectangle inside out: its width then wraps to a large extent. */
  lemma DeflateGuardAdmitsInversion()
    ensures var r := Rect(0, 0, 10, 10);
      6 < Width(r) && 6 < Height(r) && !WellFormed(Deflate(r, 6)) && Width(Deflate(r, 6)) == 0xFFFE
  {
    var r := Rect(0, 0, 10, 10);
    assert Deflate(r, 6) == Rect(6, 6, 4, 4);
    assert Width(Rect(6, 6, 4, 4)) == ToExtent(-2) == 0xFFFE;
  }
}
