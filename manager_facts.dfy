// Properties of the exostra WindowManager's value-level behaviour: the
// display/window coordinate conversions are inverse on the window, the
// obscuring rect bounds the windows above, one compositing pass transfers
// exactly the unobscured part of a window's dirty rect, and the screensaver
// is drawn once per activation.
module ManagerFacts {
  import opened Geometry
  import opened GeometryFacts
  import opened Messages
  import opened Windows
  import opened WindowFacts
  import opened ManagerSpec

  // ---------------------------------------------------------------------
  // Coordinate conversion

  /** A window rect whose width and height fit the positive half of a Coord,
      so that its client rect Rect(0, 0, width, height) does not wrap. */
  predicate Convertible(wr: Rect) {
    WellFormed(wr) && Width(wr) < 0x8000 && Height(wr) < 0x8000
  }

  /** A display point on the window converts to a window point, and back. */
  lemma PointRoundTrip(wr: Rect, pt: Point)
    requires Convertible(wr) && PointWithin(wr, pt.x, pt.y)
    ensures var q := DisplayToWindowPoint(wr, pt);
      q.Some? && PointWithin(ClientRect(wr), q.value.x, q.value.y) &&
      WindowToDisplayPoint(wr, q.value) == Some(pt)
  {
  }

  /** A window point in the client rect converts to a display point on the
      window, and back. */
  lemma WindowPointRoundTrip(wr: Rect, q: Point)
    requires Convertible(wr) && PointWithin(ClientRect(wr), q.x, q.y)
    ensures var pt := WindowToDisplayPoint(wr, q);
      pt.Some? && PointWithin(wr, pt.value.x, pt.value.y) &&
      DisplayToWindowPoint(wr, pt.value) == Some(q)
  {
  }

  /** The Rect conversions are inverse on every rect they accept. */
  lemma RectRoundTrip(wr: Rect, r: Rect)
    requires Convertible(wr)
    ensures DisplayToWindowRect(wr, r).Some? ==> WindowToDisplayRect(wr, DisplayToWindowRect(wr, r).value) == Some(r)
    ensures WindowToDisplayRect(wr, r).Some? ==> DisplayToWindowRect(wr, WindowToDisplayRect(wr, r).value) == Some(r)
  {
    if DisplayToWindowRect(wr, r).Some? {
      PointRoundTrip(wr, Point(r.left, r.top));
      PointRoundTrip(wr, Point(r.right, r.bottom));
    }
    if WindowToDisplayRect(wr, r).Some? {
      WindowPointRoundTrip(wr, Point(r.left, r.top));
      WindowPointRoundTrip(wr, Point(r.right, r.bottom));
    }
  }

  /** A window wider than 0x7FFF has a client rect that wraps: no window
      point converts, not even the origin. */
  lemma WideWindowClientWraps()
    ensures var wr := Rect(-0x4000, 0, 0x4000, 100);
      WellFormed(wr) && Width(wr) == 0x8000 && WindowToDisplayPoint(wr, Point(0, 0)).None?
  {
  }

  // ---------------------------------------------------------------------
  // The obscuring rect

  /** The scan finds something exactly when some window from j up is
      drawable, and what it finds contains each such window's rect. */
  lemma {:induction false} AboveScanBounds(ks: seq<Window>, j: nat, display: Rect)
    ensures AboveScan(ks, j, display).None? <==>
      forall k :: j <= k < |ks| ==> !IsDrawable(ks[k], true, display)
    ensures AboveScan(ks, j, display).Some? ==>
      forall k :: j <= k < |ks| && IsDrawable(ks[k], true, display) ==>
        BoxWithin(ks[k].rect, AboveScan(ks, j, display).value)
    decreases |ks| - j
  {
    if j < |ks| {
      AboveScanBounds(ks, j + 1, display);
    }
  }

  /** ... and is the least box that does: any box containing every drawable
      window's rect from j up contains it. */
  lemma {:induction false} AboveScanLeast(ks: seq<Window>, j: nat, display: Rect, b: Rect)
    requires forall k :: j <= k < |ks| && IsDrawable(ks[k], true, display) ==> BoxWithin(ks[k].rect, b)
    ensures AboveScan(ks, j, display).Some? ==> BoxWithin(AboveScan(ks, j, display).value, b)
    decreases |ks| - j
  {
    if j < |ks| {
      AboveScanLeast(ks, j + 1, display, b);
    }
  }

  /** When the drawable windows have well-formed rects, so has the scan's,
      and it is not empty. */
  lemma {:induction false} AboveScanWellFormed(ks: seq<Window>, j: nat, display: Rect)
    requires forall k :: j <= k < |ks| && IsDrawable(ks[k], true, display) ==> WellFormed(ks[k].rect)
    ensures AboveScan(ks, j, display).Some? ==>
      WellFormed(AboveScan(ks, j, display).value) && !IsEmpty(AboveScan(ks, j, display).value)
    decreases |ks| - j
  {
    if j < |ks| {
      AboveScanWellFormed(ks, j + 1, display);
    }
  }

  /** The obscuring rect is a merged bounding box: with two windows above at
      the left and right edges, the gap between them counts as obscured. */
  lemma ObscuringMergesAcrossGap(ks: seq<Window>, display: Rect)
    requires |ks| == 3 && IsDrawable(ks[1], true, display) && IsDrawable(ks[2], true, display)
    requires ks[1].rect == Rect(0, 0, 10, 100) && ks[2].rect == Rect(90, 0, 100, 100)
    ensures ObscuringRect(ks, 0, display) == Rect(0, 0, 100, 100)
    ensures Covers(ObscuringRect(ks, 0, display), 50, 50)
    ensures !Covers(ks[1].rect, 50, 50) && !Covers(ks[2].rect, 50, 50)
  {
    assert AboveScan(ks, 2, display) == Some(ks[2].rect);
    assert AboveScan(ks, 1, display) == Some(MergeRect(ks[2].rect, ks[1].rect));
  }

  // ---------------------------------------------------------------------
  // One window's pass

  /** Pixel (x, y) is written by one of the transfers. */
  predicate Transferred(ops: seq<DisplayOp>, x: int, y: int) {
    exists k :: 0 <= k < |ops| && ops[k].Transfer? && Covers(ops[k].rect, x, y)
  }

  /** Pieces within the window rect all convert; each becomes one transfer,
      in order, with its window-coordinate rect. */
  lemma {:induction false} PieceOpsAllConvert(wr: Rect, pieces: seq<Rect>, n: nat)
    requires n <= |pieces|
    requires forall k :: 0 <= k < n ==> WellFormed(pieces[k]) && BoxWithin(pieces[k], wr)
    ensures var t := PieceOps(wr, pieces, n);
      t.ok && |t.ops| == n &&
      forall k :: 0 <= k < n ==>
        DisplayToWindowRect(wr, pieces[k]).Some? &&
        t.ops[k] == Transfer(pieces[k], DisplayToWindowRect(wr, pieces[k]).value)
    decreases n
  {
    if n > 0 {
      PieceOpsAllConvert(wr, pieces, n - 1);
      PieceConverts(wr, pieces[n - 1]);
    }
  }

  lemma PieceConverts(wr: Rect, piece: Rect)
    requires WellFormed(piece) && BoxWithin(piece, wr)
    ensures DisplayToWindowRect(wr, piece).Some?
  {
  }

  /** The transfers of pieces inside `dirty`, itself inside the window
      rect, write exactly the pixels the pieces cover. */
  lemma TransferredPieces(wr: Rect, dirty: Rect, pieces: seq<Rect>, x: int, y: int)
    requires BoxWithin(dirty, wr)
    requires forall k :: 0 <= k < |pieces| ==> WellFormed(pieces[k]) && BoxWithin(pieces[k], dirty)
    ensures var t := PieceOps(wr, pieces, |pieces|);
      t.ok && |t.ops| == |pieces| && (Transferred(t.ops, x, y) <==> CoveredBy(pieces, x, y))
  {
    PieceOpsAllConvert(wr, pieces, |pieces|);
    var t := PieceOps(wr, pieces, |pieces|);
    if CoveredBy(pieces, x, y) {
      var k :| 0 <= k < |pieces| && Covers(pieces[k], x, y);
      assert t.ops[k].rect == pieces[k];
    }
    if Transferred(t.ops, x, y) {
      var k :| 0 <= k < |t.ops| && t.ops[k].Transfer? && Covers(t.ops[k].rect, x, y);
      assert t.ops[k].rect == pieces[k];
    }
  }

  /** An empty well-formed rect covers no pixel. */
  lemma EmptyCoversNothing(r: Rect, x: int, y: int)
    requires WellFormed(r) && IsEmpty(r)
    ensures !Covers(r, x, y)
  {
  }

  /** render's pieces, when the obscuring rect is empty or meets the dirty
      rect, lie within the dirty rect and cover exactly its pixels outside the
      obscuring rect. */
  lemma DirtyPiecesExact(dirty: Rect, obscuring: Rect, x: int, y: int)
    requires WellFormed(dirty) && WellFormed(obscuring)
    requires IsEmpty(obscuring) || IntersectsRect(dirty, obscuring)
    ensures var pieces := DirtyPieces(dirty, obscuring);
      (forall k :: 0 <= k < |pieces| ==> WellFormed(pieces[k]) && BoxWithin(pieces[k], dirty)) &&
      (CoveredBy(pieces, x, y) <==> Covers(dirty, x, y) && !Covers(obscuring, x, y))
  {
    if IsEmpty(obscuring) {
      EmptyCoversNothing(obscuring, x, y);
      assert Covers(dirty, x, y) ==> Covers(DirtyPieces(dirty, obscuring)[0], x, y);
    } else {
      SubtractExact(dirty, obscuring, x, y);
    }
  }

  /** The pass over a drawable window with a dirty rect inside its own rect:
      when the obscuring rect is empty or meets the dirty rect, the transfers
      write exactly the dirty pixels outside the obscuring rect, `updated` is
      set exactly when something was sent, and the whole subtree ends clean. */
  lemma RenderWindowExact(w: Window, obscuring: Rect, display: Rect, x: int, y: int)
    requires IsDrawable(w, true, display) && !IsEmpty(w.dirtyRect)
    requires WellFormed(w.dirtyRect) && BoxWithin(w.dirtyRect, w.rect)
    requires WellFormed(obscuring)
    requires IsEmpty(obscuring) || IntersectsRect(w.dirtyRect, obscuring)
    ensures var p := RenderWindow(w, obscuring, display);
      p.w == MarkRectDirty(w, EmptyRect) && AllClean(p.w) &&
      (p.drew <==> |p.ops| > 0) &&
      (Transferred(p.ops, x, y) <==> Covers(w.dirtyRect, x, y) && !Covers(obscuring, x, y))
  {
    MarkEmptyClearsSubtree(w);
    DirtyPiecesExact(w.dirtyRect, obscuring, x, y);
    TransferredPieces(w.rect, w.dirtyRect, DirtyPieces(w.dirtyRect, obscuring), x, y);
  }

  /** As written, a dirty rect that misses a non-empty obscuring rect is
      dropped: nothing is transferred and the subtree is marked clean. */
  lemma RenderDropsDisjointDirty(w: Window, obscuring: Rect, display: Rect)
    requires IsDrawable(w, true, display) && !IsEmpty(w.dirtyRect)
    requires !IsEmpty(obscuring) && !IntersectsRect(w.dirtyRect, obscuring)
    ensures var p := RenderWindow(w, obscuring, display);
      p.ops == [] && !p.drew && AllClean(p.w)
  {
    MarkEmptyClearsSubtree(w);
  }

  /** The i-th window after the pass over the first n windows is that
      window's own pass. */
  lemma {:induction false} PassKidsAt(ks: seq<Window>, n: nat, i: nat, env: Env)
    requires i < n <= |ks|
    ensures PassKids(ks, n, env)[i] == PassWindow(ks, i, env).w
    decreases n
  {
    if i < n - 1 {
      PassKidsAt(ks, n - 1, i, env);
    }
  }

  /** After render's pass, every top-level window that (once drained) is
      drawable with a non-empty dirty rect inside its own rect ends clean,
      together with its whole subtree, whether or not the windows above
      obscure it. */
  lemma PassCleansDirty(ks: seq<Window>, i: nat, env: Env)
    requires i < |ks|
    requires var d := Drain(ks[i], true, env);
      IsDrawable(d, true, env.display) && !IsEmpty(d.dirtyRect) &&
      WellFormed(d.dirtyRect) && BoxWithin(d.dirtyRect, d.rect)
    requires forall k :: i < k < |ks| && IsDrawable(ks[k], true, env.display) ==> WellFormed(ks[k].rect)
    ensures AllClean(PassResult(ks, env)[i])
  {
    PassKidsAt(ks, |ks|, i, env);
    var d := Drain(ks[i], true, env);
    var o := ObscuringRect(ks, i, env.display);
    AboveScanWellFormed(ks, i + 1, env.display);
    if IsEmpty(o) || IntersectsRect(d.dirtyRect, o) {
      RenderWindowExact(d, o, env.display, 0, 0);
    } else {
      RenderDropsDisjointDirty(d, o, env.display);
    }
  }

  /** destroy() as modelled routes MSG_DESTROY before hide()'s setDirtyRect
      call takes effect. The source runs that call first, and it can reach
      the window itself: a child touching the edge of its top-level parent
      from outside meets the parent in an empty intersection, and marking
      that clears the parent's whole subtree. With an onDestroy that accepts
      exactly a window with no dirty rect, the modelled answer is false
      while the window the source routes to would be accepted. */
  lemma DestroyHookSeesDirtyRectBeforeHide(env: Env)
    requires env.display == Rect(0, 0, 320, 240)
    requires forall w :: env.hooks.onDestroy(w) == (w.dirtyRect == EmptyRect)
    ensures var c := Window(2, STY_VISIBLE | STY_CHILD, WindowState(true, false, false),
                            Rect(100, 0, 150, 50), Rect(100, 0, 150, 50), 0, [], []);
      var t := Window(1, STY_VISIBLE | STY_TOPLEVEL, WindowState(true, false, false),
                      Rect(0, 0, 100, 100), EmptyRect, 0, [], [c]);
      var hidden := [t.(children := [HideWindow(c)])];
      !DestroyTree(c, env).ok &&
      env.hooks.onDestroy(DirtyRectApplied(hidden, c.rect, env.display)[0].children[0])
  {
    var c := Window(2, STY_VISIBLE | STY_CHILD, WindowState(true, false, false),
                    Rect(100, 0, 150, 50), Rect(100, 0, 150, 50), 0, [], []);
    var t := Window(1, STY_VISIBLE | STY_TOPLEVEL, WindowState(true, false, false),
                    Rect(0, 0, 100, 100), EmptyRect, 0, [], [c]);
    // the model: onDestroy sees the hidden window with its dirty rect intact
    var hc := HideWindow(c);
    assert hc.dirtyRect == c.dirtyRect;
    assert !RouteMessage(hc, false, MsgDestroy, 0, 0, env).ok;
    // the source: hide()'s setDirtyRect runs first and clears t's subtree
    var h := t.(children := [hc]);
    var i := GetIntersection(h.rect, c.rect);
    assert IntersectsRect(h.rect, c.rect);
    assert i == Rect(100, 0, 100, 50);
    assert IsDrawable(h, true, env.display);
    assert DirtyRectApplied([h], c.rect, env.display)[0] == MarkRectDirty(h, i);
    MarkEmptyIsClear(h, i);
    MarkEmptyClearsSubtree(h);
    assert AllClean(MarkRectDirty(h, EmptyRect).children[0]);
  }

  /** A dirty rect inside the obscuring rect sends nothing. */
  lemma CoveredDirtySendsNothing(w: Window, obscuring: Rect, display: Rect)
    requires WellFormed(w.dirtyRect) && WellFormed(obscuring) && !IsEmpty(obscuring)
    requires BoxWithin(w.dirtyRect, obscuring)
    ensures RenderWindow(w, obscuring, display).ops == []
    ensures !RenderWindow(w, obscuring, display).drew
  {
    if IntersectsRect(w.dirtyRect, obscuring) {
      SubtractCount(w.dirtyRect, obscuring);
    }
  }

  /** render's pieces with subtractRect corrected (see SubtractRectFixed). */
  function DirtyPiecesFixed(dirty: Rect, obscuring: Rect): seq<Rect> {
    if !IsEmpty(obscuring) then SubtractRectFixed(dirty, obscuring) else [dirty]
  }

  /** The corrected pieces lie within the dirty rect and cover exactly its
      pixels outside the obscuring rect, whatever the obscuring rect is. */
  lemma DirtyPiecesFixedExact(dirty: Rect, obscuring: Rect, x: int, y: int)
    requires WellFormed(dirty) && WellFormed(obscuring)
    ensures var pieces := DirtyPiecesFixed(dirty, obscuring);
      (forall k :: 0 <= k < |pieces| ==> WellFormed(pieces[k]) && BoxWithin(pieces[k], dirty)) &&
      (CoveredBy(pieces, x, y) <==> Covers(dirty, x, y) && !Covers(obscuring, x, y))
  {
    if IsEmpty(obscuring) {
      EmptyCoversNothing(obscuring, x, y);
      assert Covers(dirty, x, y) ==> Covers(DirtyPiecesFixed(dirty, obscuring)[0], x, y);
    } else {
      SubtractFixedExact(dirty, obscuring, x, y);
    }
  }

  /** render's pass with the corrected pieces. */
  function RenderWindowFixed(w: Window, obscuring: Rect, display: Rect): (p: WindowPass)
    ensures forall k :: 0 <= k < |p.ops| ==> p.ops[k].Transfer?
  {
    if !IsDrawable(w, true, display) || IsEmpty(w.dirtyRect) then WindowPass(w, [], false)
    else
      var pieces := DirtyPiecesFixed(w.dirtyRect, obscuring);
      if |pieces| == 0 then WindowPass(MarkRectDirty(w, EmptyRect), [], false)
      else
        var t := PieceOps(w.rect, pieces, |pieces|);
        if t.ok then WindowPass(MarkRectDirty(w, EmptyRect), t.ops, true)
        else WindowPass(w, t.ops, false)
  }

  /** With the correction, the pass writes exactly the dirty pixels outside
      the obscuring rect whatever the obscuring rect is. */
  lemma RenderWindowFixedExact(w: Window, obscuring: Rect, display: Rect, x: int, y: int)
    requires IsDrawable(w, true, display) && !IsEmpty(w.dirtyRect)
    requires WellFormed(w.dirtyRect) && BoxWithin(w.dirtyRect, w.rect)
    requires WellFormed(obscuring)
    ensures var p := RenderWindowFixed(w, obscuring, display);
      p.w == MarkRectDirty(w, EmptyRect) && AllClean(p.w) &&
      (p.drew <==> |p.ops| > 0) &&
      (Transferred(p.ops, x, y) <==> Covers(w.dirtyRect, x, y) && !Covers(obscuring, x, y))
  {
    MarkEmptyClearsSubtree(w);
    DirtyPiecesFixedExact(w.dirtyRect, obscuring, x, y);
    TransferredPieces(w.rect, w.dirtyRect, DirtyPiecesFixed(w.dirtyRect, obscuring), x, y);
  }

  // ---------------------------------------------------------------------
  // setDirtyRect

  /** setDirtyRect leaves every window that is not drawable or misses the
      rect as it was; a drawable window it meets keeps its dirty rect and
      takes in the intersection, while no dirty edge is the 0 sentinel. */
  lemma DirtyRectAppliedMarks(ks: seq<Window>, rect: Rect, display: Rect, i: nat)
    requires i < |ks|
    ensures !IsDrawable(ks[i], true, display) || !IntersectsRect(ks[i].rect, rect) ==>
      DirtyRectApplied(ks, rect, display)[i] == ks[i]
    ensures IsDrawable(ks[i], true, display) && WellFormed(ks[i].rect) && WellFormed(rect) &&
            IntersectsRect(ks[i].rect, rect) && !IsEmpty(GetIntersection(ks[i].rect, rect)) &&
            ks[i].dirtyRect.left != 0 && ks[i].dirtyRect.top != 0 ==>
      var d := DirtyRectApplied(ks, rect, display)[i].dirtyRect;
      BoxWithin(ks[i].dirtyRect, d) && BoxWithin(GetIntersection(ks[i].rect, rect), d)
  {
    var w := ks[i];
    if IsDrawable(w, true, display) && WellFormed(w.rect) && WellFormed(rect) && IntersectsRect(w.rect, rect) &&
       !IsEmpty(GetIntersection(w.rect, rect)) && w.dirtyRect.left != 0 && w.dirtyRect.top != 0 {
      IntersectionExact(w.rect, rect, 0, 0);
      MarkGrowsAwayFromZero(w, GetIntersection(w.rect, rect));
    }
  }

  // ---------------------------------------------------------------------
  // The screensaver

  /** render's effect on the screensaver flags and whether it draws the
      screensaver (Manager.WindowManager.Render): after the flag step, an
      active screensaver not yet drawn is drawn and DRAWN set. */
  datatype SaverFrame = SaverFrame(saver: SaverState, draws: bool)

  function SaverRender(s: SaverState, epoch: Millis, after: Millis, now: Millis): SaverFrame {
    var s1 := SaverStep(s, epoch, after, now);
    if s1.active then SaverFrame(s1.(drawn := true), !s1.drawn) else SaverFrame(s1, false)
  }

  /** Once the timeout has passed, the first render draws the screensaver and
      the following ones do not draw it again. */
  lemma SaverDrawnOnce(s: SaverState, epoch: Millis, after: Millis, t1: Millis, t2: Millis)
    requires s.enabled && !s.active && !s.drawn && Elapsed(t1, epoch) >= after && Elapsed(t2, epoch) >= after
    ensures var f1 := SaverRender(s, epoch, after, t1);
      var f2 := SaverRender(f1.saver, epoch, after, t2);
      f1.draws && f1.saver.active && f1.saver.drawn && !f2.draws && f2.saver == f1.saver
  {
  }

  /** Activity before the timeout (a new epoch) deactivates the screensaver
      and clears DRAWN, so the next activation draws it again. */
  lemma SaverRedrawnAfterWake(s: SaverState, epoch: Millis, after: Millis, t1: Millis, t2: Millis)
    requires s.enabled && s.active && s.drawn
    requires Elapsed(t1, epoch) < after && Elapsed(t2, epoch) >= after
    ensures SaverDeactivates(s, epoch, after, t1)
    ensures var f1 := SaverRender(s, epoch, after, t1);
      f1 == SaverFrame(SaverState(true, false, false), false) &&
      SaverRender(f1.saver, epoch, after, t2).draws
  {
  }

  /** A disabled screensaver never becomes active. */
  lemma SaverDisabledStaysInactive(epoch: Millis, after: Millis, now: Millis)
    ensures SaverRender(SaverState(false, false, false), epoch, after, now) ==
      SaverFrame(SaverState(false, false, false), false)
  {
  }
}
