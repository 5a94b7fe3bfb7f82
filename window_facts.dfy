// Properties of the exostra Window operations (module Windows) and of
// drawability along a window tree (module WindowTree).
module WindowFacts {
  import opened Geometry
  import opened Messages
  import opened Windows
  import opened WindowTree

  // ---------------------------------------------------------------------
  // routeMessage and the STA_ALIVE / STA_DIRTY bits

  /** A successful MSG_CREATE leaves the window alive; a refused one changes
      nothing. The result is onCreate's. */
  lemma RouteCreateSetsAlive(w: Window, pd: bool, p1: MsgParam, p2: MsgParam, env: Env)
    ensures var s := RouteMessage(w, pd, MsgCreate, p1, p2, env);
      s.ok == env.hooks.onCreate(w) &&
      (s.ok ==> IsAlive(s.w)) &&
      (!s.ok ==> s == Step(w, false, []))
  {
  }

  /** MSG_DESTROY clears STA_ALIVE whatever onDestroy answers, touches nothing
      else and marks nothing on the parent. */
  lemma RouteDestroyClearsAlive(w: Window, pd: bool, p1: MsgParam, p2: MsgParam, env: Env)
    ensures var s := RouteMessage(w, pd, MsgDestroy, p1, p2, env);
      !IsAlive(s.w) && s.ok == env.hooks.onDestroy(w) &&
      s.w == w.(state := w.state.(alive := false)) && s.marks == []
  {
  }

  /** MSG_DRAW does nothing and answers false unless the window is drawable
      and either dirty or forced (p1 != 0). */
  lemma RouteDrawNoOp(w: Window, pd: bool, p1: MsgParam, p2: MsgParam, env: Env)
    requires !IsDrawable(w, pd, env.display) || (!IsDirty(w) && p1 == 0)
    ensures RouteMessage(w, pd, MsgDraw, p1, p2, env) == Step(w, false, [])
  {
  }

  /** When MSG_DRAW does draw, the result is onDraw's, STA_DIRTY ends cleared
      and STA_ALIVE is kept; a window that painted marks its own rect on
      itself and on its parent. */
  lemma RouteDrawClearsDirty(w: Window, pd: bool, p1: MsgParam, p2: MsgParam, env: Env)
    requires IsDrawable(w, pd, env.display) && (IsDirty(w) || p1 != 0)
    ensures var s := RouteMessage(w, pd, MsgDraw, p1, p2, env);
      !IsDirty(s.w) && IsAlive(s.w) && s.ok == env.hooks.onDraw(w, p1) &&
      (s.ok ==> s.marks == [w.rect] && s.w.dirtyRect == MarkRectDirty(w, w.rect).dirtyRect) &&
      (!s.ok ==> s.marks == [] && s.w == ClearDirtyBit(w))
  {
  }

  /** The other messages leave both state bits as they were, apart from the
      redraw a handled message triggers, which can only clear STA_DIRTY. */
  lemma RouteOthersKeepAlive(w: Window, pd: bool, msg: Message, p1: MsgParam, p2: MsgParam, env: Env)
    requires msg != MsgCreate && msg != MsgDestroy
    ensures IsAlive(RouteMessage(w, pd, msg, p1, p2, env).w) == IsAlive(w)
  {
  }

  /** A redraw of a window that is not drawable does nothing. */
  lemma RedrawNotDrawable(w: Window, pd: bool, force: bool, env: Env)
    requires !IsDrawable(w, pd, env.display)
    ensures Redraw(w, pd, force, env) == Step(w, false, [])
  {
  }

  /** redraw() answers true only for a drawable window... */
  lemma RedrawOkDrawable(w: Window, pd: bool, force: bool, env: Env)
    ensures Redraw(w, pd, force, env).ok ==> IsDrawable(w, pd, env.display)
  {
  }

  /** ...and does answer true when a drawable dirty window paints itself. */
  lemma RedrawPaintedOk(w: Window, pd: bool, env: Env)
    requires IsDrawable(w, pd, env.display) && IsDirty(w) && env.hooks.onDraw(w, 0)
    ensures Redraw(w, pd, false, env).ok
  {
  }

  /** A redraw of a drawable window that is dirty (or forced) clears its
      STA_DIRTY; redraw never changes STA_ALIVE. */
  lemma RedrawClearsDirty(w: Window, pd: bool, force: bool, env: Env)
    ensures IsAlive(Redraw(w, pd, force, env).w) == IsAlive(w)
    ensures IsDrawable(w, pd, env.display) && (IsDirty(w) || force) ==> !IsDirty(Redraw(w, pd, force, env).w)
  {
  }

  // ---------------------------------------------------------------------
  // Drawability along a path

  /** A window drawable in the tree has a drawable parent (and is itself
      drawable in isDrawable's sense, given that parent). */
  lemma {:induction false} DrawableAlongImpliesParent(ws: seq<Window>, p: Path, pd: bool, display: Rect)
    requires ValidPath(ws, p) && DrawableAlong(ws, p, pd, display)
    ensures pd && IsDrawable(ws[p[0]], pd, display)
    decreases p
  {
    if |p| > 1 {
      DrawableAlongImpliesParent(ws[p[0]].children, p[1..], IsDrawable(ws[p[0]], pd, display), display);
    }
  }

  /** Drawability of a window implies drawability of every ancestor. */
  lemma {:induction false} DrawableAlongPrefix(ws: seq<Window>, p: Path, pd: bool, display: Rect, k: nat)
    requires ValidPath(ws, p) && DrawableAlong(ws, p, pd, display) && 1 <= k <= |p|
    ensures ValidPath(ws, p[..k]) && DrawableAlong(ws, p[..k], pd, display)
    decreases p
  {
    PrefixValid(ws, p, k);
    if k == 1 {
      DrawableAlongImpliesParent(ws, p, pd, display);
    } else {
      var d := IsDrawable(ws[p[0]], pd, display);
      DrawableAlongPrefix(ws[p[0]].children, p[1..], d, display, k - 1);
      assert p[..k][1..] == p[1..][..k - 1];
    }
  }

  /** The window at the end of a drawable path is visible (STY_VISIBLE and a
      non-empty rect), alive, and not outside the display. */
  lemma {:induction false} DrawableAlongLast(ws: seq<Window>, p: Path, pd: bool, display: Rect)
    requires ValidPath(ws, p) && DrawableAlong(ws, p, pd, display)
    ensures var w := At(ws, p);
      BitsHigh(w.style, STY_VISIBLE) && !IsEmpty(w.rect) && IsAlive(w) && !OutsideRect(w.rect, display)
    decreases p
  {
    if |p| > 1 {
      DrawableAlongLast(ws[p[0]].children, p[1..], IsDrawable(ws[p[0]], pd, display), display);
    }
  }

  /** Hence every ancestor of a drawable window is visible, alive and not
      outside the display. */
  lemma DrawableAncestors(ws: seq<Window>, p: Path, display: Rect, k: nat)
    requires ValidPath(ws, p) && DrawableAlong(ws, p, true, display) && 1 <= k <= |p|
    ensures ValidPath(ws, p[..k])
    ensures var a := At(ws, p[..k]);
      BitsHigh(a.style, STY_VISIBLE) && !IsEmpty(a.rect) && IsAlive(a) && !OutsideRect(a.rect, display)
  {
    DrawableAlongPrefix(ws, p, true, display, k);
    DrawableAlongLast(ws, p[..k], true, display);
  }

  /** Conversely a window that is not visible makes its whole subtree
      undrawable. */
  lemma {:induction false} HiddenParentHidesChildren(ws: seq<Window>, p: Path, display: Rect)
    requires ValidPath(ws, p) && |p| > 1 && !IsVisible(ws[p[0]])
    ensures !DrawableAlong(ws, p, true, display)
  {
    if DrawableAlong(ws, p, true, display) {
      DrawableAlongImpliesParent(ws[p[0]].children, p[1..], IsDrawable(ws[p[0]], true, display), display);
    }
  }

  // ---------------------------------------------------------------------
  // markRectDirty

  /** A window and all its descendants have an all-zero dirty rect. */
  predicate AllClean(w: Window)
    decreases w
  {
    w.dirtyRect == EmptyRect && forall i :: 0 <= i < |w.children| ==> AllClean(w.children[i])
  }

  /** markRectDirty(Rect()) clears the dirty rect of the whole subtree. */
  lemma {:induction false} MarkEmptyClearsSubtree(w: Window)
    ensures AllClean(MarkRectDirty(w, EmptyRect))
    decreases w
  {
    var m := MarkRectDirty(w, EmptyRect);
    forall i | 0 <= i < |m.children|
      ensures AllClean(m.children[i])
    {
      MarkEmptyClearsSubtree(w.children[i]);
    }
  }

  /** Any empty rect (zero width or height) has the same effect as Rect(). */
  lemma MarkEmptyIsClear(w: Window, r: Rect)
    requires IsEmpty(r)
    ensures MarkRectDirty(w, r) == MarkRectDirty(w, EmptyRect)
  {
  }

  /** While no edge of the dirty rect is 0, marking never shrinks it and
      takes in every rect that lies within the window. */
  lemma MarkGrowsAwayFromZero(w: Window, r: Rect)
    requires !IsEmpty(r) && w.dirtyRect.left != 0 && w.dirtyRect.top != 0
    ensures BoxWithin(w.dirtyRect, MarkRectDirty(w, r).dirtyRect)
    ensures BoxWithin(r, w.rect) ==> BoxWithin(r, MarkRectDirty(w, r).dirtyRect)
  {
  }

  /** As written, a dirty left or top edge of 0 counts as unset: a window at
      the origin whose whole rect is dirty loses most of its dirty area when
      a small rect inside it is marked. */
  lemma MarkZeroSentinelShrinks()
    ensures var w := NewWindow(1, STY_VISIBLE, Rect(0, 0, 100, 100));
      var m := MarkRectDirty(w, Rect(20, 20, 40, 40));
      m.dirtyRect == Rect(20, 20, 100, 100) && !BoxWithin(w.dirtyRect, m.dirtyRect)
  {
  }

  /** markRectDirty with "unset" meaning an empty dirty rect rather than an
      edge equal to 0. */
  function MarkRectDirtyFixed(w: Window, r: Rect): (m: Window)
    ensures m.(dirtyRect := w.dirtyRect, children := w.children) == w
    ensures !IsEmpty(r) ==> m.children == w.children
  {
    if !IsEmpty(r) then
      var wr := w.rect;
      var d := w.dirtyRect;
      var unset := IsEmpty(d);
      var left := if r.left >= wr.left && (r.left < d.left || unset) then r.left else d.left;
      var top := if r.top >= wr.top && (r.top < d.top || unset) then r.top else d.top;
      var right := if r.right <= wr.right && (r.right > d.right || unset) then r.right else d.right;
      var bottom := if r.bottom <= wr.bottom && (r.bottom > d.bottom || unset) then r.bottom else d.bottom;
      w.(dirtyRect := Rect(left, top, right, bottom))
    else
      MarkRectDirty(w, r)
  }

  /** The corrected accumulator never loses dirty area: it contains the old
      dirty rect (when one is set) and every marked rect within the window;
      on a clean window, marking such a rect makes it the dirty rect. */
  lemma MarkFixedAccumulates(w: Window, r: Rect)
    requires !IsEmpty(r)
    ensures !IsEmpty(w.dirtyRect) ==> BoxWithin(w.dirtyRect, MarkRectDirtyFixed(w, r).dirtyRect)
    ensures BoxWithin(r, w.rect) ==> BoxWithin(r, MarkRectDirtyFixed(w, r).dirtyRect)
    ensures BoxWithin(r, w.rect) && IsEmpty(w.dirtyRect) ==> MarkRectDirtyFixed(w, r).dirtyRect == r
  {
  }

  /** POSTDRAW on a window whose dirty rect is clear, and whose right and
      bottom edges are positive, makes its whole rect dirty. */
  lemma PostDrawMarksWholeRect(w: Window)
    requires w.dirtyRect == EmptyRect && WellFormed(w.rect) && !IsEmpty(w.rect)
    requires w.rect.right > 0 && w.rect.bottom > 0
    ensures PostDraw(w).w.dirtyRect == w.rect && PostDraw(w).marks == [w.rect]
  {
  }

  // ---------------------------------------------------------------------
  // The message queue

  /** The queue is first in, first out: a message queued behind others stays
      at the back when the front one is processed. */
  lemma QueueIsFifo(w: Window, pd: bool, m: PackagedMessage, env: Env)
    requires |w.queue| > 0
    ensures var q := QueueMessage(w, m.msg, m.p1, m.p2).w;
      ProcessQueue(q, pd, env).w.queue == w.queue[1..] + [m]
  {
    var q := w.queue + [m];
    assert q[1..] == w.queue[1..] + [m];
  }

  /** processQueue routes at most one message of the window's own queue and
      one of each child's; the result says whether the own queue is still
      non-empty. */
  lemma ProcessQueueOnce(w: Window, pd: bool, env: Env)
    ensures var s := ProcessQueue(w, pd, env);
      |s.w.queue| == (if |w.queue| == 0 then 0 else |w.queue| - 1) &&
      (s.ok <==> |w.queue| > 1) &&
      forall i :: 0 <= i < |w.children| ==> |s.w.children[i].queue| == (if |w.children[i].queue| == 0 then 0 else |w.children[i].queue| - 1)
  {
  }

  /** Draining a window whose own queue is already empty gives each child a
      single processQueue call, so a child holding two messages keeps one:
      render's `while (processQueue())` loop drains only top-level queues. */
  lemma DrainLeavesChildMessages(w: Window, pd: bool, env: Env)
    requires w.queue == []
    ensures forall i :: 0 <= i < |w.children| ==> Drain(w, pd, env).children[i].queue == Tail(w.children[i].queue)
  {
    var s := ProcessQueue(w, pd, env);
    assert !s.ok;
  }

  // ---------------------------------------------------------------------
  // processInput for a tap

  /** The INPUT_TAP message processInput queues for a tap at (x, y). */
  function TapMessage(x: Coord, y: Coord): (m: PackagedMessage)
    ensures m.msg == MsgInput && LoWord(m.p1) == INPUT_TAP
    ensures WordToCoord(HiWord(m.p2)) == x && WordToCoord(LoWord(m.p2)) == y
  {
    InputParamsRoundTrip(x, y);
    PackagedMessage(MsgInput, MakeMsgParam(0, INPUT_TAP), MakeMsgParam(CoordToWord(x), CoordToWord(y)))
  }

  /** A window takes part in a hit test at (x, y): drawable, with the point on
      or inside its rect. */
  predicate Accepts(w: Window, pd: bool, x: Coord, y: Coord, display: Rect) {
    IsDrawable(w, pd, display) && PointWithin(w.rect, x, y)
  }

  /** `p` (relative to `w`, [] meaning `w` itself) leads to the window that
      claims a tap: every window along it accepts, no later sibling of any of
      them accepts, and none of the final window's children accepts. */
  predicate IsTapTarget(w: Window, pd: bool, x: Coord, y: Coord, display: Rect, p: seq<nat>)
    decreases p
  {
    Accepts(w, pd, x, y, display) &&
    if |p| == 0 then
      forall i :: 0 <= i < |w.children| ==> !Accepts(w.children[i], true, x, y, display)
    else
      p[0] < |w.children| &&
      (forall j :: p[0] < j < |w.children| ==> !Accepts(w.children[j], true, x, y, display)) &&
      IsTapTarget(w.children[p[0]], true, x, y, display, p[1..])
  }

  /** `w` with message `m` appended to the queue of the window at relative
      path `p`. */
  function QueueAt(w: Window, p: seq<nat>, m: PackagedMessage): Window
    decreases p
  {
    if |p| == 0 then w.(queue := w.queue + [m])
    else if p[0] < |w.children| then
      w.(children := w.children[p[0] := QueueAt(w.children[p[0]], p[1..], m)])
    else w
  }

  /** processInput for a tap: it is claimed exactly when the window accepts
      it; then the claimant is the tap target (children before parents,
      topmost sibling first) and the tap message is queued there and
      nowhere else; an unclaimed tap changes nothing. */
  lemma {:induction false} TapInput(w: Window, pd: bool, x: Coord, y: Coord, env: Env)
    ensures var r := ProcessInput(w, pd, INPUT_TAP, x, y, env);
      (r.handled <==> Accepts(w, pd, x, y, env.display)) &&
      (r.handled ==> IsTapTarget(w, pd, x, y, env.display, r.handler) &&
                     r.w == QueueAt(w, r.handler, TapMessage(x, y))) &&
      (!r.handled ==> r.w == w)
    decreases w, 1
  {
    if Accepts(w, pd, x, y, env.display) {
      TapKids(w.children, x, y, |w.children|, env);
      TapInputAccepted(w, pd, x, y, env);
    }
  }

  /** TapInput for a window that accepts the tap, given the outcome for its
      children. */
  lemma TapInputAccepted(w: Window, pd: bool, x: Coord, y: Coord, env: Env)
    requires Accepts(w, pd, x, y, env.display)
    requires KidsTapOutcome(w.children, x, y, |w.children|, env.display,
                            InputKids(w.children, true, INPUT_TAP, x, y, |w.children|, env))
    ensures var r := ProcessInput(w, pd, INPUT_TAP, x, y, env);
      r.handled && IsTapTarget(w, pd, x, y, env.display, r.handler) &&
      r.w == QueueAt(w, r.handler, TapMessage(x, y))
  {
    var r := ProcessInput(w, pd, INPUT_TAP, x, y, env);
    var k := InputKids(w.children, true, INPUT_TAP, x, y, |w.children|, env);
    var m := TapMessage(x, y);
    if k.handled {
      assert r == InputResult(w.(children := k.kids), true, k.handler);
      var i := k.handler[0];
      assert QueueAt(w, k.handler, m) == w.(children := w.children[i := QueueAt(w.children[i], k.handler[1..], m)]);
    } else {
      assert k.kids == w.children;
      UnpackMake(0, INPUT_TAP);
      var q := QueueMessage(w, MsgInput, MakeMsgParam(0, INPUT_TAP), MakeMsgParam(CoordToWord(x), CoordToWord(y)));
      assert q.ok && q.w == w.(queue := w.queue + [m]);
      assert r == InputResult(q.w, q.ok, []);
    }
  }

  /** What the scan over the children below index n promises for a tap:
      it is claimed exactly when one of them accepts; the claimant is the
      topmost of those, the message is queued at the tap target under it
      and nowhere else; an unclaimed tap changes nothing. */
  predicate KidsTapOutcome(ks: seq<Window>, x: Coord, y: Coord, n: nat, display: Rect, k: KidsInputResult)
    requires n <= |ks|
  {
    (k.handled <==> exists i :: 0 <= i < n && Accepts(ks[i], true, x, y, display)) &&
    (k.handled ==>
       |k.handler| > 0 && k.handler[0] < n &&
       (forall j :: k.handler[0] < j < n ==> !Accepts(ks[j], true, x, y, display)) &&
       IsTapTarget(ks[k.handler[0]], true, x, y, display, k.handler[1..]) &&
       k.kids == ks[k.handler[0] := QueueAt(ks[k.handler[0]], k.handler[1..], TapMessage(x, y))]) &&
    (!k.handled ==> k.kids == ks)
  }

  /** The tap outcome for the children below index n, tried from n - 1 down. */
  lemma {:induction false} TapKids(ks: seq<Window>, x: Coord, y: Coord, n: nat, env: Env)
    requires n <= |ks|
    ensures KidsTapOutcome(ks, x, y, n, env.display, InputKids(ks, true, INPUT_TAP, x, y, n, env))
    decreases ks, 0, n
  {
    var k := InputKids(ks, true, INPUT_TAP, x, y, n, env);
    if n == 0 {
      assert k == KidsInputResult(ks, false, []);
    } else {
      TapInput(ks[n - 1], true, x, y, env);
      var r := ProcessInput(ks[n - 1], true, INPUT_TAP, x, y, env);
      if r.handled {
        assert k == KidsInputResult(ks[n - 1 := r.w], true, [n - 1] + r.handler);
        assert k.handler[1..] == r.handler;
        TapKidsClaimed(ks, x, y, n, env.display, r, k);
      } else {
        TapKids(ks, x, y, n - 1, env);
        var rest := InputKids(ks, true, INPUT_TAP, x, y, n - 1, env);
        assert k == KidsInputResult(rest.kids[n - 1 := r.w], rest.handled, rest.handler);
        TapKidsPassed(ks, x, y, n, env.display, r, rest, k);
      }
    }
  }

  lemma TapKidsClaimed(ks: seq<Window>, x: Coord, y: Coord, n: nat, display: Rect, r: InputResult, k: KidsInputResult)
    requires 0 < n <= |ks|
    requires Accepts(ks[n - 1], true, x, y, display)
    requires IsTapTarget(ks[n - 1], true, x, y, display, r.handler)
    requires r.w == QueueAt(ks[n - 1], r.handler, TapMessage(x, y))
    requires k == KidsInputResult(ks[n - 1 := r.w], true, [n - 1] + r.handler)
    ensures KidsTapOutcome(ks, x, y, n, display, k)
  {
    assert k.handler[1..] == r.handler;
  }

  lemma TapKidsPassed(ks: seq<Window>, x: Coord, y: Coord, n: nat, display: Rect, r: InputResult, rest: KidsInputResult, k: KidsInputResult)
    requires 0 < n <= |ks|
    requires !Accepts(ks[n - 1], true, x, y, display) && r.w == ks[n - 1]
    requires KidsTapOutcome(ks, x, y, n - 1, display, rest)
    requires |rest.kids| == |ks|
    requires k == KidsInputResult(rest.kids[n - 1 := r.w], rest.handled, rest.handler)
    ensures KidsTapOutcome(ks, x, y, n, display, k)
  {
    if rest.handled {
      var i :| 0 <= i < n - 1 && Accepts(ks[i], true, x, y, display);
      assert rest.kids[n - 1] == ks[n - 1];
      assert k.kids == rest.kids;
    } else {
      assert k.kids == ks;
    }
  }

  // ---------------------------------------------------------------------
  // destroy

  /** onDestroy, as routed to each hidden window, answers true everywhere in
      the subtree. */
  predicate AllDestroyHandled(w: Window, env: Env)
    decreases w
  {
    env.hooks.onDestroy(HideWindow(w)) &&
    forall i :: 0 <= i < |w.children| ==> AllDestroyHandled(w.children[i], env)
  }

  /** destroy() returns true exactly when every window of the subtree
      handled MSG_DESTROY. */
  lemma {:induction false} DestroyOkIffAll(w: Window, env: Env)
    ensures DestroyTree(w, env).ok <==> AllDestroyHandled(w, env)
    decreases w, 1
  {
    DestroyKidsOk(w.children, env);
  }

  lemma {:induction false} DestroyKidsOk(ks: seq<Window>, env: Env)
    ensures DestroyKids(ks, env).ok <==> forall i :: 0 <= i < |ks| ==> AllDestroyHandled(ks[i], env)
    decreases ks, 0
  {
    if |ks| > 0 {
      DestroyOkIffAll(ks[0], env);
      DestroyKidsOk(ks[1..], env);
      assert forall i :: 1 <= i < |ks| ==> ks[i] == ks[1..][i - 1];
    }
  }

  /** One step of the top-down scan over the children for a tap: a child
      that claims it gets it queued and the scan stops; one that does not
      leaves the outcome to the children below it. */
  lemma TapKidsStep(ks: seq<Window>, x: Coord, y: Coord, n: nat, env: Env)
    requires n < |ks|
    ensures var r := ProcessInput(ks[n], true, INPUT_TAP, x, y, env);
      (r.handled ==> InputKids(ks, true, INPUT_TAP, x, y, n + 1, env).kids == ks[n := r.w]) &&
      (!r.handled ==> InputKids(ks, true, INPUT_TAP, x, y, n + 1, env) == InputKids(ks, true, INPUT_TAP, x, y, n, env))
  {
    TapInput(ks[n], true, x, y, env);
    var rest := InputKids(ks, true, INPUT_TAP, x, y, n, env);
    assert rest.kids[n] == rest.kids[n..][0];
  }
}
