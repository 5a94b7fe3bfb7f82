// Properties of the twm Window model: drawability along the tree, redraw's
// result, hide/show as inverses, the queue, and where a tap ends up.
module TwmWindowFacts {
  import opened Geometry
  import opened Messages
  import opened TwmWindows

  // ---------------------------------------------------------------------
  // Drawability

  lemma {:induction false} TDrawableAlongImpliesParent(ws: seq<TWindow>, p: seq<nat>, pd: bool)
    requires TValidPath(ws, p) && TDrawableAlong(ws, p, pd)
    ensures pd && IsDrawable(ws[p[0]], pd)
    decreases p
  {
    if |p| > 1 {
      TDrawableAlongImpliesParent(ws[p[0]].children, p[1..], IsDrawable(ws[p[0]], pd));
    }
  }

  /** The window at the end of a drawable path is visible and alive. */
  lemma {:induction false} TDrawableAlongLast(ws: seq<TWindow>, p: seq<nat>, pd: bool)
    requires TValidPath(ws, p) && TDrawableAlong(ws, p, pd)
    ensures IsVisible(TAt(ws, p)) && IsAlive(TAt(ws, p))
    decreases p
  {
    if |p| > 1 {
      TDrawableAlongLast(ws[p[0]].children, p[1..], IsDrawable(ws[p[0]], pd));
    }
  }

  /** Drawability of a window implies drawability of every ancestor: every
      window on a drawable path is visible and alive. */
  lemma {:induction false} TDrawableAncestors(ws: seq<TWindow>, p: seq<nat>, pd: bool, k: nat)
    requires TValidPath(ws, p) && TDrawableAlong(ws, p, pd) && 1 <= k <= |p|
    ensures TValidPath(ws, p[..k]) && TDrawableAlong(ws, p[..k], pd)
    ensures IsVisible(TAt(ws, p[..k])) && IsAlive(TAt(ws, p[..k]))
    decreases p
  {
    if k == 1 {
      TDrawableAlongImpliesParent(ws, p, pd);
      assert p[..k] == [p[0]];
    } else {
      TDrawableAncestors(ws[p[0]].children, p[1..], IsDrawable(ws[p[0]], pd), k - 1);
      assert p[..k][1..] == p[1..][..k - 1];
    }
    TDrawableAlongLast(ws, p[..k], pd);
  }

  // ---------------------------------------------------------------------
  // redraw

  /** Every window of the subtree is drawable and its onDraw answers true. */
  predicate AllDrawOk(w: TWindow, pd: bool, hooks: THooks)
    decreases w
  {
    IsDrawable(w, pd) && hooks.onDraw(w) &&
    forall i :: 0 <= i < |w.children| ==> AllDrawOk(w.children[i], true, hooks)
  }

  /** redraw() returns true exactly when every window of the subtree is
      drawable and drew. */
  lemma {:induction false} RedrawOkIff(w: TWindow, pd: bool, hooks: THooks)
    ensures Redraw(w, pd, hooks).ok <==> AllDrawOk(w, pd, hooks)
    decreases w, 1
  {
    if IsDrawable(w, pd) {
      RedrawKidsOk(w.children, hooks);
    }
  }

  lemma {:induction false} RedrawKidsOk(ks: seq<TWindow>, hooks: THooks)
    ensures RedrawKids(ks, hooks).ok <==> forall i :: 0 <= i < |ks| ==> AllDrawOk(ks[i], true, hooks)
    decreases ks, 0
  {
    if |ks| > 0 {
      RedrawOkIff(ks[0], true, hooks);
      RedrawKidsOk(ks[1..], hooks);
      assert forall i :: 1 <= i < |ks| ==> ks[i] == ks[1..][i - 1];
    }
  }

  /** Because of `&=`, a hidden child makes its parent's redraw() report
      false, although the parent itself drew: its draw answered true and its
      rect was painted first. */
  lemma HiddenChildFailsRedraw(w: TWindow, i: nat, hooks: THooks)
    requires IsDrawable(w, true) && hooks.onDraw(w)
    requires i < |w.children| && !IsVisible(w.children[i])
    ensures RouteMessage(w, true, TDraw, 0, 0, hooks).ok
    ensures |Redraw(w, true, hooks).painted| > 0 && Redraw(w, true, hooks).painted[0] == w.rect
    ensures !Redraw(w, true, hooks).ok
  {
    RedrawOkIff(w, true, hooks);
  }

  // ---------------------------------------------------------------------
  // hide and show

  lemma VisibleBitRoundTrip(style: Style)
    ensures BitsHigh(style, STY_VISIBLE) ==> (style & !STY_VISIBLE) | STY_VISIBLE == style
    ensures !BitsHigh(style, STY_VISIBLE) ==> (style | STY_VISIBLE) & !STY_VISIBLE == style
  {
  }

  /** show() undoes hide() on a visible window... */
  lemma ShowUndoesHide(w: TWindow, pd: bool, hooks: THooks)
    requires IsVisible(w)
    ensures Hide(w).ok && Show(Hide(w).w, pd, hooks).w == w
  {
    VisibleBitRoundTrip(w.style);
  }

  /** ...and hide() undoes show() on a hidden one. */
  lemma HideUndoesShow(w: TWindow, pd: bool, hooks: THooks)
    requires !IsVisible(w)
    ensures Hide(Show(w, pd, hooks).w).ok && Hide(Show(w, pd, hooks).w).w == w
  {
    VisibleBitRoundTrip(w.style);
  }

  // ---------------------------------------------------------------------
  // The queue

  /** A message queued behind others stays behind them. */
  lemma TQueueIsFifo(w: TWindow, pd: bool, m: TwmPackaged, hooks: THooks)
    requires |w.queue| > 0
    ensures var q := QueueMessage(w, m.msg, m.p1, m.p2).w;
      ProcessQueue(q, pd, hooks).w.queue == w.queue[1..] + [m]
  {
    var q := w.queue + [m];
    assert q[1..] == w.queue[1..] + [m];
  }

  /** processQueue routes at most one message of the window's own queue and
      reports whether any is left. */
  lemma TProcessQueueOnce(w: TWindow, pd: bool, hooks: THooks)
    ensures var s := ProcessQueue(w, pd, hooks);
      |s.w.queue| == (if |w.queue| == 0 then 0 else |w.queue| - 1) && (s.ok <==> |w.queue| > 1)
  {
  }

  // ---------------------------------------------------------------------
  // processInput for a tap

  /** The MSG_INPUT message processInput queues for a tap at (x, y). */
  function TTapMessage(x: Coord, y: Coord): (m: TwmPackaged)
    ensures m.msg == TInput && LoWord(m.p1) == INPUT_TAP
    ensures WordToCoord(HiWord(m.p2)) == x && WordToCoord(LoWord(m.p2)) == y
  {
    InputParamsRoundTrip(x, y);
    TwmPackaged(TInput, MakeMsgParam(0, INPUT_TAP), MakeMsgParam(CoordToWord(x), CoordToWord(y)))
  }

  /** A window takes part in a hit test at (x, y): drawable, with the point
      on or inside its rect. */
  predicate TAccepts(w: TWindow, pd: bool, x: Coord, y: Coord) {
    IsDrawable(w, pd) && PointWithin(w.rect, x, y)
  }

  /** `p` (relative to `w`) leads to the window that claims a tap: every
      window along it accepts, no later sibling of any of them accepts, and
      none of the final window's children accepts. */
  predicate TIsTapTarget(w: TWindow, pd: bool, x: Coord, y: Coord, p: seq<nat>)
    decreases p
  {
    TAccepts(w, pd, x, y) &&
    if |p| == 0 then
      forall i :: 0 <= i < |w.children| ==> !TAccepts(w.children[i], true, x, y)
    else
      p[0] < |w.children| &&
      (forall j :: p[0] < j < |w.children| ==> !TAccepts(w.children[j], true, x, y)) &&
      TIsTapTarget(w.children[p[0]], true, x, y, p[1..])
  }

  /** `w` with message `m` appended to the queue of the window at relative
      path `p`. */
  function TQueueAt(w: TWindow, p: seq<nat>, m: TwmPackaged): TWindow
    decreases p
  {
    if |p| == 0 then w.(queue := w.queue + [m])
    else if p[0] < |w.children| then
      w.(children := w.children[p[0] := TQueueAt(w.children[p[0]], p[1..], m)])
    else w
  }

  /** processInput for a tap: it is claimed exactly when the window accepts
      it; the claimant is the tap target and the tap is queued there and
      nowhere else; an unclaimed tap changes nothing. */
  lemma {:induction false} TTapInput(w: TWindow, pd: bool, x: Coord, y: Coord, hooks: THooks)
    ensures var r := ProcessInput(w, pd, INPUT_TAP, x, y, hooks);
      (r.handled <==> TAccepts(w, pd, x, y)) &&
      (r.handled ==> TIsTapTarget(w, pd, x, y, r.handler) &&
                     r.w == TQueueAt(w, r.handler, TTapMessage(x, y))) &&
      (!r.handled ==> r.w == w)
    decreases w, 1
  {
    if TAccepts(w, pd, x, y) {
      TTapKids(w.children, x, y, |w.children|, hooks);
      TTapInputAccepted(w, pd, x, y, hooks);
    }
  }

  lemma TTapInputAccepted(w: TWindow, pd: bool, x: Coord, y: Coord, hooks: THooks)
    requires TAccepts(w, pd, x, y)
    requires TKidsTapOutcome(w.children, x, y, |w.children|,
                             InputKids(w.children, true, INPUT_TAP, x, y, |w.children|, hooks))
    ensures var r := ProcessInput(w, pd, INPUT_TAP, x, y, hooks);
      r.handled && TIsTapTarget(w, pd, x, y, r.handler) &&
      r.w == TQueueAt(w, r.handler, TTapMessage(x, y))
  {
    var r := ProcessInput(w, pd, INPUT_TAP, x, y, hooks);
    var k := InputKids(w.children, true, INPUT_TAP, x, y, |w.children|, hooks);
    var m := TTapMessage(x, y);
    if k.handled {
      assert r == TInputResult(w.(children := k.kids), true, k.handler);
      var i := k.handler[0];
      assert TQueueAt(w, k.handler, m) == w.(children := w.children[i := TQueueAt(w.children[i], k.handler[1..], m)]);
    } else {
      assert k.kids == w.children;
      UnpackMake(0, INPUT_TAP);
      var q := QueueMessage(w, TInput, MakeMsgParam(0, INPUT_TAP), MakeMsgParam(CoordToWord(x), CoordToWord(y)));
      assert q.ok && q.w == w.(queue := w.queue + [m]);
      assert r == TInputResult(q.w, q.ok, []);
    }
  }

  /** The outcome of the scan over the children below index n for a tap:
      claimed exactly when one of them accepts; the claimant is the topmost
      of those and the message is queued at the tap target under it; an
      unclaimed tap changes nothing. */
  predicate TKidsTapOutcome(ks: seq<TWindow>, x: Coord, y: Coord, n: nat, k: TKidsInputResult)
    requires n <= |ks|
  {
    (k.handled <==> exists i :: 0 <= i < n && TAccepts(ks[i], true, x, y)) &&
    (k.handled ==>
       |k.handler| > 0 && k.handler[0] < n &&
       (forall j :: k.handler[0] < j < n ==> !TAccepts(ks[j], true, x, y)) &&
       TIsTapTarget(ks[k.handler[0]], true, x, y, k.handler[1..]) &&
       k.kids == ks[k.handler[0] := TQueueAt(ks[k.handler[0]], k.handler[1..], TTapMessage(x, y))]) &&
    (!k.handled ==> k.kids == ks)
  }

  /** The tap outcome for the children below index n, tried from n - 1 down. */
  lemma {:induction false} TTapKids(ks: seq<TWindow>, x: Coord, y: Coord, n: nat, hooks: THooks)
    requires n <= |ks|
    ensures TKidsTapOutcome(ks, x, y, n, InputKids(ks, true, INPUT_TAP, x, y, n, hooks))
    decreases ks, 0, n
  {
    var k := InputKids(ks, true, INPUT_TAP, x, y, n, hooks);
    if n == 0 {
      assert k == TKidsInputResult(ks, false, []);
    } else {
      TTapInput(ks[n - 1], true, x, y, hooks);
      var r := ProcessInput(ks[n - 1], true, INPUT_TAP, x, y, hooks);
      if r.handled {
        assert k == TKidsInputResult(ks[n - 1 := r.w], true, [n - 1] + r.handler);
        TTapKidsClaimed(ks, x, y, n, r, k);
      } else {
        TTapKids(ks, x, y, n - 1, hooks);
        var rest := InputKids(ks, true, INPUT_TAP, x, y, n - 1, hooks);
        assert k == TKidsInputResult(rest.kids[n - 1 := r.w], rest.handled, rest.handler);
        TTapKidsPassed(ks, x, y, n, r, rest, k);
      }
    }
  }

  lemma TTapKidsClaimed(ks: seq<TWindow>, x: Coord, y: Coord, n: nat, r: TInputResult, k: TKidsInputResult)
    requires 0 < n <= |ks|
    requires TAccepts(ks[n - 1], true, x, y)
    requires TIsTapTarget(ks[n - 1], true, x, y, r.handler)
    requires r.w == TQueueAt(ks[n - 1], r.handler, TTapMessage(x, y))
    requires k == TKidsInputResult(ks[n - 1 := r.w], true, [n - 1] + r.handler)
    ensures TKidsTapOutcome(ks, x, y, n, k)
  {
    assert k.handler[1..] == r.handler;
  }

  lemma TTapKidsPassed(ks: seq<TWindow>, x: Coord, y: Coord, n: nat, r: TInputResult, rest: TKidsInputResult, k: TKidsInputResult)
    requires 0 < n <= |ks|
    requires !TAccepts(ks[n - 1], true, x, y) && r.w == ks[n - 1]
    requires TKidsTapOutcome(ks, x, y, n - 1, rest)
    requires |rest.kids| == |ks|
    requires k == TKidsInputResult(rest.kids[n - 1 := r.w], rest.handled, rest.handler)
    ensures TKidsTapOutcome(ks, x, y, n, k)
  {
    if rest.handled {
      var i :| 0 <= i < n - 1 && TAccepts(ks[i], true, x, y);
      assert rest.kids[n - 1] == ks[n - 1];
      assert k.kids == rest.kids;
    } else {
      assert k.kids == ks;
    }
  }

  /** One step of the top-down scan over the registry for a tap. */
  lemma TTapKidsStep(ks: seq<TWindow>, x: Coord, y: Coord, n: nat, hooks: THooks)
    requires n < |ks|
    ensures var r := ProcessInput(ks[n], true, INPUT_TAP, x, y, hooks);
      (r.handled ==> InputKids(ks, true, INPUT_TAP, x, y, n + 1, hooks).kids == ks[n := r.w]) &&
      (!r.handled ==> InputKids(ks, true, INPUT_TAP, x, y, n + 1, hooks) == InputKids(ks, true, INPUT_TAP, x, y, n, hooks))
  {
    TTapInput(ks[n], true, x, y, hooks);
    var rest := InputKids(ks, true, INPUT_TAP, x, y, n, hooks);
    assert rest.kids[n] == rest.kids[n..][0];
  }

  // ---------------------------------------------------------------------
  // twm's corner-based overlapsRect

  /** overlapsRect is exactly the negation of outsideRect. */
  lemma TwmOverlapsIffNotOutside(r: Rect, other: Rect)
    ensures TwmOverlapsRect(r, other) <==> !OutsideRect(r, other)
  {
  }

  /** When it holds, the two boxes do share a point. */
  lemma TwmOverlapsMeets(r: Rect, other: Rect)
    requires WellFormed(r) && TwmOverlapsRect(r, other)
    ensures BoxesMeet(r, other)
  {
  }

  /** It misses overlaps where no corner of either rect lies in the other:
      two bars crossing in a plus sign. */
  lemma TwmOverlapsMissesCross()
    ensures var r := Rect(0, 4, 10, 6);
      var other := Rect(4, 0, 6, 10);
      BoxesMeet(r, other) && !TwmOverlapsRect(r, other) && !TwmOverlapsRect(other, r)
  {
  }
}
