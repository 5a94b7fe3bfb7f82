// What twm's update() guarantees, stated on UpdateFrame (module TwmManager):
// queues drained, covered and off-screen windows skipped, the desktop drawn
// only without a full-screen window, and the screensaver drawn once per
// activation.
module TwmManagerFacts {
  import opened Geometry
  import opened Messages
  import opened TwmWindows
  import opened TwmManager
  import ManagerSpec

  /** After update() every top-level window's queue is empty and its id,
      style and rect are those it had. */
  lemma {:induction false} UpdateKidsDrained(ks: seq<TWindow>, n: nat, display: Rect, hooks: THooks)
    requires n <= |ks|
    ensures var r := UpdateKids(ks, n, display, hooks);
      forall k :: 0 <= k < n ==>
        r[k].queue == [] && r[k].id == ks[k].id && r[k].style == ks[k].style && r[k].rect == ks[k].rect
  {
    if n > 0 {
      UpdateKidsDrained(ks, n - 1, display, hooks);
      var r := UpdateKids(ks, n, display, hooks);
      var r0 := UpdateKids(ks, n - 1, display, hooks);
      assert r == r0 + [Drain(ks[n - 1], true, hooks)];
      forall k | 0 <= k < n
        ensures r[k].queue == [] && r[k].id == ks[k].id && r[k].style == ks[k].style && r[k].rect == ks[k].rect
      {
        if k < n - 1 {
          assert r[k] == r0[k];
        } else {
          assert r[k] == Drain(ks[n - 1], true, hooks);
        }
      }
    }
  }

  /** A top-level window is redrawn exactly when, once drained, it is
      drawable, no later drawable window holds it within its rect and it is
      not outside the display; its own rect is painted first. */
  lemma UpdateWindowRedrawn(ks: seq<TWindow>, i: nat, display: Rect, hooks: THooks)
    requires i < |ks|
    ensures var p := UpdateWindow(ks, i, display, hooks);
      (|p.ops| > 0 <==>
         IsDrawable(Drain(ks[i], true, hooks), true) &&
         !CoveredAbove(ks, i, ks[i].rect) && !OutsideRect(ks[i].rect, display)) &&
      (|p.ops| > 0 ==> p.ops[0] == PaintWindow(ks[i].rect))
  {
  }

  /** A window within a later drawable top-level window, or outside the
      display, is not redrawn. */
  lemma CoveredNotRedrawn(ks: seq<TWindow>, i: nat, j: nat, display: Rect, hooks: THooks)
    requires i < j < |ks|
    requires (IsDrawable(ks[j], true) && WithinRect(ks[i].rect, ks[j].rect)) || OutsideRect(ks[i].rect, display)
    ensures UpdateWindow(ks, i, display, hooks).ops == []
  {
    assert IsDrawable(ks[j], true) && WithinRect(ks[i].rect, ks[j].rect) ==> CoveredAbove(ks, i, ks[i].rect);
  }

  /** When the screensaver is not active, the desktop background is drawn
      exactly when no top-level window is STY_FULLSCREEN, and it is drawn
      first; every top-level window is drained. */
  lemma DesktopIffNoFullscreen(s: ManagerSpec.SaverState, epoch: Millis, after: Millis, now: Millis,
                               ks: seq<TWindow>, display: Rect, hooks: THooks)
    requires !ManagerSpec.SaverStep(s, epoch, after, now).active
    ensures var f := UpdateFrame(s, epoch, after, now, ks, display, hooks);
      (PaintDesktop in f.ops <==> !AnyFullscreen(ks)) &&
      (!AnyFullscreen(ks) ==> f.ops[0] == PaintDesktop) &&
      |f.kids| == |ks| && forall k :: 0 <= k < |ks| ==> f.kids[k].queue == []
  {
    var ops := UpdateOps(ks, |ks|, display, hooks);
    assert PaintDesktop !in ops;
    UpdateKidsDrained(ks, |ks|, display, hooks);
  }

  /** Once the timeout has passed, the screensaver is drawn by the first
      update() unless already drawn, and never by the next; the windows are
      left alone by both. */
  lemma SaverDrawnOnce(s: ManagerSpec.SaverState, epoch: Millis, after: Millis, now1: Millis, now2: Millis,
                       ks: seq<TWindow>, display: Rect, hooks: THooks)
    requires s.enabled && Elapsed(now1, epoch) >= after && Elapsed(now2, epoch) >= after
    ensures var f1 := UpdateFrame(s, epoch, after, now1, ks, display, hooks);
      var f2 := UpdateFrame(f1.saver, epoch, after, now2, f1.kids, display, hooks);
      f1.saver == ManagerSpec.SaverState(true, true, true) && f2.saver == f1.saver &&
      f1.ops == (if s.drawn then [] else [PaintScreensaver]) && f2.ops == [] &&
      f1.kids == ks && f2.kids == ks
  {
  }

  /** A tap restarts the countdown (hitTest sets the epoch to `now`), so the
      next update() at that time deactivates an active screensaver, clears
      DRAWN and updates the windows again. */
  lemma TapWakesScreensaver(s: ManagerSpec.SaverState, after: Millis, now: Millis,
                            ks: seq<TWindow>, display: Rect, hooks: THooks)
    requires s.enabled && s.active && after > 0
    ensures var f := UpdateFrame(s, now, after, now, ks, display, hooks);
      f.saver == s.(active := false, drawn := false) &&
      f.kids == UpdateKids(ks, |ks|, display, hooks)
  {
    assert Elapsed(now, now) == 0;
  }

  /** Coverage is decided on the windows above before their own queues are
      drained: a window above that is about to process MSG_DESTROY still
      hides the one below, and then is not drawn itself, so neither is
      redrawn in that update(). */
  lemma DoomedWindowStillCovers(hooks: THooks)
    ensures var below := CreatedWindow(1, STY_VISIBLE, Rect(10, 10, 20, 20));
      var above := CreatedWindow(2, STY_VISIBLE, Rect(0, 0, 100, 100)).(queue := [TwmPackaged(TDestroy, 0, 0)]);
      var ks := [below, above];
      var display := Rect(0, 0, 320, 240);
      IsDrawable(Drain(below, true, hooks), true) && !OutsideRect(below.rect, display) &&
      !IsAlive(Drain(above, true, hooks)) &&
      UpdateOps(ks, 2, display, hooks) == []
  {
    var below := CreatedWindow(1, STY_VISIBLE, Rect(10, 10, 20, 20));
    var above := CreatedWindow(2, STY_VISIBLE, Rect(0, 0, 100, 100)).(queue := [TwmPackaged(TDestroy, 0, 0)]);
    var ks := [below, above];
    var display := Rect(0, 0, 320, 240);
    var s0 := ProcessQueue(below, true, hooks);
    assert s0.w == below && !s0.ok;
    assert Drain(below, true, hooks) == below;
    var s1 := ProcessQueue(above, true, hooks);
    assert s1.w == above.(queue := [], state := TwmState(false, false)) && !s1.ok;
    assert Drain(above, true, hooks) == s1.w;
    assert CoveredAbove(ks, 0, below.rect) by {
      assert BitsHigh(STY_VISIBLE, STY_VISIBLE);
      assert IsDrawable(ks[1], true) && WithinRect(below.rect, ks[1].rect);
    }
    assert UpdateWindow(ks, 0, display, hooks).ops == [];
    assert UpdateWindow(ks, 1, display, hooks).ops == [];
    assert UpdateOps(ks, 1, display, hooks) == UpdateOps(ks, 0, display, hooks) + UpdateWindow(ks, 0, display, hooks).ops;
    assert UpdateOps(ks, 2, display, hooks) == UpdateOps(ks, 1, display, hooks) + UpdateWindow(ks, 1, display, hooks).ops;
  }
}
