// The older twm engine's WindowManager (include/twm.h, class WindowManager).
//
// The manager owns the registry of top-level windows (a TwmWindowContainer)
// and its screensaver fields, all updated in place. millis() is passed in as
// `now`. twm draws straight into the graphics context while windows are
// being redrawn, so what update() draws is logged as TwmOp values: the
// theme's screensaver, the desktop background, and the rect of each window
// whose onDraw ran.
module TwmManager {
  import opened Geometry
  import opened Messages
  import opened TwmWindows
  import opened TwmContainer
  import opened TwmWindowFacts
  import ManagerSpec

  datatype TwmOp = PaintScreensaver | PaintDesktop | PaintWindow(rect: Rect)

  /** The rect createWindow gives a new window: (0, 0, display width,
      display height) for STY_FULLSCREEN, else (x, y, x + width, y + height),
      through the Rect constructor. */
  function TwmCreateRect(style: Style, x: Coord, y: Coord, width: Extent, height: Extent,
                         displayWidth: Extent, displayHeight: Extent): (r: Rect)
    ensures BitsHigh(style, STY_FULLSCREEN) ==> r == MakeRect(0, 0, displayWidth, displayHeight)
    ensures !BitsHigh(style, STY_FULLSCREEN) ==> r.left == x && r.top == y
    ensures !BitsHigh(style, STY_FULLSCREEN) && x + width < 0x8000 && y + height < 0x8000 ==>
      r == Rect(x, y, x + width, y + height)
  {
    if BitsHigh(style, STY_FULLSCREEN) then MakeRect(0, 0, displayWidth, displayHeight)
    else MakeRect(x, y, x + width, y + height)
  }

  /** The refusals createWindow decides before MSG_CREATE. twm's window
      constructor asserts nothing, so a parentless window need not be
      STY_TOPLEVEL. */
  predicate TwmCreateRefused(hasParent: bool, id: WindowID, style: Style, preCreateOk: bool) {
    id == WID_INVALID ||
    (BitsHigh(style, STY_CHILD) && !hasParent) ||
    (BitsHigh(style, STY_TOPLEVEL) && hasParent) ||
    !preCreateOk
  }

  /** A window as createWindow inserts it: the id, style and rect asked for,
      STA_ALIVE set, nothing queued, no children. */
  function CreatedWindow(id: WindowID, style: Style, rect: Rect): (w: TWindow)
    ensures IsAlive(w) && !w.state.checked && w.queue == [] && w.children == []
    ensures w.id == id && w.style == style && w.rect == rect
  {
    NewTWindow(id, style, rect).(state := TwmState(true, false))
  }

  function PaintOps(rs: seq<Rect>): (ops: seq<TwmOp>)
    ensures |ops| == |rs|
    ensures forall k :: 0 <= k < |rs| ==> ops[k] == PaintWindow(rs[k])
  {
    if |rs| == 0 then [] else [PaintWindow(rs[0])] + PaintOps(rs[1..])
  }

  // ---------------------------------------------------------------------
  // update()

  /** Some top-level window has STY_FULLSCREEN. */
  predicate AnyFullscreen(ks: seq<TWindow>) {
    exists j :: 0 <= j < |ks| && BitsHigh(ks[j].style, STY_FULLSCREEN)
  }

  /** A later (higher) top-level window is drawable and `r` lies within its
      rect. */
  predicate CoveredAbove(ks: seq<TWindow>, i: nat, r: Rect) {
    exists j :: i < j < |ks| && IsDrawable(ks[j], true) && WithinRect(r, ks[j].rect)
  }

  /** What update() does to one top-level window and draws for it. */
  datatype TPass = TPass(w: TWindow, ops: seq<TwmOp>)

  /** The window at index i: its queue drained; then, unless the drained
      window is not drawable, lies within a later drawable window (those are
      not yet drained) or is outside the display, it is redrawn. */
  function UpdateWindow(ks: seq<TWindow>, i: nat, display: Rect, hooks: THooks): (p: TPass)
    requires i < |ks|
    ensures p.w == Drain(ks[i], true, hooks)
  {
    var d := Drain(ks[i], true, hooks);
    if !IsDrawable(d, true) || CoveredAbove(ks, i, ks[i].rect) || OutsideRect(ks[i].rect, display) then
      TPass(d, [])
    else
      TPass(d, PaintOps(Redraw(d, true, hooks).painted))
  }

  /** The first n top-level windows after update(): each one drained. */
  function UpdateKids(ks: seq<TWindow>, n: nat, display: Rect, hooks: THooks): (r: seq<TWindow>)
    requires n <= |ks|
    ensures |r| == n
  {
    if n == 0 then [] else UpdateKids(ks, n - 1, display, hooks) + [Drain(ks[n - 1], true, hooks)]
  }

  /** What update() draws for the first n top-level windows: window paints
      only. */
  function UpdateOps(ks: seq<TWindow>, n: nat, display: Rect, hooks: THooks): (ops: seq<TwmOp>)
    requires n <= |ks|
    ensures forall k :: 0 <= k < |ops| ==> ops[k].PaintWindow?
  {
    if n == 0 then [] else UpdateOps(ks, n - 1, display, hooks) + UpdateWindow(ks, n - 1, display, hooks).ops
  }

  /** The outcome of one update(): the screensaver flags, the top-level
      windows and what was drawn. */
  datatype TwmFrame = TwmFrame(saver: ManagerSpec.SaverState, kids: seq<TWindow>, ops: seq<TwmOp>)

  /** update(): the screensaver flag step; while active, the screensaver is
      drawn once and the windows are left alone; otherwise the desktop is
      drawn unless a top-level window is STY_FULLSCREEN, and every top-level
      window is updated in order. */
  function UpdateFrame(s: ManagerSpec.SaverState, epoch: Millis, after: Millis, now: Millis,
                       ks: seq<TWindow>, display: Rect, hooks: THooks): TwmFrame
  {
    var s1 := ManagerSpec.SaverStep(s, epoch, after, now);
    if s1.active then
      if !s1.drawn then TwmFrame(s1.(drawn := true), ks, [PaintScreensaver]) else TwmFrame(s1, ks, [])
    else
      var desktop := if AnyFullscreen(ks) then [] else [PaintDesktop];
      TwmFrame(s1, UpdateKids(ks, |ks|, display, hooks), desktop + UpdateOps(ks, |ks|, display, hooks))
  }

  class TwmWindowManager {
    const displayWidth: Extent
    const displayHeight: Extent
    const hooks: THooks
    const registry: TwmWindowContainer
    var saver: ManagerSpec.SaverState
    var ssaverEpoch: Millis
    var ssaverActivateAfter: Millis
    /** What has been drawn so far. */
    var log: seq<TwmOp>

    /** Rect(0, 0, display width, display height). */
    function DisplayRect(): Rect {
      MakeRect(0, 0, displayWidth, displayHeight)
    }

    /** The constructor: an empty registry, state 0, epoch and timeout 0. */
    constructor (displayWidth: Extent, displayHeight: Extent, hooks: THooks)
      ensures this.displayWidth == displayWidth && this.displayHeight == displayHeight && this.hooks == hooks
      ensures fresh(registry) && registry.children == []
      ensures saver == ManagerSpec.SaverState(false, false, false) && log == []
      ensures ssaverEpoch == 0 && ssaverActivateAfter == 0
    {
      this.displayWidth := displayWidth;
      this.displayHeight := displayHeight;
      this.hooks := hooks;
      registry := new TwmWindowContainer();
      saver := ManagerSpec.SaverState(false, false, false);
      ssaverEpoch := 0;
      ssaverActivateAfter := 0;
      log := [];
    }

    /** enableScreensaver: the timeout and epoch set, ENABLED raised. */
    method EnableScreensaver(activateAfter: Millis, now: Millis)
      modifies this
      ensures ssaverActivateAfter == activateAfter && ssaverEpoch == now
      ensures saver == old(saver).(enabled := true) && log == old(log)
    {
      ssaverActivateAfter := activateAfter;
      ssaverEpoch := now;
      saver := saver.(enabled := true);
    }

    /** disableScreensaver: ENABLED, ACTIVE and DRAWN cleared. */
    method DisableScreensaver()
      modifies this
      ensures saver == ManagerSpec.SaverState(false, false, false)
      ensures ssaverEpoch == old(ssaverEpoch) && ssaverActivateAfter == old(ssaverActivateAfter)
      ensures log == old(log)
    {
      saver := ManagerSpec.SaverState(false, false, false);
    }

    /** tearDown: every top-level window destroyed (the default onDestroy
        draws nothing), then the registry emptied. */
    method TearDown()
      modifies registry
      ensures registry.children == []
    {
      registry.RemoveAllChildren();
    }

    /** createWindow: refused (null, nothing inserted, nothing drawn) for
        WID_INVALID, STY_CHILD without a parent, STY_TOPLEVEL with a parent,
        a failing pre-create hook, a refused MSG_CREATE and a duplicate
        sibling id. Otherwise the window is appended to its parent's children
        (or the registry), only then made alive, and redrawn; the result is
        its path. */
    method CreateWindow(parent: Option<seq<nat>>, id: WindowID, style: Style, x: Coord, y: Coord,
                        width: Extent, height: Extent, preCreateOk: bool) returns (created: Option<seq<nat>>)
      requires parent.Some? ==> TValidPath(registry.children, parent.value)
      modifies this, registry
      ensures saver == old(saver) && ssaverEpoch == old(ssaverEpoch) && ssaverActivateAfter == old(ssaverActivateAfter)
      ensures var rect := TwmCreateRect(style, x, y, width, height, displayWidth, displayHeight);
        var siblings := if parent.Some? then TAt(old(registry.children), parent.value).children else old(registry.children);
        created.Some? <==>
          !TwmCreateRefused(parent.Some?, id, style, preCreateOk) &&
          hooks.onCreate(NewTWindow(id, style, rect)) && TFind(siblings, id) < 0
      ensures created.None? ==> registry.children == old(registry.children) && log == old(log)
      ensures var w := CreatedWindow(id, style, TwmCreateRect(style, x, y, width, height, displayWidth, displayHeight));
        parent.None? && created.Some? ==>
          created.value == [|old(registry.children)|] &&
          registry.children == old(registry.children) + [w] &&
          log == old(log) + PaintOps(Redraw(w, true, hooks).painted)
      ensures var w := CreatedWindow(id, style, TwmCreateRect(style, x, y, width, height, displayWidth, displayHeight));
        parent.Some? && created.Some? ==>
          var pw := TAt(old(registry.children), parent.value);
          created.value == parent.value + [|pw.children|] &&
          registry.children == TReplaceAt(old(registry.children), parent.value, pw.(children := pw.children + [w])) &&
          log == old(log) + PaintOps(Redraw(w, TDrawableAlong(old(registry.children), parent.value, true), hooks).painted)
    {
      if id == WID_INVALID {
        return None;
      }
      var rect := TwmCreateRect(style, x, y, width, height, displayWidth, displayHeight);
      var win := NewTWindow(id, style, rect);
      if BitsHigh(style, STY_CHILD) && parent.None? {
        return None;
      }
      if BitsHigh(style, STY_TOPLEVEL) && parent.Some? {
        return None;
      }
      if !preCreateOk {
        return None;
      }
      if !RouteMessage(win, true, TCreate, 0, 0, hooks).ok {
        return None;
      }
      var w := CreatedWindow(id, style, rect);
      var pd := true;
      if parent.None? {
        var added := registry.AddChild(win);
        if !added {
          return None;
        }
        registry.children := registry.children[|registry.children| - 1 := w];
        created := Some([|registry.children| - 1]);
      } else {
        var ks := registry.children;
        var pw := TAt(ks, parent.value);
        if TFind(pw.children, id) >= 0 {
          return None;
        }
        pd := TDrawableAlong(ks, parent.value, true);
        registry.children := TReplaceAt(ks, parent.value, pw.(children := pw.children + [w]));
        created := Some(parent.value + [|pw.children|]);
      }
      // MSG_RESIZE for STY_AUTOSIZE reaches onResize, which changes nothing
      // here; then redraw().
      log := log + PaintOps(Redraw(w, pd, hooks).painted);
    }

    /** hitTest: with the screensaver enabled any tap restarts its countdown,
        and while it is active the tap goes nowhere. Otherwise the top-level
        windows are offered the tap from the topmost down until one claims
        it. */
    method HitTest(x: Coord, y: Coord, now: Millis)
      modifies this, registry
      ensures saver == old(saver) && log == old(log) && ssaverActivateAfter == old(ssaverActivateAfter)
      ensures ssaverEpoch == if saver.enabled then now else old(ssaverEpoch)
      ensures saver.enabled && saver.active ==> registry.children == old(registry.children)
      ensures !(saver.enabled && saver.active) ==>
        registry.children == InputKids(old(registry.children), true, INPUT_TAP, x, y, |old(registry.children)|, hooks).kids
    {
      if saver.enabled {
        ssaverEpoch := now;
        if saver.active {
          return;
        }
      }
      var kids := OfferTap(registry.children, x, y);
      registry.children := kids;
    }

    /** hitTest's loop over the registry, from the topmost window down. */
    method OfferTap(ks: seq<TWindow>, x: Coord, y: Coord) returns (kids: seq<TWindow>)
      ensures kids == InputKids(ks, true, INPUT_TAP, x, y, |ks|, hooks).kids
    {
      kids := ks;
      var n := |ks|;
      while n > 0
        invariant 0 <= n <= |ks|
        invariant InputKids(ks, true, INPUT_TAP, x, y, |ks|, hooks) == InputKids(ks, true, INPUT_TAP, x, y, n, hooks)
      {
        n := n - 1;
        TTapKidsStep(ks, x, y, n, hooks);
        var r := ProcessInput(ks[n], true, INPUT_TAP, x, y, hooks);
        if r.handled {
          return ks[n := r.w];
        }
      }
    }

    /** update(): the flag step and the drawing decided on values, then the
        new flags, windows and log stored. */
    method Update(now: Millis)
      modifies this, registry
      ensures var f := UpdateFrame(old(saver), old(ssaverEpoch), old(ssaverActivateAfter), now,
                                   old(registry.children), DisplayRect(), hooks);
        saver == f.saver && registry.children == f.kids && log == old(log) + f.ops
      ensures ssaverEpoch == old(ssaverEpoch) && ssaverActivateAfter == old(ssaverActivateAfter)
    {
      var f := UpdateValues(saver, ssaverEpoch, ssaverActivateAfter, now, registry.children);
      saver := f.saver;
      registry.children := f.kids;
      log := log + f.ops;
    }

    /** The body of update() on values. */
    method UpdateValues(s: ManagerSpec.SaverState, epoch: Millis, after: Millis, now: Millis, ks: seq<TWindow>)
      returns (f: TwmFrame)
      ensures f == UpdateFrame(s, epoch, after, now, ks, DisplayRect(), hooks)
    {
      var s1 := ManagerSpec.SaverStep(s, epoch, after, now);
      if s1.active {
        if !s1.drawn {
          return TwmFrame(s1.(drawn := true), ks, [PaintScreensaver]);
        }
        return TwmFrame(s1, ks, []);
      }
      var ops := [];
      var full := HasFullscreen(ks);
      if !full {
        ops := [PaintDesktop];
      }
      var kids, painted := UpdateAll(ks);
      return TwmFrame(s1, kids, ops + painted);
    }

    /** The first loop of update(): whether a top-level window is
        STY_FULLSCREEN. */
    method HasFullscreen(ks: seq<TWindow>) returns (full: bool)
      ensures full == AnyFullscreen(ks)
    {
      var i := 0;
      while i < |ks|
        invariant 0 <= i <= |ks|
        invariant forall j :: 0 <= j < i ==> !BitsHigh(ks[j].style, STY_FULLSCREEN)
      {
        if BitsHigh(ks[i].style, STY_FULLSCREEN) {
          return true;
        }
        i := i + 1;
      }
      return false;
    }

    /** The second loop of update(): every top-level window in order. */
    method UpdateAll(ks: seq<TWindow>) returns (kids: seq<TWindow>, ops: seq<TwmOp>)
      ensures kids == UpdateKids(ks, |ks|, DisplayRect(), hooks)
      ensures ops == UpdateOps(ks, |ks|, DisplayRect(), hooks)
    {
      kids := [];
      ops := [];
      var i := 0;
      while i < |ks|
        invariant 0 <= i <= |ks|
        invariant kids == UpdateKids(ks, i, DisplayRect(), hooks)
        invariant ops == UpdateOps(ks, i, DisplayRect(), hooks)
      {
        var p := UpdateOne(ks, i);
        kids := kids + [p.w];
        ops := ops + p.ops;
        i := i + 1;
      }
    }

    /** The body of that loop for the window at index i. */
    method UpdateOne(ks: seq<TWindow>, i: nat) returns (p: TPass)
      requires i < |ks|
      ensures p == UpdateWindow(ks, i, DisplayRect(), hooks)
    {
      var d := DrainWindow(ks[i]);
      if !IsDrawable(d, true) {
        return TPass(d, []);
      }
      var covered := ScanAbove(ks, i, ks[i].rect);
      if covered || OutsideRect(ks[i].rect, DisplayRect()) {
        return TPass(d, []);
      }
      return TPass(d, PaintOps(Redraw(d, true, hooks).painted));
    }

    /** `while (win->processQueue());` */
    method DrainWindow(w: TWindow) returns (d: TWindow)
      ensures d == Drain(w, true, hooks)
    {
      var s := ProcessQueue(w, true, hooks);
      while s.ok
        invariant s.ok <==> |s.w.queue| > 0
        invariant Drain(w, true, hooks) == (if s.ok then Drain(s.w, true, hooks) else s.w)
        decreases |s.w.queue|
      {
        s := ProcessQueue(s.w, true, hooks);
      }
      return s.w;
    }

    /** The inner reverse loop of update(): from the topmost window down to
        (not including) the one at index i, whether a drawable one holds `r`
        within its rect. */
    method ScanAbove(ks: seq<TWindow>, i: nat, r: Rect) returns (covered: bool)
      requires i < |ks|
      ensures covered == CoveredAbove(ks, i, r)
    {
      var j := |ks|;
      while j > i + 1
        invariant i + 1 <= j <= |ks|
        invariant forall k :: j <= k < |ks| ==> !(IsDrawable(ks[k], true) && WithinRect(r, ks[k].rect))
      {
        j := j - 1;
        if IsDrawable(ks[j], true) && WithinRect(r, ks[j].rect) {
          return true;
        }
      }
      return false;
    }
  }
}
