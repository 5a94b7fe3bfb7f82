// The exostra WindowManager (include/exostra.h, class WindowManager).
//
// The manager owns the registry of top-level windows (a WindowContainer) and
// its own state fields, all updated in place. millis() is passed in as
// `now`; the display is reduced to its size and a log of the operations
// render() issues; the theme's screensaver drawing is one log entry.
module Manager {
  import opened Geometry
  import opened Messages
  import opened Windows
  import opened WindowTree
  import opened Container
  import opened WindowFacts
  import opened ManagerSpec

  /** The rect createWindow gives a new window: the display for
      STY_FULLSCREEN, else (x, y, x + width, y + height) through the Rect
      constructor. */
  function CreateRect(style: Style, x: Coord, y: Coord, width: Extent, height: Extent, display: Rect): (r: Rect)
    ensures BitsHigh(style, STY_FULLSCREEN) ==> r == MakeRect(0, 0, Width(display), Height(display))
    ensures !BitsHigh(style, STY_FULLSCREEN) ==> r.left == x && r.top == y
  {
    if BitsHigh(style, STY_FULLSCREEN) then MakeRect(0, 0, Width(display), Height(display))
    else MakeRect(x, y, x + width, y + height)
  }

  /** The refusals createWindow decides before routing MSG_CREATE. A window
      with no parent that lacks the STY_TOPLEVEL bits fails the window
      constructor's parent assertion; it is treated as one more refusal. */
  predicate CreateRefused(hasParent: bool, id: WindowID, style: Style, preCreateOk: bool) {
    id == WID_INVALID ||
    (!hasParent && !BitsHigh(style, STY_TOPLEVEL)) ||
    (BitsHigh(style, STY_CHILD) && !hasParent) ||
    (BitsHigh(style, STY_TOPLEVEL) && hasParent) ||
    !preCreateOk
  }

  /** The window tree with `s` applied at `p`: the window replaced, and the
      rects it marked applied to its parent in order. */
  function Commit(ws: seq<Window>, p: Path, s: Step): (r: seq<Window>)
    requires ValidPath(ws, p)
    ensures |r| == |ws|
    ensures |p| == 1 ==> r == ws[p[0] := s.w]
  {
    ReplaceAtGet(ws, p, s.w);
    MarkParent(ReplaceAt(ws, p, s.w), p, s.marks)
  }

  /** A window as createWindow leaves it: the id, style and rect asked
      for, alive, with nothing queued and no children. */
  predicate IsCreated(w: Window, id: WindowID, style: Style, rect: Rect) {
    w.id == id && w.style == style && w.rect == rect && IsAlive(w) && w.queue == [] && w.children == []
  }

  /** What createWindow does once the window is inserted: MSG_RESIZE when
      its style has STY_AUTOSIZE, then redraw(). The result carries the
      rects both mark on the parent. */
  function AfterInsert(w: Window, pd: bool, env: Env): (s: Step)
    ensures s.w.id == w.id && s.w.style == w.style && s.w.rect == w.rect && s.w.queue == w.queue
    ensures |s.w.children| == |w.children| && IsAlive(s.w) == IsAlive(w)
  {
    var rs := if BitsHigh(w.style, STY_AUTOSIZE) then RouteMessage(w, pd, MsgResize, 0, 0, env)
              else Step(w, false, []);
    RouteOthersKeepAlive(w, pd, MsgResize, 0, 0, env);
    var rd := Redraw(rs.w, pd, false, env);
    RedrawClearsDirty(rs.w, pd, false, env);
    Step(rd.w, false, rs.marks + rd.marks)
  }

  /** show() on the window itself once setForegroundWindow has answered
      `shown`: STY_VISIBLE set through setStyle and, if shown, setDirty(true),
      which flags the window dirty and answers with its redraw. */
  function ShowWindow(w: Window, pd: bool, shown: bool, env: Env): (s: Step)
    ensures s.w.id == w.id && s.w.zOrder == w.zOrder && s.w.style == w.style | STY_VISIBLE
    ensures s.w.rect == w.rect && s.w.queue == w.queue
    ensures |s.w.children| == |w.children| && IsAlive(s.w) == IsAlive(w)
  {
    var s1 := SetStyle(w, pd, w.style | STY_VISIBLE, env);
    var s2 := if shown then Redraw(SetDirtyBit(s1.w), pd, false, env) else Step(s1.w, false, []);
    Step(s2.w, s2.ok, s1.marks + s2.marks)
  }

  /** show()'s answer: true only when setForegroundWindow did not refuse and
      the window, now visible, can be drawn; and true whenever it then paints
      itself. */
  lemma ShowWindowOk(w: Window, pd: bool, shown: bool, env: Env)
    ensures ShowWindow(w, pd, shown, env).ok ==>
      shown && pd && IsAlive(w) && !IsEmpty(w.rect) && !OutsideRect(w.rect, env.display)
    ensures (shown && pd && IsAlive(w) && !IsEmpty(w.rect) && !OutsideRect(w.rect, env.display) &&
             env.hooks.onDraw(SetDirtyBit(SetStyle(w, pd, w.style | STY_VISIBLE, env).w), 0)) ==>
      ShowWindow(w, pd, shown, env).ok
  {
    var s1 := SetStyle(w, pd, w.style | STY_VISIBLE, env);
    var v := SetDirtyBit(s1.w);
    var d := Redraw(v, pd, false, env);
    assert ShowWindow(w, pd, shown, env).ok == (shown && d.ok);
    assert v.rect == w.rect && IsAlive(v) == IsAlive(w);
    RedrawOkDrawable(v, pd, false, env);
    if shown && pd && IsAlive(w) && !IsEmpty(w.rect) && !OutsideRect(w.rect, env.display) && env.hooks.onDraw(v, 0) {
      RedrawPaintedOk(v, pd, env);
    }
  }

  /** The new window tree and the answer of show(). */
  datatype ShowOutcome = ShowOutcome(kids: seq<Window>, ok: bool)

  /** show() of the window at `p` in the tree `ks`, whose parent's
      drawability is `pd`: nothing for a visible window that is not
      top-level; otherwise a top-level window is first moved to the end by
      setForegroundWindow (refused for one with a parent), then ShowWindow,
      its marks applied to the parent. */
  function ShowTree(ks: seq<Window>, p: Path, pd: bool, env: Env): ShowOutcome
    requires ValidPath(ks, p)
  {
    var w := At(ks, p);
    var top := BitsHigh(w.style, STY_TOPLEVEL);
    if !top && IsVisible(w) then ShowOutcome(ks, false)
    else if top && |p| == 1 && Find(ks, w.id) >= 0 then
      // brought to the foreground: last in the registry, renumbered
      var ks1 := Renumbered(Without(ks, Find(ks, w.id)) + [w]);
      var s := ShowWindow(ks1[|ks| - 1], true, true, env);
      ShowOutcome(Commit(ks1, [|ks| - 1], s), s.ok)
    else
      // setForegroundWindow refuses a top-level window with a parent
      var s := ShowWindow(w, pd, !top, env);
      ShowOutcome(Commit(ks, p, s), s.ok)
  }

  /** show() leaves a visible window that is not top-level alone and
      answers false. */
  lemma ShowVisibleRefused(ks: seq<Window>, p: Path, pd: bool, env: Env)
    requires ValidPath(ks, p)
    requires !BitsHigh(At(ks, p).style, STY_TOPLEVEL) && IsVisible(At(ks, p))
    ensures ShowTree(ks, p, pd, env) == ShowOutcome(ks, false)
  {
  }

  /** show() of a hidden window that is not top-level sets STY_VISIBLE in
      place, keeping its id, rect and children, and touches no other
      top-level window; a true answer means the window can now be drawn. */
  lemma ShowHidden(ks: seq<Window>, p: Path, pd: bool, env: Env)
    requires ValidPath(ks, p)
    requires !BitsHigh(At(ks, p).style, STY_TOPLEVEL) && !IsVisible(At(ks, p))
    ensures var w := At(ks, p); var r := ShowTree(ks, p, pd, env);
      ValidPath(r.kids, p) &&
      At(r.kids, p).id == w.id && At(r.kids, p).style == w.style | STY_VISIBLE &&
      At(r.kids, p).rect == w.rect && |At(r.kids, p).children| == |w.children| &&
      (forall j :: 0 <= j < |ks| && j != p[0] ==> r.kids[j] == ks[j]) &&
      (r.ok ==> pd && IsAlive(w) && !IsEmpty(w.rect) &&
                !OutsideRect(w.rect, env.display))
  {
    var w := At(ks, p);
    var s := ShowWindow(w, pd, !BitsHigh(w.style, STY_TOPLEVEL), env);
    ReplaceMarkAt(ks, p, s.w, s.marks);
    ShowWindowOk(w, pd, !BitsHigh(w.style, STY_TOPLEVEL), env);
  }

  /** show() of a top-level window brings it to the foreground: it ends up
      last, with STY_VISIBLE set; a true answer means it can now be drawn. */
  lemma ShowTopLevel(ks: seq<Window>, p: Path, pd: bool, env: Env)
    requires ValidPath(ks, p) && |p| == 1 && BitsHigh(At(ks, p).style, STY_TOPLEVEL)
    ensures var w := At(ks, p); var r := ShowTree(ks, p, pd, env);
      |r.kids| == |ks| &&
      r.kids[|ks| - 1].id == w.id && r.kids[|ks| - 1].style == w.style | STY_VISIBLE &&
      (r.ok ==> IsAlive(w) && !IsEmpty(w.rect) && !OutsideRect(w.rect, env.display))
  {
    var w := ks[p[0]];
    assert Find(ks, w.id) >= 0;
    var ks1 := Renumbered(Without(ks, Find(ks, w.id)) + [w]);
    var q := [|ks| - 1];
    assert At(ks1, q) == ks1[|ks| - 1] == w.(zOrder := (|ks| - 1) % 0x100);
    var s := ShowWindow(ks1[|ks| - 1], true, true, env);
    ShowWindowOk(ks1[|ks| - 1], true, true, env);
  }

  /** show() of a top-level window that has a parent is refused by
      setForegroundWindow, but STY_VISIBLE is still set. */
  lemma ShowWithParentRefused(ks: seq<Window>, p: Path, pd: bool, env: Env)
    requires ValidPath(ks, p) && |p| > 1 && BitsHigh(At(ks, p).style, STY_TOPLEVEL)
    ensures var r := ShowTree(ks, p, pd, env);
      !r.ok && ValidPath(r.kids, p) && At(r.kids, p).style == At(ks, p).style | STY_VISIBLE
  {
    var w := At(ks, p);
    var s := ShowWindow(w, pd, !BitsHigh(w.style, STY_TOPLEVEL), env);
    ReplaceMarkAt(ks, p, s.w, s.marks);
  }

  /** destroy() of the top-level window at `i`, with the rects its subtree
      marks applied, leaves it dead and childless and keeps the dead windows
      before it as they were. */
  lemma DestroyKeepsDead(ks: seq<Window>, i: nat, env: Env)
    requires i < |ks|
    ensures var r := DestroyTree(ks[i], env);
      var after := DirtyRectsApplied(ReplaceAt(ks, [i], r.w), r.hidden, env.display);
      |after| == |ks| && !IsAlive(after[i]) && after[i].children == [] &&
      forall j :: 0 <= j < i && !IsAlive(ks[j]) ==> after[j] == ks[j]
  {
    var r := DestroyTree(ks[i], env);
    var ks1 := ReplaceAt(ks, [i], r.w);
    assert ks1 == ks[i := r.w];
    DirtyRectsKeepDead(ks1, r.hidden, i, env.display);
    forall j | 0 <= j < i && !IsAlive(ks[j])
      ensures DirtyRectsApplied(ks1, r.hidden, env.display)[j] == ks[j]
    {
      DirtyRectsKeepDead(ks1, r.hidden, j, env.display);
    }
  }

  /** The parent after createWindow appended a created child and applied
      the rects the child's resize and redraw marked on it. */
  lemma AppendCreated(pw: Window, f: Step, id: WindowID, style: Style, rect: Rect)
    requires IsCreated(f.w, id, style, rect)
    ensures var pw2 := MarkAll(pw.(children := pw.children + [f.w]), f.marks);
      |pw2.children| == |pw.children| + 1 && IsCreated(pw2.children[|pw.children|], id, style, rect) &&
      pw2.(dirtyRect := pw.dirtyRect, children := pw.children) == pw &&
      forall i :: 0 <= i < |pw.children| ==>
        pw2.children[i].(dirtyRect := pw.children[i].dirtyRect, children := pw.children[i].children) == pw.children[i]
  {
    var w := pw.(children := pw.children + [f.w]);
    assert w.children[|pw.children|] == f.w;
    assert forall i :: 0 <= i < |pw.children| ==> w.children[i] == pw.children[i];
  }

  class WindowManager {
    const display: Rect
    const hooks: Hooks
    const registry: WindowContainer
    var config: Config
    var saver: SaverState
    var ssaverEpoch: Millis
    var ssaverActivateAfter: Millis
    var lastRenderTime: Millis
    var lastHitTestTime: Millis
    /** The operations render() has issued to the display so far. */
    var log: seq<DisplayOp>

    function Environment(): Env {
      Env(display, hooks)
    }

    /** The constructor: an empty registry, the given configuration or the
        default intervals (100 ms between renders, 200 ms between hit tests),
        every flag clear. */
    constructor (displayWidth: Extent, displayHeight: Extent, hooks: Hooks, config: Option<Config>)
      ensures display == MakeRect(0, 0, displayWidth, displayHeight) && this.hooks == hooks
      ensures fresh(registry) && registry.children == []
      ensures this.config == if config.Some? then config.value
        else Config(DefaultMinRenderIntervalMsec, DefaultMinHitTestIntervalMsec)
      ensures saver == SaverState(false, false, false) && log == []
      ensures ssaverEpoch == 0 && ssaverActivateAfter == 0 && lastRenderTime == 0 && lastHitTestTime == 0
    {
      display := MakeRect(0, 0, displayWidth, displayHeight);
      this.hooks := hooks;
      registry := new WindowContainer();
      this.config := if config.Some? then config.value
        else Config(DefaultMinRenderIntervalMsec, DefaultMinHitTestIntervalMsec);
      saver := SaverState(false, false, false);
      ssaverEpoch := 0;
      ssaverActivateAfter := 0;
      lastRenderTime := 0;
      lastHitTestTime := 0;
      log := [];
    }

    /** enableScreensaver: the timeout and epoch are set and ENABLED raised;
        ACTIVE and DRAWN are left as they were. */
    method EnableScreensaver(activateAfterMsec: Millis, now: Millis)
      modifies this
      ensures ssaverActivateAfter == activateAfterMsec && ssaverEpoch == now
      ensures saver == old(saver).(enabled := true)
      ensures lastRenderTime == old(lastRenderTime) && lastHitTestTime == old(lastHitTestTime)
      ensures log == old(log) && config == old(config)
    {
      ssaverActivateAfter := activateAfterMsec;
      ssaverEpoch := now;
      saver := saver.(enabled := true);
    }

    /** disableScreensaver: ENABLED, ACTIVE and DRAWN all cleared. */
    method DisableScreensaver()
      modifies this
      ensures saver == SaverState(false, false, false)
      ensures ssaverEpoch == old(ssaverEpoch) && ssaverActivateAfter == old(ssaverActivateAfter)
      ensures lastRenderTime == old(lastRenderTime) && lastHitTestTime == old(lastHitTestTime)
      ensures log == old(log) && config == old(config)
    {
      saver := SaverState(false, false, false);
    }

    /** setDirtyRect: every drawable top-level window whose rect intersects
        `rect` has the intersection marked dirty. */
    method SetDirtyRect(rect: Rect)
      modifies registry
      ensures registry.children == DirtyRectApplied(old(registry.children), rect, display)
    {
      var ks := registry.children;
      var i := 0;
      while i < |ks|
        invariant 0 <= i <= |ks| == |old(registry.children)|
        invariant forall j :: 0 <= j < i ==> ks[j] == MarkIfDrawable(old(registry.children)[j], rect, display)
        invariant forall j :: i <= j < |ks| ==> ks[j] == old(registry.children)[j]
      {
        // a drawable window meeting `rect` has the intersection marked dirty
        ks := ks[i := MarkIfDrawable(ks[i], rect, display)];
        i := i + 1;
      }
      registry.children := ks;
    }

    /** isWindowEntirelyCovered: some drawable top-level window above it has
        a rect that holds all four corners of the window's rect. For a child
        window (never in the registry) every top-level window counts. */
    method IsWindowEntirelyCovered(p: Path) returns (covered: bool)
      requires ValidPath(registry.children, p)
      ensures var ks := registry.children;
        var lo := if |p| == 1 then p[0] + 1 else 0;
        covered <==> exists j :: lo <= j < |ks| && IsDrawable(ks[j], true, display) &&
                                 WithinRect(At(ks, p).rect, ks[j].rect)
    {
      var ks := registry.children;
      var rect := At(ks, p).rect;
      var lo := if |p| == 1 then p[0] + 1 else 0;
      var j := |ks|;
      while j > lo
        invariant lo <= j <= |ks|
        invariant forall k :: j <= k < |ks| ==> !(IsDrawable(ks[k], true, display) && WithinRect(rect, ks[k].rect))
      {
        j := j - 1;
        if IsDrawable(ks[j], true, display) && WithinRect(rect, ks[j].rect) {
          return true;
        }
      }
      return false;
    }

    /** setForegroundWindow: the registry's, for the window at `p`; a window
        below the top level has a parent and is refused. */
    method SetForegroundWindow(p: Path) returns (ok: bool)
      requires ValidPath(registry.children, p)
      modifies registry
      ensures var win := At(old(registry.children), p);
        (ok <==> |p| == 1 && BitsHigh(win.style, STY_TOPLEVEL) && Find(old(registry.children), win.id) >= 0) &&
        (ok ==> registry.children == Renumbered(Without(old(registry.children), Find(old(registry.children), win.id)) + [win])) &&
        (!ok ==> registry.children == old(registry.children))
    {
      ok := registry.SetForegroundWindow(At(registry.children, p), |p| > 1);
    }

    /** hitTest: rate limited by minHitTestIntervalMsec; with the screensaver
        enabled any tap restarts its countdown, and while it is active the tap
        goes nowhere. Otherwise the drawable top-level windows are offered the
        tap from the topmost down until one claims it. */
    method HitTest(x: Coord, y: Coord, now: Millis)
      modifies this, registry
      ensures config == old(config) && log == old(log) && saver == old(saver)
      ensures lastRenderTime == old(lastRenderTime) && ssaverActivateAfter == old(ssaverActivateAfter)
      ensures Elapsed(now, old(lastHitTestTime)) < config.minHitTestIntervalMsec ==>
        registry.children == old(registry.children) && lastHitTestTime == old(lastHitTestTime) &&
        ssaverEpoch == old(ssaverEpoch)
      ensures Elapsed(now, old(lastHitTestTime)) >= config.minHitTestIntervalMsec ==>
        ssaverEpoch == (if saver.enabled then now else old(ssaverEpoch)) &&
        (saver.enabled && saver.active ==>
           registry.children == old(registry.children) && lastHitTestTime == old(lastHitTestTime)) &&
        (!(saver.enabled && saver.active) ==>
           lastHitTestTime == now &&
           registry.children == InputKids(old(registry.children), true, INPUT_TAP, x, y, |old(registry.children)|, Environment()).kids)
    {
      if Elapsed(now, lastHitTestTime) < config.minHitTestIntervalMsec {
        return;
      }
      if saver.enabled {
        ssaverEpoch := now;
        if saver.active {
          return;
        }
      }
      var kids := OfferTap(registry.children, x, y);
      registry.children := kids;
      lastHitTestTime := now;
    }

    /** hitTest's loop: the drawable windows from the topmost down are
        offered the tap until one claims it. */
    method OfferTap(ks: seq<Window>, x: Coord, y: Coord) returns (kids: seq<Window>)
      ensures kids == InputKids(ks, true, INPUT_TAP, x, y, |ks|, Environment()).kids
    {
      kids := ks;
      var n := |ks|;
      while n > 0
        invariant 0 <= n <= |ks|
        invariant InputKids(ks, true, INPUT_TAP, x, y, |ks|, Environment()) == InputKids(ks, true, INPUT_TAP, x, y, n, Environment())
      {
        n := n - 1;
        TapKidsStep(ks, x, y, n, Environment());
        var child := ks[n];
        if !IsDrawable(child, true, display) {
          continue;
        }
        var r := ProcessInput(child, true, INPUT_TAP, x, y, Environment());
        if r.handled {
          return ks[n := r.w];
        }
      }
    }

    /** createWindow: refused (null, nothing inserted) for WID_INVALID, a
        missing parent without STY_TOPLEVEL, STY_CHILD without a parent,
        STY_TOPLEVEL with a parent, a failing pre-create hook, a refused
        MSG_CREATE and a duplicate sibling id. Otherwise the window is
        appended to its parent's children (or the registry), sent
        MSG_RESIZE when STY_AUTOSIZE is set, and redrawn; the result is its
        path. The rects it marks on its parent while being created are
        applied to the parent, even when a duplicate id then refuses it. */
    method CreateWindow(parent: Option<Path>, id: WindowID, style: Style, x: Coord, y: Coord,
                        width: Extent, height: Extent, preCreateOk: bool) returns (created: Option<Path>)
      requires parent.Some? ==> ValidPath(registry.children, parent.value)
      modifies registry
      ensures CreateRefused(parent.Some?, id, style, preCreateOk) ==>
        created == None && registry.children == old(registry.children)
      ensures !CreateRefused(parent.Some?, id, style, preCreateOk) &&
              !hooks.onCreate(NewWindow(id, style, CreateRect(style, x, y, width, height, display))) ==>
        created == None && registry.children == old(registry.children)
      ensures parent.None? && created.None? ==> registry.children == old(registry.children)
      ensures parent.None? && created.Some? ==>
        created.value == [|old(registry.children)|] &&
        |registry.children| == |old(registry.children)| + 1 &&
        registry.children[..|old(registry.children)|] == old(registry.children) &&
        Find(old(registry.children), id) < 0
      ensures parent.Some? ==> (ValidPath(registry.children, parent.value) &&
        |At(registry.children, parent.value).children| ==
          |At(old(registry.children), parent.value).children| + (if created.Some? then 1 else 0))
      ensures parent.Some? && created.Some? ==>
        created.value == parent.value + [|At(old(registry.children), parent.value).children|] &&
        Find(At(old(registry.children), parent.value).children, id) < 0
      ensures created.Some? ==> (ValidPath(registry.children, created.value) &&
        IsCreated(At(registry.children, created.value), id, style, CreateRect(style, x, y, width, height, display)))
      ensures created.Some? <==>
        !CreateRefused(parent.Some?, id, style, preCreateOk) &&
        hooks.onCreate(NewWindow(id, style, CreateRect(style, x, y, width, height, display))) &&
        (if parent.None? then Find(old(registry.children), id) < 0
         else Find(At(old(registry.children), parent.value).children, id) < 0)
      ensures parent.Some? ==> (ValidPath(registry.children, parent.value) &&
        registry.children == ReplaceAt(old(registry.children), parent.value, At(registry.children, parent.value)))
    {
      if parent.Some? {
        ReplaceAtSelf(registry.children, parent.value);
      }
      if id == WID_INVALID {
        return None;
      }
      var rect := CreateRect(style, x, y, width, height, display);
      if parent.None? && !BitsHigh(style, STY_TOPLEVEL) {
        return None;
      }
      if BitsHigh(style, STY_CHILD) && parent.None? {
        return None;
      }
      if BitsHigh(style, STY_TOPLEVEL) && parent.Some? {
        return None;
      }
      if !preCreateOk {
        return None;
      }
      if parent.None? {
        created := CreateTopLevel(id, style, rect);
      } else {
        created := CreateChild(parent.value, id, style, rect);
      }
    }

    /** createWindow from MSG_CREATE on, for a top-level window. */
    method CreateTopLevel(id: WindowID, style: Style, rect: Rect) returns (created: Option<Path>)
      modifies registry
      ensures created.Some? <==> hooks.onCreate(NewWindow(id, style, rect)) && Find(old(registry.children), id) < 0
      ensures created.None? ==> registry.children == old(registry.children)
      ensures created.Some? ==>
        created.value == [|old(registry.children)|] &&
        |registry.children| == |old(registry.children)| + 1 &&
        registry.children[..|old(registry.children)|] == old(registry.children) &&
        Find(old(registry.children), id) < 0 &&
        IsCreated(registry.children[|old(registry.children)|], id, style, rect)
    {
      var win := NewWindow(id, style, rect);
      var c := RouteMessage(win, true, MsgCreate, 0, 0, Environment());
      RouteCreateSetsAlive(win, true, 0, 0, Environment());
      if !c.ok {
        return None;
      }
      var added := registry.AddChild(c.w);
      if !added {
        return None;
      }
      var n := |registry.children| - 1;
      var f := AfterInsert(registry.children[n], true, Environment());
      registry.children := registry.children[n := f.w];
      created := Some([n]);
    }

    /** createWindow from MSG_CREATE on, for a child of the window at `pp`:
        the parent is drawable along the path, and the rects the new window
        marks on it are applied to it. */
    method CreateChild(pp: Path, id: WindowID, style: Style, rect: Rect) returns (created: Option<Path>)
      requires ValidPath(registry.children, pp)
      modifies registry
      ensures !hooks.onCreate(NewWindow(id, style, rect)) ==> registry.children == old(registry.children)
      ensures created.Some? <==> hooks.onCreate(NewWindow(id, style, rect)) && Find(At(old(registry.children), pp).children, id) < 0
      ensures ValidPath(registry.children, pp) &&
        registry.children == ReplaceAt(old(registry.children), pp, At(registry.children, pp)) &&
        var pw, pw2 := At(old(registry.children), pp), At(registry.children, pp);
        pw2.(dirtyRect := pw.dirtyRect, children := pw.children) == pw && |pw2.children| >= |pw.children| &&
        forall i :: 0 <= i < |pw.children| ==>
          pw2.children[i].(dirtyRect := pw.children[i].dirtyRect, children := pw.children[i].children) == pw.children[i]
      ensures ValidPath(registry.children, pp) &&
        |At(registry.children, pp).children| == |At(old(registry.children), pp).children| + (if created.Some? then 1 else 0)
      ensures created.Some? ==>
        created.value == pp + [|At(old(registry.children), pp).children|] &&
        Find(At(old(registry.children), pp).children, id) < 0 &&
        ValidPath(registry.children, created.value) &&
        IsCreated(At(registry.children, created.value), id, style, rect)
    {
      var ks := registry.children;
      var pw := At(ks, pp);
      var pd := DrawableAlong(ks, pp, true, display);
      var pw2, routed, ok := AddCreatedChild(pw, pd, id, style, rect);
      if !routed {
        ReplaceAtSelf(ks, pp);
        return None;
      }
      ReplaceAtGet(ks, pp, pw2);
      registry.children := ReplaceAt(ks, pp, pw2);
      if !ok {
        return None;
      }
      AtExtend(registry.children, pp, |pw.children|);
      created := Some(pp + [|pw.children|]);
    }

    /** The child case on the parent window itself: MSG_CREATE to the new
        window (`routed` is its answer), the rects it marked applied to the
        parent, the duplicate check (`ok`), then the insertion with the next
        z-order ordinal, MSG_RESIZE, redraw, and their marks applied too. */
    method AddCreatedChild(pw: Window, pd: bool, id: WindowID, style: Style, rect: Rect)
      returns (pw2: Window, routed: bool, ok: bool)
      ensures routed == hooks.onCreate(NewWindow(id, style, rect))
      ensures ok <==> routed && Find(pw.children, id) < 0
      ensures !routed ==> pw2 == pw
      ensures pw2.(dirtyRect := pw.dirtyRect, children := pw.children) == pw
      ensures |pw2.children| == |pw.children| + (if ok then 1 else 0)
      ensures forall i :: 0 <= i < |pw.children| ==>
        pw2.children[i].(dirtyRect := pw.children[i].dirtyRect, children := pw.children[i].children) == pw.children[i]
      ensures ok ==> IsCreated(pw2.children[|pw.children|], id, style, rect)
    {
      var win := NewWindow(id, style, rect);
      var c := RouteMessage(win, pd, MsgCreate, 0, 0, Environment());
      RouteCreateSetsAlive(win, pd, 0, 0, Environment());
      if !c.ok {
        return pw, false, false;
      }
      var pw1 := MarkAll(pw, c.marks);
      FindByIds(pw1.children, pw.children, id);
      if Find(pw1.children, id) >= 0 {
        return pw1, true, false;
      }
      var f := AfterInsert(c.w.(zOrder := NextZOrder(pw1.children)), pd, Environment());
      AppendCreated(pw1, f, id, style, rect);
      pw2 := MarkAll(pw1.(children := pw1.children + [f.w]), f.marks);
      return pw2, true, true;
    }

    /** hide() of the window at `p`: false if it is not visible; otherwise
        STY_VISIBLE is cleared (which leaves it dirty) and its rect is passed
        to setDirtyRect. */
    method Hide(p: Path) returns (ok: bool)
      requires ValidPath(registry.children, p)
      modifies registry
      ensures var w := At(old(registry.children), p);
        (ok <==> IsVisible(w)) &&
        (ok ==> registry.children == DirtyRectApplied(ReplaceAt(old(registry.children), p, HideWindow(w)), w.rect, display)) &&
        (!ok ==> registry.children == old(registry.children))
    {
      var w := At(registry.children, p);
      if !IsVisible(w) {
        return false;
      }
      registry.children := ReplaceAt(registry.children, p, HideWindow(w));
      SetDirtyRect(w.rect);
      return true;
    }

    /** show() of the window at `p`: ShowTree on the registry. */
    method Show(p: Path) returns (ok: bool)
      requires ValidPath(registry.children, p)
      modifies registry
      ensures ShowTree(old(registry.children), p, ParentDrawable(old(registry.children), p, display), Environment()) ==
        ShowOutcome(registry.children, ok)
    {
      var w := At(registry.children, p);
      var pd := ParentDrawable(registry.children, p, display);
      var topLevel := BitsHigh(w.style, STY_TOPLEVEL);
      if !topLevel && IsVisible(w) {
        return false;
      }
      var shown := true;
      var q := p;
      if topLevel {
        shown := registry.SetForegroundWindow(w, |p| > 1);
        if shown {
          // the window now sits at the top level, so its parent is the display
          q := [|registry.children| - 1];
          pd := true;
        }
      }
      var ks := registry.children;
      var s := ShowWindow(At(ks, q), pd, shown, Environment());
      registry.children := Commit(ks, q, s);
      ok := s.ok;
    }

    /** destroy() of the window at `p`: it and its subtree are hidden and sent
        MSG_DESTROY, and its children dropped; each rect hide() passed to
        setDirtyRect is then applied in order. The window itself stays where
        it is. */
    method Destroy(p: Path) returns (ok: bool)
      requires ValidPath(registry.children, p)
      modifies registry
      ensures var r := DestroyTree(At(old(registry.children), p), Environment());
        ok == r.ok &&
        registry.children == DirtyRectsApplied(ReplaceAt(old(registry.children), p, r.w), r.hidden, display)
      ensures ok <==> AllDestroyHandled(At(old(registry.children), p), Environment())
      ensures |p| == 1 ==> registry.children[p[0]] == DestroyTree(At(old(registry.children), p), Environment()).w
    {
      var r := DestroyTree(At(registry.children, p), Environment());
      DestroyOkIffAll(At(registry.children, p), Environment());
      registry.children := ReplaceAt(registry.children, p, r.w);
      if |p| == 1 {
        DirtyRectsKeepDead(registry.children, r.hidden, p[0], display);
      }
      SetDirtyRects(r.hidden);
      ok := r.ok;
    }

    /** The setDirtyRect calls hide() makes during destroy(), in order. */
    method SetDirtyRects(rects: seq<Rect>)
      modifies registry
      ensures registry.children == DirtyRectsApplied(old(registry.children), rects, display)
    {
      var k := 0;
      while k < |rects|
        invariant 0 <= k <= |rects|
        invariant DirtyRectsApplied(registry.children, rects[k..], display) == DirtyRectsApplied(old(registry.children), rects, display)
      {
        assert rects[k..][1..] == rects[k + 1..];
        SetDirtyRect(rects[k]);
        k := k + 1;
      }
      assert rects[k..] == [];
    }

    /** tearDown: every top-level window destroyed, then the registry
        emptied. The loop destroys them one by one, leaving each dead and
        childless while the later ones are destroyed. */
    method TearDown()
      modifies registry
      ensures registry.children == []
    {
      var i := 0;
      while i < |registry.children|
        invariant 0 <= i <= |registry.children| == |old(registry.children)|
        invariant forall j :: 0 <= j < i ==> !IsAlive(registry.children[j]) && registry.children[j].children == []
      {
        var before := registry.children;
        var _ := Destroy([i]);
        DestroyKeepsDead(before, i, Environment());
        i := i + 1;
      }
      registry.RemoveAllChildren();
    }

    /** The screensaver step at the start of render(): ACTIVE raised once the
        timeout has passed since the epoch; before that an active screensaver
        is deactivated and the whole display marked dirty. */
    method UpdateScreensaver(now: Millis)
      modifies this, registry
      ensures saver == SaverStep(old(saver), ssaverEpoch, ssaverActivateAfter, now)
      ensures registry.children == if SaverDeactivates(old(saver), ssaverEpoch, ssaverActivateAfter, now)
        then DirtyRectApplied(old(registry.children), display, display) else old(registry.children)
      ensures config == old(config) && lastHitTestTime == old(lastHitTestTime) && log == old(log)
      ensures ssaverEpoch == old(ssaverEpoch) && ssaverActivateAfter == old(ssaverActivateAfter)
      ensures lastRenderTime == old(lastRenderTime)
    {
      if saver.enabled {
        if Elapsed(now, ssaverEpoch) >= ssaverActivateAfter {
          if !saver.active {
            saver := saver.(active := true);
          }
        } else {
          if saver.active {
            saver := saver.(active := false, drawn := false);
            SetDirtyRect(display);
          }
        }
      }
    }

    /** render(now): rate limited by minRenderIntervalMsec. The screensaver
        step first; while active, the screensaver is drawn once per
        activation. Otherwise each top-level window in turn is drained and,
        if drawable with a non-empty dirty rect, its dirty rect minus the
        merged rect of the drawable windows above it is transferred piece by
        piece and then cleared. The display is flushed at most once, at the
        end, and only if something was drawn. */
    method Render(now: Millis)
      modifies this, registry
      ensures config == old(config) && lastHitTestTime == old(lastHitTestTime)
      ensures ssaverEpoch == old(ssaverEpoch) && ssaverActivateAfter == old(ssaverActivateAfter)
      ensures Elapsed(now, old(lastRenderTime)) < config.minRenderIntervalMsec ==>
        registry.children == old(registry.children) && saver == old(saver) &&
        log == old(log) && lastRenderTime == old(lastRenderTime)
      ensures Elapsed(now, old(lastRenderTime)) >= config.minRenderIntervalMsec ==>
        var s1 := SaverStep(old(saver), ssaverEpoch, ssaverActivateAfter, now);
        var ks := if SaverDeactivates(old(saver), ssaverEpoch, ssaverActivateAfter, now)
                  then DirtyRectApplied(old(registry.children), display, display) else old(registry.children);
        (s1.active ==>
           registry.children == ks && saver == s1.(drawn := true) &&
           log == old(log) + (if s1.drawn then [] else [DrawScreensaver, Flush]) &&
           lastRenderTime == (if s1.drawn then old(lastRenderTime) else now)) &&
        (!s1.active ==>
           saver == s1 && registry.children == PassResult(ks, Environment()) &&
           log == old(log) + PassOps(ks, |ks|, Environment()) + (if PassDrew(ks, |ks|, Environment()) then [Flush] else []) &&
           lastRenderTime == (if PassDrew(ks, |ks|, Environment()) then now else old(lastRenderTime)))
    {
      if Elapsed(now, lastRenderTime) < config.minRenderIntervalMsec {
        return;
      }
      var updated := false;
      UpdateScreensaver(now);
      if saver.active {
        if !saver.drawn {
          log := log + [DrawScreensaver];
          updated := true;
          saver := saver.(drawn := true);
        }
      } else {
        var kids, ops;
        kids, ops, updated := PassAll(registry.children);
        registry.children := kids;
        log := log + ops;
      }
      if updated {
        log := log + [Flush];
        lastRenderTime := now;
      }
    }
  
    /** The obscuring rect render builds for the window at index i: the
        drawable windows above it, from the top down, the first one's rect
        merged with each further one's. */
    method ScanAbove(ks: seq<Window>, i: nat) returns (obscuringRect: Rect)
      requires i < |ks|
      ensures obscuringRect == ObscuringRect(ks, i, display)
    {
      var obscuringRectSet := false;
      obscuringRect := EmptyRect;
      var j := |ks|;
      while j > i + 1
        invariant i + 1 <= j <= |ks|
        invariant (if obscuringRectSet then Some(obscuringRect) else None) == AboveScan(ks, j, display)
        invariant !obscuringRectSet ==> obscuringRect == EmptyRect
      {
        j := j - 1;
        var above := ks[j];
        if !IsDrawable(above, true, display) {
          continue;
        }
        if !obscuringRectSet {
          obscuringRect := above.rect;
          obscuringRectSet := true;
        } else {
          obscuringRect := MergeRect(obscuringRect, above.rect);
        }
      }
    }

    /** render's transfer loop: the pieces front to back, each converted to
        window coordinates and transferred; a failed conversion ends the
        window's pass. */
    method SendPieces(wr: Rect, dirtyRects: seq<Rect>) returns (t: Ops)
      ensures t == PieceOps(wr, dirtyRects, |dirtyRects|)
    {
      var ops: seq<DisplayOp> := [];
      var k := 0;
      while k < |dirtyRects|
        invariant 0 <= k <= |dirtyRects|
        invariant PieceOps(wr, dirtyRects, k) == Ops(ops, true)
      {
        var clientDirtyRect := DisplayToWindowRect(wr, dirtyRects[k]);
        if clientDirtyRect.None? {
          PieceOpsFailed(wr, dirtyRects, k, |dirtyRects|);
          return Ops(ops, false);
        }
        ops := ops + [Transfer(dirtyRects[k], clientDirtyRect.value)];
        k := k + 1;
      }
      return Ops(ops, true);
    }

    /** render's loop body for the window at index i of `ks`: drain its
        queue and, if it is drawable with a non-empty dirty rect, subtract
        the obscuring rect from its dirty rect and transfer the pieces. The
        result holds the new window, the transfers issued and whether it
        sets `updated`. */
    method RenderOne(ks: seq<Window>, i: nat) returns (p: WindowPass)
      requires i < |ks|
      ensures p == PassWindow(ks, i, Environment())
    {
      var win := Drain(ks[i], true, Environment());
      if !IsDrawable(win, true, display) || IsEmpty(win.dirtyRect) {
        return WindowPass(win, [], false);
      }
      var obscuringRect := ScanAbove(ks, i);
      var dirtyRects := if !IsEmpty(obscuringRect) then SubtractRect(win.dirtyRect, obscuringRect)
                        else [win.dirtyRect];
      if |dirtyRects| == 0 {
        return WindowPass(MarkRectDirty(win, EmptyRect), [], false);
      }
      var t := SendPieces(win.rect, dirtyRects);
      if !t.ok {
        return WindowPass(win, t.ops, false);
      }
      return WindowPass(MarkRectDirty(win, EmptyRect), t.ops, true);
    }

    /** render's forEachChild over the registry: each window's pass in
        order. The registry is updated window by window, so each window's
        pass sees the windows below it already rendered and the ones above
        it as they were. */
    method PassAll(ks: seq<Window>) returns (done: seq<Window>, ops: seq<DisplayOp>, updated: bool)
      ensures done == PassResult(ks, Environment())
      ensures ops == PassOps(ks, |ks|, Environment())
      ensures updated == PassDrew(ks, |ks|, Environment())
    {
      done := [];
      ops := [];
      updated := false;
      var i := 0;
      while i < |ks|
        invariant 0 <= i <= |ks|
        invariant done == PassKids(ks, i, Environment())
        invariant ops == PassOps(ks, i, Environment())
        invariant updated == PassDrew(ks, i, Environment())
      {
        done, ops, updated := PassNext(ks, i, done, ops, updated);
        i := i + 1;
      }
    }

    /** One iteration of that loop, on the registry as it stands: the first
        i windows rendered, the rest as they were. */
    method PassNext(ks: seq<Window>, i: nat, done: seq<Window>, ops: seq<DisplayOp>, updated: bool)
      returns (done': seq<Window>, ops': seq<DisplayOp>, updated': bool)
      requires i < |ks| && done == PassKids(ks, i, Environment())
      requires ops == PassOps(ks, i, Environment()) && updated == PassDrew(ks, i, Environment())
      ensures done' == PassKids(ks, i + 1, Environment())
      ensures ops' == PassOps(ks, i + 1, Environment())
      ensures updated' == PassDrew(ks, i + 1, Environment())
    {
      PassStep(ks, done, i, Environment());
      var p := RenderOne(done + ks[i..], i);
      done' := done + [p.w];
      ops' := ops + p.ops;
      updated' := updated || p.drew;
    }
  }
}
