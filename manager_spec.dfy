// The value-level behaviour of the exostra WindowManager (include/exostra.h,
// class WindowManager): coordinate conversion, setDirtyRect, the screensaver
// flags and one compositing pass of render(). The class in module Manager
// updates its registry and fields as these functions say.
module ManagerSpec {
  import opened Geometry
  import opened Messages
  import opened Windows

  const DefaultMinRenderIntervalMsec: Millis := 100
  const DefaultMinHitTestIntervalMsec: Millis := 200

  datatype Config = Config(minRenderIntervalMsec: Millis, minHitTestIntervalMsec: Millis)

  /** The manager's State bitmask: WMS_SSAVER_ENABLED, WMS_SSAVER_ACTIVE and
      WMS_SSAVER_DRAWN, one boolean each. */
  datatype SaverState = SaverState(enabled: bool, active: bool, drawn: bool)

  /** What render() asks of the display: a transfer of a display rect from
      the window's buffer (clientRect, in window coordinates), a flush, or the
      theme's screensaver. */
  datatype DisplayOp = Transfer(rect: Rect, clientRect: Rect) | Flush | DrawScreensaver

  // ---------------------------------------------------------------------
  // Display <-> window coordinates

  /** displayToWindow(win, Point&): only points on or inside the window rect
      convert, moving by the window's top-left corner. */
  function DisplayToWindowPoint(wr: Rect, pt: Point): (r: Option<Point>)
    ensures r.Some? <==> PointWithin(wr, pt.x, pt.y)
  {
    if PointWithin(wr, pt.x, pt.y) then Some(Point(Wrap16(pt.x - wr.left), Wrap16(pt.y - wr.top)))
    else None
  }

  /** The window's own rect in window coordinates, Rect(0, 0, width, height). */
  function ClientRect(wr: Rect): Rect {
    MakeRect(0, 0, Width(wr), Height(wr))
  }

  /** windowToDisplay(win, Point&): only points in (0, 0, width, height)
      convert. */
  function WindowToDisplayPoint(wr: Rect, pt: Point): (r: Option<Point>)
    ensures r.Some? <==> PointWithin(ClientRect(wr), pt.x, pt.y)
  {
    if PointWithin(ClientRect(wr), pt.x, pt.y) then Some(Point(Wrap16(pt.x + wr.left), Wrap16(pt.y + wr.top)))
    else None
  }

  /** The Rect overloads convert both corners and succeed only if both do. */
  function DisplayToWindowRect(wr: Rect, r: Rect): (c: Option<Rect>)
    ensures c.Some? <==> PointWithin(wr, r.left, r.top) && PointWithin(wr, r.right, r.bottom)
  {
    match (DisplayToWindowPoint(wr, Point(r.left, r.top)), DisplayToWindowPoint(wr, Point(r.right, r.bottom)))
    case (Some(a), Some(b)) => Some(Rect(a.x, a.y, b.x, b.y))
    case _ => None
  }

  function WindowToDisplayRect(wr: Rect, r: Rect): (c: Option<Rect>)
    ensures c.Some? <==> PointWithin(ClientRect(wr), r.left, r.top) && PointWithin(ClientRect(wr), r.right, r.bottom)
  {
    match (WindowToDisplayPoint(wr, Point(r.left, r.top)), WindowToDisplayPoint(wr, Point(r.right, r.bottom)))
    case (Some(a), Some(b)) => Some(Rect(a.x, a.y, b.x, b.y))
    case _ => None
  }

  // ---------------------------------------------------------------------
  // setDirtyRect

  /** What setDirtyRect(rect) does to one top-level window. */
  function MarkIfDrawable(w: Window, rect: Rect, display: Rect): Window {
    if IsDrawable(w, true, display) && IntersectsRect(w.rect, rect) then
      MarkRectDirty(w, GetIntersection(w.rect, rect))
    else w
  }

  /** setDirtyRect(rect) over the registry. */
  function DirtyRectApplied(ks: seq<Window>, rect: Rect, display: Rect): (r: seq<Window>)
    ensures |r| == |ks|
  {
    seq(|ks|, i requires 0 <= i < |ks| => MarkIfDrawable(ks[i], rect, display))
  }

  /** Successive setDirtyRect calls, in order. */
  function DirtyRectsApplied(ks: seq<Window>, rects: seq<Rect>, display: Rect): (r: seq<Window>)
    ensures |r| == |ks|
    decreases |rects|
  {
    if |rects| == 0 then ks else DirtyRectsApplied(DirtyRectApplied(ks, rects[0], display), rects[1..], display)
  }

  // ---------------------------------------------------------------------
  // The screensaver

  /** The flag step at the start of render(): with the screensaver enabled it
      becomes active once `after` ms have passed since the epoch, and an
      active one is deactivated (ACTIVE and DRAWN cleared) when they have not. */
  function SaverStep(s: SaverState, epoch: Millis, after: Millis, now: Millis): SaverState {
    if !s.enabled then s
    else if Elapsed(now, epoch) >= after then s.(active := true)
    else if s.active then s.(active := false, drawn := false)
    else s
  }

  /** Whether that step deactivated the screensaver (and so marks the whole
      display dirty). */
  predicate SaverDeactivates(s: SaverState, epoch: Millis, after: Millis, now: Millis) {
    s.enabled && Elapsed(now, epoch) < after && s.active
  }

  // ---------------------------------------------------------------------
  // One compositing pass

  /** The obscuring rect for the window at index i is built from the top of
      the registry down to i + 1: the first drawable window's rect, merged
      with each further drawable window's rect. This is that scan over the
      windows from index j up. */
  function AboveScan(ks: seq<Window>, j: nat, display: Rect): Option<Rect>
    decreases |ks| - j
  {
    if j >= |ks| then None
    else
      var acc := AboveScan(ks, j + 1, display);
      if !IsDrawable(ks[j], true, display) then acc
      else match acc
        case None => Some(ks[j].rect)
        case Some(o) => Some(MergeRect(o, ks[j].rect))
  }

  /** render's obscuringRect for the window at index i (Rect() if no
      drawable window lies above it). */
  function ObscuringRect(ks: seq<Window>, i: nat, display: Rect): Rect {
    match AboveScan(ks, i + 1, display)
    case None => EmptyRect
    case Some(o) => o
  }

  /** The dirty rects render transfers: the dirty rect minus the obscuring
      rect when that is non-empty, else the dirty rect itself. */
  function DirtyPieces(dirty: Rect, obscuring: Rect): seq<Rect> {
    if !IsEmpty(obscuring) then SubtractRect(dirty, obscuring) else [dirty]
  }

  /** The transfers for the first n pieces; `ok` is false once a piece's
      display-to-window conversion fails, and no later piece is sent. */
  datatype Ops = Ops(ops: seq<DisplayOp>, ok: bool)

  function PieceOps(wr: Rect, pieces: seq<Rect>, n: nat): (t: Ops)
    requires n <= |pieces|
    ensures |t.ops| <= n
    ensures forall k :: 0 <= k < |t.ops| ==> t.ops[k].Transfer?
    decreases n
  {
    if n == 0 then Ops([], true)
    else
      var p := PieceOps(wr, pieces, n - 1);
      if !p.ok then p
      else match DisplayToWindowRect(wr, pieces[n - 1])
        case None => Ops(p.ops, false)
        case Some(c) => Ops(p.ops + [Transfer(pieces[n - 1], c)], true)
  }

  /** The outcome of render's loop body for one window (after its queue has
      been drained): the new window, the display operations, and whether it
      sets `updated`. */
  datatype WindowPass = WindowPass(w: Window, ops: seq<DisplayOp>, drew: bool)

  function RenderWindow(w: Window, obscuring: Rect, display: Rect): (p: WindowPass)
    ensures forall k :: 0 <= k < |p.ops| ==> p.ops[k].Transfer?
  {
    if !IsDrawable(w, true, display) || IsEmpty(w.dirtyRect) then WindowPass(w, [], false)
    else
      var pieces := DirtyPieces(w.dirtyRect, obscuring);
      if |pieces| == 0 then WindowPass(MarkRectDirty(w, EmptyRect), [], false)
      else
        var t := PieceOps(w.rect, pieces, |pieces|);
        if t.ok then WindowPass(MarkRectDirty(w, EmptyRect), t.ops, true)
        else WindowPass(w, t.ops, false)
  }

  /** The pass for the window at index i of the registry as the pass finds
      it: its queue drained, the windows above it not yet visited. */
  function PassWindow(ks: seq<Window>, i: nat, env: Env): WindowPass
    requires i < |ks|
  {
    RenderWindow(Drain(ks[i], true, env), ObscuringRect(ks, i, env.display), env.display)
  }

  /** The display operations of the first n windows' passes, in order. */
  function PassOps(ks: seq<Window>, n: nat, env: Env): (ops: seq<DisplayOp>)
    requires n <= |ks|
    ensures forall k :: 0 <= k < |ops| ==> ops[k].Transfer?
  {
    if n == 0 then [] else PassOps(ks, n - 1, env) + PassWindow(ks, n - 1, env).ops
  }

  /** Whether any of the first n windows' passes set `updated`. */
  predicate PassDrew(ks: seq<Window>, n: nat, env: Env)
    requires n <= |ks|
  {
    n > 0 && (PassDrew(ks, n - 1, env) || PassWindow(ks, n - 1, env).drew)
  }

  /** The first n windows after their passes. */
  function PassKids(ks: seq<Window>, n: nat, env: Env): (r: seq<Window>)
    requires n <= |ks|
    ensures |r| == n
  {
    if n == 0 then [] else PassKids(ks, n - 1, env) + [PassWindow(ks, n - 1, env).w]
  }

  /** The registry after the pass. */
  function PassResult(ks: seq<Window>, env: Env): (r: seq<Window>)
    ensures |r| == |ks|
  {
    PassKids(ks, |ks|, env)
  }

  /** The scan looks only at the windows from index j up. */
  lemma {:induction false} AboveScanSuffix(a: seq<Window>, b: seq<Window>, j: nat, display: Rect)
    requires |a| == |b| && j <= |a| && a[j..] == b[j..]
    ensures AboveScan(a, j, display) == AboveScan(b, j, display)
    decreases |a| - j
  {
    if j < |a| {
      assert a[j] == a[j..][0] && b[j] == b[j..][0];
      assert a[j + 1..] == a[j..][1..] && b[j + 1..] == b[j..][1..];
      AboveScanSuffix(a, b, j + 1, display);
    }
  }

  /** Once a conversion fails, no further piece is sent. */
  lemma {:induction false} PieceOpsFailed(wr: Rect, pieces: seq<Rect>, k: nat, n: nat)
    requires k < n <= |pieces| && PieceOps(wr, pieces, k).ok
    requires DisplayToWindowRect(wr, pieces[k]).None?
    ensures PieceOps(wr, pieces, n) == Ops(PieceOps(wr, pieces, k).ops, false)
    decreases n
  {
    if n > k + 1 {
      PieceOpsFailed(wr, pieces, k, n - 1);
    }
  }

  /** One step of the pass over the registry as render updates it in place:
      with the first i windows rendered, the window at index i sees the same
      pass as in the original registry. */
  lemma PassStep(ks: seq<Window>, done: seq<Window>, i: nat, env: Env)
    requires i < |ks| && |done| == i
    ensures PassWindow(done + ks[i..], i, env) == PassWindow(ks, i, env)
  {
    var cur := done + ks[i..];
    assert cur[i] == ks[i];
    assert cur[i + 1..] == ks[i + 1..];
    AboveScanSuffix(cur, ks, i + 1, env.display);
  }

  /** setDirtyRect never touches a window that is not alive. */
  lemma {:induction false} DirtyRectsKeepDead(ks: seq<Window>, rects: seq<Rect>, i: nat, display: Rect)
    requires i < |ks| && !IsAlive(ks[i])
    ensures DirtyRectsApplied(ks, rects, display)[i] == ks[i]
    decreases |rects|
  {
    if |rects| > 0 {
      var next := DirtyRectApplied(ks, rects[0], display);
      assert next[i] == ks[i];
      DirtyRectsKeepDead(next, rects[1..], i, display);
    }
  }
}
