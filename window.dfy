// The exostra Window (include/exostra.h, class Window) as a value.
//
// A window is a record holding its own children, so a window tree is a
// `seq<Window>` and a window inside it is addressed by a path of child
// indices. The parent back-pointer of the source is replaced by two things:
// the parent's drawability is passed down as `parentDrawable`, and the
// `parent->markRectDirty(...)` calls a window makes during POSTDRAW are
// returned up as `marks` for the caller to apply to the parent, in order.
//
// The behaviour of widget subclasses (onCreate, onDraw, onTapped, onEvent,
// onResize, onDestroy) is abstracted into the `Hooks` record: any boolean
// result is possible, and the model's properties hold for all hooks.
module Windows {
  import opened Geometry
  import opened Messages

  type ZOrder = x: int | 0 <= x < 0x100

  /** A window's State bitmask: the three bits the source defines
      (STA_ALIVE, STA_CHECKED, STA_DIRTY), one boolean each. */
  datatype WindowState = WindowState(alive: bool, checked: bool, dirty: bool)

  datatype Window = Window(
    id: WindowID,
    style: Style,
    state: WindowState,
    rect: Rect,
    dirtyRect: Rect,
    zOrder: ZOrder,
    queue: seq<PackagedMessage>,
    children: seq<Window>)

  datatype Hooks = Hooks(
    onCreate: Window -> bool,
    onDestroy: Window -> bool,
    /** onDraw: whether the widget painted and went on to MSG_POSTDRAW. */
    onDraw: (Window, MsgParam) -> bool,
    onTapped: (Window, Coord, Coord) -> bool,
    onEvent: (Window, MsgParam, MsgParam) -> bool,
    onResize: Window -> bool)

  datatype Env = Env(display: Rect, hooks: Hooks)

  /** The result of an operation on one window: the new window, the operation's
      boolean result, and the rects it marks dirty on its parent. */
  datatype Step = Step(w: Window, ok: bool, marks: seq<Rect>)

  /** The same for an operation over a run of siblings. */
  datatype KidsStep = KidsStep(kids: seq<Window>, ok: bool, marks: seq<Rect>)

  /** A freshly constructed window: dirty rect = rect, STA_DIRTY set
      (`setDirty(true, false)` in the constructor), no children. */
  function NewWindow(id: WindowID, style: Style, rect: Rect): (w: Window)
    ensures w.rect == w.dirtyRect == rect && w.state == WindowState(false, false, true)
    ensures w.queue == [] && w.children == [] && w.zOrder == 0
  {
    Window(id, style, WindowState(false, false, true), rect, rect, 0, [], [])
  }

  predicate IsVisible(w: Window) {
    BitsHigh(w.style, STY_VISIBLE) && !IsEmpty(w.rect)
  }

  predicate IsAlive(w: Window) {
    w.state.alive
  }

  predicate IsDirty(w: Window) {
    w.state.dirty
  }

  /** isDrawable, with the parent's drawability given (true for a top-level
      window). */
  predicate IsDrawable(w: Window, parentDrawable: bool, display: Rect) {
    IsVisible(w) && IsAlive(w) && parentDrawable && !OutsideRect(w.rect, display)
  }

  function Max2(a: nat, b: nat): nat { if a >= b then a else b }

  /** Height of a window tree: the termination measure for the operations that
      change a window before they visit its children. */
  function Depth(w: Window): nat
    decreases w
  {
    1 + KidsDepth(w.children)
  }

  function KidsDepth(ks: seq<Window>): nat
    decreases ks
  {
    if |ks| == 0 then 0 else Max2(Depth(ks[0]), KidsDepth(ks[1..]))
  }

  function SetDirtyBit(w: Window): Window {
    w.(state := w.state.(dirty := true))
  }

  function ClearDirtyBit(w: Window): Window {
    w.(state := w.state.(dirty := false))
  }

  /** Every child gets `setDirty(true, false)`. */
  function SetKidsDirty(ks: seq<Window>): (r: seq<Window>)
    ensures |r| == |ks| && KidsDepth(r) == KidsDepth(ks)
    ensures forall i :: 0 <= i < |ks| ==> r[i] == SetDirtyBit(ks[i])
  {
    if |ks| == 0 then [] else [SetDirtyBit(ks[0])] + SetKidsDirty(ks[1..])
  }

  /** markRectDirty. A non-empty rect widens the dirty rect edge by edge, but
      only with edges inside the window's rect, and a dirty edge of 0 counts
      as unset (see MarkZeroSentinelShrinks). An empty rect clears the dirty
      rect of the window and of all its descendants. */
  function MarkRectDirty(w: Window, r: Rect): (m: Window)
    ensures m.(dirtyRect := w.dirtyRect, children := w.children) == w
    ensures |m.children| == |w.children| && Depth(m) == Depth(w)
    ensures !IsEmpty(r) ==> m.children == w.children
    ensures forall i :: 0 <= i < |w.children| ==> m.children[i].queue == w.children[i].queue
    ensures forall i :: 0 <= i < |w.children| ==>
      m.children[i].(dirtyRect := w.children[i].dirtyRect, children := w.children[i].children) == w.children[i] &&
      |m.children[i].children| == |w.children[i].children|
    decreases w, 1
  {
    if !IsEmpty(r) then
      var wr := w.rect;
      var d := w.dirtyRect;
      var left := if r.left >= wr.left && (r.left < d.left || d.left == 0) then r.left else d.left;
      var top := if r.top >= wr.top && (r.top < d.top || d.top == 0) then r.top else d.top;
      var right := if r.right <= wr.right && r.right > d.right then r.right else d.right;
      var bottom := if r.bottom <= wr.bottom && r.bottom > d.bottom then r.bottom else d.bottom;
      w.(dirtyRect := Rect(left, top, right, bottom))
    else
      w.(dirtyRect := EmptyRect, children := ClearKids(w.children))
  }

  /** Each child gets `markRectDirty(Rect())`. */
  function ClearKids(ks: seq<Window>): (r: seq<Window>)
    ensures |r| == |ks| && KidsDepth(r) == KidsDepth(ks)
    ensures forall i :: 0 <= i < |ks| ==> r[i] == MarkRectDirty(ks[i], EmptyRect)
    decreases ks, 0
  {
    if |ks| == 0 then [] else [MarkRectDirty(ks[0], EmptyRect)] + ClearKids(ks[1..])
  }

  /** The parent side of POSTDRAW: apply the children's marks in order. */
  function MarkAll(w: Window, rs: seq<Rect>): (m: Window)
    ensures m.(dirtyRect := w.dirtyRect, children := w.children) == w
    ensures |m.children| == |w.children| && Depth(m) == Depth(w)
    ensures forall i :: 0 <= i < |w.children| ==> m.children[i].queue == w.children[i].queue
    ensures forall i :: 0 <= i < |w.children| ==>
      m.children[i].(dirtyRect := w.children[i].dirtyRect, children := w.children[i].children) == w.children[i] &&
      |m.children[i].children| == |w.children[i].children|
    decreases |rs|
  {
    if |rs| == 0 then w else MarkAll(MarkRectDirty(w, rs[0]), rs[1..])
  }

  /** routeMessage(MSG_POSTDRAW): onPostDraw marks the window's rect dirty on
      the window itself and on its parent. */
  function PostDraw(w: Window): Step {
    Step(MarkRectDirty(w, w.rect), true, [w.rect])
  }

  /** routeMessage(MSG_DRAW, p1): nothing unless the window is drawable and
      dirty or forced (p1 != 0); otherwise onDraw (which routes POSTDRAW when
      it painted) and STA_DIRTY cleared. */
  function Draw(w: Window, parentDrawable: bool, p1: MsgParam, env: Env): (s: Step)
    ensures s.w.children == w.children && s.w.id == w.id && s.w.zOrder == w.zOrder
    ensures s.w.queue == w.queue && s.w.style == w.style && s.w.rect == w.rect
    ensures s.w.state.(dirty := w.state.dirty) == w.state
  {
    if !IsDrawable(w, parentDrawable, env.display) then Step(w, false, [])
    else if !IsDirty(w) && p1 == 0 then Step(w, false, [])
    else
      var post := if env.hooks.onDraw(w, p1) then PostDraw(w) else Step(w, false, []);
      Step(ClearDirtyBit(post.w), post.ok, post.marks)
  }

  /** The first half of redraw(force): the window's own draw, when it is dirty
      or forced, and then every child flagged dirty if the window painted. */
  function RedrawOwn(w: Window, parentDrawable: bool, force: bool, env: Env): (s: Step)
    ensures s.w.id == w.id && s.w.zOrder == w.zOrder && s.w.style == w.style
    ensures s.w.rect == w.rect && s.w.queue == w.queue
    ensures |s.w.children| == |w.children| && KidsDepth(s.w.children) == KidsDepth(w.children)
    ensures forall i :: 0 <= i < |w.children| ==> s.w.children[i].queue == w.children[i].queue
    ensures s.w.state.(dirty := w.state.dirty) == w.state
    ensures IsDrawable(w, parentDrawable, env.display) && (IsDirty(w) || force) ==> !IsDirty(s.w)
  {
    var own := if IsDirty(w) || force then Draw(w, parentDrawable, if force then 1 else 0, env)
               else Step(w, false, []);
    if own.ok then Step(own.w.(children := SetKidsDirty(own.w.children)), true, own.marks) else own
  }

  /** redraw(force). */
  function Redraw(w: Window, parentDrawable: bool, force: bool, env: Env): (s: Step)
    ensures s.w.id == w.id && s.w.zOrder == w.zOrder && s.w.style == w.style
    ensures s.w.rect == w.rect && s.w.queue == w.queue
    ensures |s.w.children| == |w.children| && Depth(s.w) == Depth(w)
    ensures forall i :: 0 <= i < |w.children| ==> s.w.children[i].queue == w.children[i].queue
    ensures s.w.state.(dirty := w.state.dirty) == w.state
    decreases Depth(w), 1
  {
    if !IsDrawable(w, parentDrawable, env.display) then Step(w, false, [])
    else
      var own := RedrawOwn(w, parentDrawable, force, env);
      var w1 := own.w;
      var k := RedrawKids(w1.children, IsDrawable(w1, parentDrawable, env.display), force, env);
      var w2 := w1.(children := k.kids);
      assert Depth(w2) == Depth(w);
      Step(MarkAll(w2, k.marks), own.ok || k.ok, own.marks)
  }

  /** redrawChildren(force): every child that is dirty (or all, when forced)
      is redrawn; the result says whether any was. */
  function RedrawKids(ks: seq<Window>, parentDrawable: bool, force: bool, env: Env): (k: KidsStep)
    ensures |k.kids| == |ks| && KidsDepth(k.kids) == KidsDepth(ks)
    ensures forall i :: 0 <= i < |ks| ==> k.kids[i].id == ks[i].id && k.kids[i].zOrder == ks[i].zOrder
    ensures forall i :: 0 <= i < |ks| ==> k.kids[i].queue == ks[i].queue
    decreases KidsDepth(ks) + 1, 0, |ks|
  {
    if |ks| == 0 then KidsStep([], false, [])
    else
      var c := ks[0];
      var s := if IsDirty(c) || force then Redraw(c, parentDrawable, force, env) else Step(c, false, []);
      var rest := RedrawKids(ks[1..], parentDrawable, force, env);
      KidsStep([s.w] + rest.kids, s.ok || rest.ok, s.marks + rest.marks)
  }

  /** setDirty(dirty, redrawWindow): setting the flag redraws the window when
      asked to and returns redraw()'s result; otherwise the result is true. */
  function SetDirty(w: Window, parentDrawable: bool, dirty: bool, redrawWindow: bool, env: Env): (s: Step)
    ensures s.w.id == w.id && s.w.zOrder == w.zOrder && s.w.queue == w.queue
    ensures s.w.style == w.style && s.w.rect == w.rect
    ensures |s.w.children| == |w.children| && Depth(s.w) == Depth(w)
    ensures forall i :: 0 <= i < |w.children| ==> s.w.children[i].queue == w.children[i].queue
    ensures dirty && !redrawWindow ==> s == Step(SetDirtyBit(w), true, [])
    ensures !dirty ==> s == Step(ClearDirtyBit(w), true, [])
    ensures s.w.state.(dirty := w.state.dirty) == w.state
  {
    if dirty then
      if redrawWindow then Redraw(SetDirtyBit(w), parentDrawable, false, env)
      else Step(SetDirtyBit(w), true, [])
    else Step(ClearDirtyBit(w), true, [])
  }

  /** setStyle: a changed style marks the window dirty and redraws it. The
      step's boolean is meaningless (setStyle returns nothing). */
  function SetStyle(w: Window, parentDrawable: bool, style: Style, env: Env): (s: Step)
    ensures s.w.style == style && s.w.id == w.id && s.w.zOrder == w.zOrder
    ensures s.w.queue == w.queue && s.w.rect == w.rect
    ensures |s.w.children| == |w.children| && Depth(s.w) == Depth(w)
    ensures forall i :: 0 <= i < |w.children| ==> s.w.children[i].queue == w.children[i].queue
    ensures style == w.style ==> s.w == w
    ensures s.w.state.(dirty := w.state.dirty) == w.state
  {
    if style != w.style then SetDirty(w.(style := style), parentDrawable, true, true, env)
    else Step(w, true, [])
  }

  /** onInput: the low word of p1 is the input type, p2 packs x (high word)
      and y (low word); a tap goes to onTapped, any other type is refused. */
  function OnInput(w: Window, p1: MsgParam, p2: MsgParam, env: Env): bool {
    if LoWord(p1) == INPUT_TAP then
      env.hooks.onTapped(w, WordToCoord(HiWord(p2)), WordToCoord(LoWord(p2)))
    else false
  }

  /** The tail of routeMessage: when the handler reported the window dirty,
      setDirty(true) (which redraws); the result is the handler's. */
  function DirtyIfHandled(w: Window, parentDrawable: bool, handled: bool, env: Env): (s: Step)
    ensures s.ok == handled && s.w.id == w.id && s.w.zOrder == w.zOrder
    ensures s.w.queue == w.queue && s.w.style == w.style && s.w.rect == w.rect
    ensures |s.w.children| == |w.children| && Depth(s.w) == Depth(w)
    ensures forall i :: 0 <= i < |w.children| ==> s.w.children[i].queue == w.children[i].queue
    ensures !handled ==> s == Step(w, false, [])
    ensures s.w.state.(dirty := w.state.dirty) == w.state
  {
    if handled then
      var d := SetDirty(w, parentDrawable, true, true, env);
      Step(d.w, true, d.marks)
    else Step(w, false, [])
  }

  /** routeMessage. */
  function RouteMessage(w: Window, parentDrawable: bool, msg: Message, p1: MsgParam, p2: MsgParam, env: Env): (s: Step)
    ensures s.w.id == w.id && s.w.zOrder == w.zOrder && s.w.queue == w.queue
    ensures s.w.style == w.style && s.w.rect == w.rect
    ensures |s.w.children| == |w.children| && Depth(s.w) == Depth(w)
    ensures forall i :: 0 <= i < |w.children| ==> s.w.children[i].queue == w.children[i].queue
  {
    match msg
    case MsgCreate =>
      var handled := env.hooks.onCreate(w);
      DirtyIfHandled(if handled then w.(state := w.state.(alive := true)) else w, parentDrawable, handled, env)
    case MsgDestroy =>
      Step(w.(state := w.state.(alive := false)), env.hooks.onDestroy(w), [])
    case MsgDraw => Draw(w, parentDrawable, p1, env)
    case MsgPostDraw => PostDraw(w)
    case MsgInput => DirtyIfHandled(w, parentDrawable, OnInput(w, p1, p2, env), env)
    case MsgEvent => Step(w, env.hooks.onEvent(w, p1, p2), [])
    case MsgResize => DirtyIfHandled(w, parentDrawable, env.hooks.onResize(w), env)
    case MsgNone => Step(w, false, [])
  }

  /** queueMessage: the message joins the back of the queue; the result says
      whether it is a tap. */
  function QueueMessage(w: Window, msg: Message, p1: MsgParam, p2: MsgParam): (s: Step)
    ensures s.w == w.(queue := w.queue + [PackagedMessage(msg, p1, p2)]) && s.marks == []
    ensures s.ok <==> msg == MsgInput && LoWord(p1) == INPUT_TAP
  {
    Step(w.(queue := w.queue + [PackagedMessage(msg, p1, p2)]), msg == MsgInput && LoWord(p1) == INPUT_TAP, [])
  }

  /** The queue after popping its front message, if any. */
  function Tail(q: seq<PackagedMessage>): seq<PackagedMessage> {
    if |q| == 0 then [] else q[1..]
  }

  /** processQueue: route the front message, if any, then let every child
      process one of its own; the result says whether the window's own queue
      still holds messages. */
  function ProcessQueue(w: Window, parentDrawable: bool, env: Env): (s: Step)
    ensures s.w.id == w.id && s.w.zOrder == w.zOrder && s.w.style == w.style && s.w.rect == w.rect
    ensures s.w.queue == Tail(w.queue)
    ensures s.ok <==> |s.w.queue| > 0
    ensures |s.w.children| == |w.children| && Depth(s.w) == Depth(w)
    ensures forall i :: 0 <= i < |w.children| ==> s.w.children[i].queue == Tail(w.children[i].queue)
    decreases Depth(w), 1
  {
    var own := if |w.queue| == 0 then Step(w, false, [])
      else var pm := w.queue[0];
        RouteMessage(w.(queue := w.queue[1..]), parentDrawable, pm.msg, pm.p1, pm.p2, env);
    var k := ProcessKids(own.w.children, IsDrawable(own.w, parentDrawable, env.display), env);
    var w2 := MarkAll(own.w.(children := k.kids), k.marks);
    Step(w2, |w2.queue| > 0, own.marks)
  }

  function ProcessKids(ks: seq<Window>, parentDrawable: bool, env: Env): (k: KidsStep)
    ensures |k.kids| == |ks| && KidsDepth(k.kids) == KidsDepth(ks)
    ensures forall i :: 0 <= i < |ks| ==> k.kids[i].id == ks[i].id && k.kids[i].zOrder == ks[i].zOrder
    ensures forall i :: 0 <= i < |ks| ==> k.kids[i].queue == Tail(ks[i].queue)
    decreases KidsDepth(ks) + 1, 0, |ks|
  {
    if |ks| == 0 then KidsStep([], false, [])
    else
      var s := ProcessQueue(ks[0], parentDrawable, env);
      var rest := ProcessKids(ks[1..], parentDrawable, env);
      KidsStep([s.w] + rest.kids, false, s.marks + rest.marks)
  }

  /** `while (win->processQueue()) {}`: repeat until the window's own queue is
      empty. */
  function Drain(w: Window, parentDrawable: bool, env: Env): (d: Window)
    ensures d.queue == [] && d.id == w.id && d.zOrder == w.zOrder
    ensures d.style == w.style && d.rect == w.rect
    decreases |w.queue|
  {
    var s := ProcessQueue(w, parentDrawable, env);
    if s.ok then Drain(s.w, parentDrawable, env) else s.w
  }

  /** The result of processInput: the new window, whether the input was
      claimed and, when it was, the path (relative to this window) of the
      window that queued it. */
  datatype InputResult = InputResult(w: Window, handled: bool, handler: seq<nat>)
  datatype KidsInputResult = KidsInputResult(kids: seq<Window>, handled: bool, handler: seq<nat>)

  /** processInput: a drawable window whose rect holds the point offers it to
      its children topmost (last) first and, if none claims it, queues
      MSG_INPUT on itself. */
  function ProcessInput(w: Window, parentDrawable: bool, inputType: MsgParamWord, x: Coord, y: Coord, env: Env): (r: InputResult)
    ensures r.w.id == w.id && r.w.zOrder == w.zOrder && |r.w.children| == |w.children|
    decreases w, 1
  {
    if !IsDrawable(w, parentDrawable, env.display) || !PointWithin(w.rect, x, y) then
      InputResult(w, false, [])
    else
      var k := InputKids(w.children, true, inputType, x, y, |w.children|, env);
      if k.handled then InputResult(w.(children := k.kids), true, k.handler)
      else
        var q := QueueMessage(w.(children := k.kids), MsgInput, MakeMsgParam(0, inputType),
                              MakeMsgParam(CoordToWord(x), CoordToWord(y)));
        InputResult(q.w, q.ok, [])
  }

  /** The children below index n, tried from n-1 down to 0 until one claims
      the input. */
  function InputKids(ks: seq<Window>, parentDrawable: bool, inputType: MsgParamWord, x: Coord, y: Coord, n: nat, env: Env): (k: KidsInputResult)
    requires n <= |ks|
    ensures |k.kids| == |ks| && k.kids[n..] == ks[n..]
    ensures forall i :: 0 <= i < |ks| ==> k.kids[i].id == ks[i].id && k.kids[i].zOrder == ks[i].zOrder
    decreases ks, 0, n
  {
    if n == 0 then KidsInputResult(ks, false, [])
    else
      var r := ProcessInput(ks[n - 1], parentDrawable, inputType, x, y, env);
      if r.handled then KidsInputResult(ks[n - 1 := r.w], true, [n - 1] + r.handler)
      else
        var rest := InputKids(ks, parentDrawable, inputType, x, y, n - 1, env);
        KidsInputResult(rest.kids[n - 1 := r.w], rest.handled, rest.handler)
  }

  /** destroy: hide, route MSG_DESTROY, destroy every child, then drop the
      children. The rects hide() passes to the manager's setDirtyRect are not
      applied here: the second component lists them in order, and the caller
      applies them once the whole subtree is destroyed. Those calls can reach
      the subtree itself (see ManagerFacts.DestroyHookSeesDirtyRectBeforeHide),
      so each onDestroy sees its window's dirty rects as they were before. */
  datatype DestroyResult = DestroyResult(w: Window, ok: bool, hidden: seq<Rect>)

  /** hide() on one window, minus the call to setDirtyRect. */
  function HideWindow(w: Window): (h: Window)
    ensures IsVisible(w) ==> !BitsHigh(h.style, STY_VISIBLE) && IsDirty(h)
    ensures !IsVisible(w) ==> h == w
  {
    if IsVisible(w) then SetDirtyBit(w.(style := w.style & !STY_VISIBLE)) else w
  }

  function DestroyTree(w: Window, env: Env): (r: DestroyResult)
    ensures r.w.children == [] && !IsAlive(r.w) && r.w.id == w.id && r.w.zOrder == w.zOrder
    decreases w, 1
  {
    var h := HideWindow(w);
    var own := RouteMessage(h, false, MsgDestroy, 0, 0, env);
    var k := DestroyKids(w.children, env);
    DestroyResult(own.w.(children := []), own.ok && k.ok,
                  (if IsVisible(w) then [w.rect] else []) + k.hidden)
  }

  datatype KidsDestroyResult = KidsDestroyResult(ok: bool, hidden: seq<Rect>)

  function DestroyKids(ks: seq<Window>, env: Env): KidsDestroyResult
    decreases ks, 0
  {
    if |ks| == 0 then KidsDestroyResult(true, [])
    else
      var r := DestroyTree(ks[0], env);
      var rest := DestroyKids(ks[1..], env);
      KidsDestroyResult(r.ok && rest.ok, r.hidden + rest.hidden)
  }
}
