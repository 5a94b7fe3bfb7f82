// The older twm engine's Window (include/twm.h, class Window) as a value.
//
// twm has no dirty rects and no z-order: a window is its id, style, state
// bits, rect, message queue and children. As in module Windows, the window
// tree is a `seq<TWindow>` addressed by paths of child indices and the
// parent back-pointer is replaced by passing the parent's drawability down.
// What a redraw paints is returned as the sequence of window rects whose
// onDraw ran, in order.
//
// The widget hooks onCreate, onDraw, onTapped, onEvent and onResize are the
// `THooks` record; onDestroy is not overridden by any twm widget, so the
// default handler (clear STA_ALIVE, return true) is modelled directly.
module TwmWindows {
  import opened Geometry
  import opened Messages

  /** twm's overlapsRect: some corner of `r` lies inside `other` (unlike
      exostra's edge test). outsideRect, withinRect and pointWithin are the
      same in both engines, as are inflate and deflate. */
  predicate TwmOverlapsRect(r: Rect, other: Rect) {
    PointWithin(other, r.left, r.top) ||
    PointWithin(other, r.right, r.top) ||
    PointWithin(other, r.left, r.bottom) ||
    PointWithin(other, r.right, r.bottom)
  }

  /** twm's Message enumeration: MSG_NONE = 0 up to MSG_RESIZE = 6 (there is
      no MSG_POSTDRAW). */
  datatype TwmMessage = TNone | TCreate | TDestroy | TDraw | TInput | TEvent | TResize

  function TwmMessageCode(m: TwmMessage): (code: nat)
    ensures code < 7
    ensures code == 0 <==> m.TNone?
  {
    match m
    case TNone => 0
    case TCreate => 1
    case TDestroy => 2
    case TDraw => 3
    case TInput => 4
    case TEvent => 5
    case TResize => 6
  }

  /** The twm message an integer names, if any. */
  function TwmMessageOfCode(c: int): (m: Option<TwmMessage>)
    ensures m.Some? <==> 0 <= c < 7
  {
    if c == 0 then Some(TNone)
    else if c == 1 then Some(TCreate)
    else if c == 2 then Some(TDestroy)
    else if c == 3 then Some(TDraw)
    else if c == 4 then Some(TInput)
    else if c == 5 then Some(TEvent)
    else if c == 6 then Some(TResize)
    else None
  }

  /** twm's enumeration numbers its messages densely, each with its own
      value: codes and the messages they name are inverse. */
  lemma {:induction false} TwmMessageCodeRoundTrip(m: TwmMessage, c: int)
    ensures TwmMessageOfCode(TwmMessageCode(m)) == Some(m)
    ensures TwmMessageOfCode(c).Some? ==> TwmMessageCode(TwmMessageOfCode(c).value) == c
  {
  }

  /** Distinct twm messages have distinct codes. */
  lemma TwmMessageCodeInjective(a: TwmMessage, b: TwmMessage)
    ensures TwmMessageCode(a) == TwmMessageCode(b) <==> a == b
  {
    TwmMessageCodeRoundTrip(a, 0);
    TwmMessageCodeRoundTrip(b, 0);
  }

  datatype TwmPackaged = TwmPackaged(msg: TwmMessage, p1: MsgParam, p2: MsgParam)

  /** The State bitmask: STA_ALIVE and STA_CHECKED. */
  datatype TwmState = TwmState(alive: bool, checked: bool)

  datatype TWindow = TWindow(
    id: WindowID,
    style: Style,
    state: TwmState,
    rect: Rect,
    queue: seq<TwmPackaged>,
    children: seq<TWindow>)

  datatype THooks = THooks(
    onCreate: TWindow -> bool,
    onDraw: TWindow -> bool,
    onTapped: (TWindow, Coord, Coord) -> bool,
    onEvent: (TWindow, MsgParam, MsgParam) -> bool,
    onResize: TWindow -> bool)

  /** The result of an operation on one window: the new window and the
      operation's boolean result. */
  datatype TStep = TStep(w: TWindow, ok: bool)

  /** A freshly constructed window: state 0, nothing queued, no children. */
  function NewTWindow(id: WindowID, style: Style, rect: Rect): (w: TWindow)
    ensures w.id == id && w.style == style && w.rect == rect
    ensures w.state == TwmState(false, false) && w.queue == [] && w.children == []
  {
    TWindow(id, style, TwmState(false, false), rect, [], [])
  }

  /** isVisible: the STY_VISIBLE bit, nothing else. */
  predicate IsVisible(w: TWindow) {
    BitsHigh(w.style, STY_VISIBLE)
  }

  predicate IsAlive(w: TWindow) {
    w.state.alive
  }

  /** isDrawable: visible, alive, and a drawable parent (true at top level). */
  predicate IsDrawable(w: TWindow, parentDrawable: bool) {
    IsVisible(w) && IsAlive(w) && parentDrawable
  }

  // ---------------------------------------------------------------------
  // Messages

  /** onInput: the type in p1's low word, (x, y) in p2's high and low words;
      a tap goes to onTapped, any other type is not handled. */
  function OnInput(w: TWindow, p1: MsgParam, p2: MsgParam, hooks: THooks): bool {
    if LoWord(p1) == INPUT_TAP then hooks.onTapped(w, WordToCoord(HiWord(p2)), WordToCoord(LoWord(p2)))
    else false
  }

  /** routeMessage: MSG_DESTROY runs the default onDestroy (STA_ALIVE cleared,
      true); MSG_DRAW is refused for a window that is not drawable; every
      other message is its handler's answer; MSG_NONE is not handled. */
  function RouteMessage(w: TWindow, parentDrawable: bool, msg: TwmMessage, p1: MsgParam, p2: MsgParam, hooks: THooks): (s: TStep)
    ensures s.w == if msg == TDestroy then w.(state := w.state.(alive := false)) else w
    ensures msg == TDestroy ==> s.ok
    ensures msg == TDraw ==> (s.ok <==> IsDrawable(w, parentDrawable) && hooks.onDraw(w))
    ensures msg == TNone ==> !s.ok
  {
    match msg
    case TCreate => TStep(w, hooks.onCreate(w))
    case TDestroy => TStep(w.(state := w.state.(alive := false)), true)
    case TDraw => if !IsDrawable(w, parentDrawable) then TStep(w, false) else TStep(w, hooks.onDraw(w))
    case TInput => TStep(w, OnInput(w, p1, p2, hooks))
    case TEvent => TStep(w, hooks.onEvent(w, p1, p2))
    case TResize => TStep(w, hooks.onResize(w))
    case TNone => TStep(w, false)
  }

  /** queueMessage: the message joins the back of the queue; the result says
      whether it is a tap. */
  function QueueMessage(w: TWindow, msg: TwmMessage, p1: MsgParam, p2: MsgParam): (s: TStep)
    ensures s.w == w.(queue := w.queue + [TwmPackaged(msg, p1, p2)])
    ensures s.ok <==> msg == TInput && LoWord(p1) == INPUT_TAP
  {
    TStep(w.(queue := w.queue + [TwmPackaged(msg, p1, p2)]), msg == TInput && LoWord(p1) == INPUT_TAP)
  }

  /** The queue after its front message, if any, is taken. */
  function TTail(q: seq<TwmPackaged>): (t: seq<TwmPackaged>)
    ensures |q| > 0 ==> |t| == |q| - 1
  {
    if |q| == 0 then [] else q[1..]
  }

  /** processQueue: route the front message, if any, then let every child
      process one of its own; the result says whether the window's own queue
      still holds messages. */
  function ProcessQueue(w: TWindow, parentDrawable: bool, hooks: THooks): (s: TStep)
    ensures s.w.id == w.id && s.w.style == w.style && s.w.rect == w.rect
    ensures s.w.queue == TTail(w.queue)
    ensures s.ok <==> |s.w.queue| > 0
    ensures |s.w.children| == |w.children|
    ensures forall i :: 0 <= i < |w.children| ==> s.w.children[i].queue == TTail(w.children[i].queue)
    ensures s.w.state.checked == w.state.checked
    decreases w, 1
  {
    var own := if |w.queue| == 0 then w
      else var pm := w.queue[0];
        RouteMessage(w.(queue := w.queue[1..]), parentDrawable, pm.msg, pm.p1, pm.p2, hooks).w;
    var kids := ProcessKids(own.children, IsDrawable(own, parentDrawable), hooks);
    TStep(own.(children := kids), |own.queue| > 0)
  }

  function ProcessKids(ks: seq<TWindow>, parentDrawable: bool, hooks: THooks): (r: seq<TWindow>)
    ensures |r| == |ks|
    ensures forall i :: 0 <= i < |ks| ==> r[i].id == ks[i].id && r[i].queue == TTail(ks[i].queue)
    decreases ks, 0
  {
    if |ks| == 0 then []
    else [ProcessQueue(ks[0], parentDrawable, hooks).w] + ProcessKids(ks[1..], parentDrawable, hooks)
  }

  /** `while (win->processQueue());`: repeat until the window's own queue is
      empty. */
  function Drain(w: TWindow, parentDrawable: bool, hooks: THooks): (d: TWindow)
    ensures d.queue == [] && d.id == w.id && d.style == w.style && d.rect == w.rect
    ensures |d.children| == |w.children|
    decreases |w.queue|
  {
    var s := ProcessQueue(w, parentDrawable, hooks);
    if s.ok then Drain(s.w, parentDrawable, hooks) else s.w
  }

  // ---------------------------------------------------------------------
  // Input

  /** The result of processInput: the new window, whether the input was
      claimed and, when it was, the path (relative to this window) of the
      window that queued it. */
  datatype TInputResult = TInputResult(w: TWindow, handled: bool, handler: seq<nat>)
  datatype TKidsInputResult = TKidsInputResult(kids: seq<TWindow>, handled: bool, handler: seq<nat>)

  /** processInput: a drawable window whose rect holds the point offers it to
      its children topmost (last) first and, if none claims it, queues
      MSG_INPUT on itself. */
  function ProcessInput(w: TWindow, parentDrawable: bool, inputType: MsgParamWord, x: Coord, y: Coord, hooks: THooks): (r: TInputResult)
    ensures r.w.id == w.id && |r.w.children| == |w.children|
    decreases w, 1
  {
    if !IsDrawable(w, parentDrawable) || !PointWithin(w.rect, x, y) then
      TInputResult(w, false, [])
    else
      var k := InputKids(w.children, true, inputType, x, y, |w.children|, hooks);
      if k.handled then TInputResult(w.(children := k.kids), true, k.handler)
      else
        var q := QueueMessage(w.(children := k.kids), TInput, MakeMsgParam(0, inputType),
                              MakeMsgParam(CoordToWord(x), CoordToWord(y)));
        TInputResult(q.w, q.ok, [])
  }

  /** The children below index n, tried from n - 1 down to 0 until one claims
      the input. */
  function InputKids(ks: seq<TWindow>, parentDrawable: bool, inputType: MsgParamWord, x: Coord, y: Coord, n: nat, hooks: THooks): (k: TKidsInputResult)
    requires n <= |ks|
    ensures |k.kids| == |ks| && k.kids[n..] == ks[n..]
    ensures forall i :: 0 <= i < |ks| ==> k.kids[i].id == ks[i].id
    decreases ks, 0, n
  {
    if n == 0 then TKidsInputResult(ks, false, [])
    else
      var r := ProcessInput(ks[n - 1], parentDrawable, inputType, x, y, hooks);
      if r.handled then TKidsInputResult(ks[n - 1 := r.w], true, [n - 1] + r.handler)
      else
        var rest := InputKids(ks, parentDrawable, inputType, x, y, n - 1, hooks);
        TKidsInputResult(rest.kids[n - 1 := r.w], rest.handled, rest.handler)
  }

  // ---------------------------------------------------------------------
  // Drawing, hide, show, destroy

  /** What redraw() reports and paints. */
  datatype TRedraw = TRedraw(ok: bool, painted: seq<Rect>)

  /** redraw: nothing for a window that is not drawable; otherwise MSG_DRAW
      (onDraw paints the window's rect), then every child's redraw, the result
      being the conjunction (`&=`) of them all. */
  function Redraw(w: TWindow, parentDrawable: bool, hooks: THooks): (r: TRedraw)
    ensures !IsDrawable(w, parentDrawable) ==> r == TRedraw(false, [])
    ensures IsDrawable(w, parentDrawable) ==> |r.painted| > 0 && r.painted[0] == w.rect
    decreases w, 1
  {
    if !IsDrawable(w, parentDrawable) then TRedraw(false, [])
    else
      var own := RouteMessage(w, parentDrawable, TDraw, 0, 0, hooks);
      var k := RedrawKids(w.children, hooks);
      TRedraw(own.ok && k.ok, [w.rect] + k.painted)
  }

  /** Every child's redraw in order (the parent being drawable). */
  function RedrawKids(ks: seq<TWindow>, hooks: THooks): (r: TRedraw)
    decreases ks, 0
  {
    if |ks| == 0 then TRedraw(true, [])
    else
      var a := Redraw(ks[0], true, hooks);
      var rest := RedrawKids(ks[1..], hooks);
      TRedraw(a.ok && rest.ok, a.painted + rest.painted)
  }

  /** hide: false if already hidden, else STY_VISIBLE cleared. */
  function Hide(w: TWindow): (s: TStep)
    ensures s.ok <==> IsVisible(w)
    ensures !IsVisible(s.w) && s.w.(style := w.style) == w
    ensures s.w.style | STY_VISIBLE == w.style | STY_VISIBLE
  {
    if !IsVisible(w) then TStep(w, false)
    else TStep(w.(style := w.style & !STY_VISIBLE), true)
  }

  /** What show() does: false if already visible; else STY_VISIBLE set and
      the result of redraw(). */
  datatype TShow = TShow(w: TWindow, ok: bool, painted: seq<Rect>)

  function Show(w: TWindow, parentDrawable: bool, hooks: THooks): (s: TShow)
    ensures IsVisible(s.w) && s.w.(style := w.style) == w
    ensures s.w.style & !STY_VISIBLE == w.style & !STY_VISIBLE
    ensures IsVisible(w) ==> s == TShow(w, false, [])
    ensures !IsVisible(w) ==> s.w == w.(style := w.style | STY_VISIBLE)
    ensures !IsVisible(w) ==> s.ok == Redraw(s.w, parentDrawable, hooks).ok &&
                              s.painted == Redraw(s.w, parentDrawable, hooks).painted
  {
    if IsVisible(w) then TShow(w, false, [])
    else
      var v := w.(style := w.style | STY_VISIBLE);
      var r := Redraw(v, parentDrawable, hooks);
      TShow(v, r.ok, r.painted)
  }

  /** destroy: MSG_DESTROY (the default onDestroy clears STA_ALIVE and answers
      true), every child destroyed, the children dropped. The result is the
      conjunction of the answers, which are all true. */
  function Destroy(w: TWindow, hooks: THooks): (s: TStep)
    ensures s.w == w.(state := w.state.(alive := false), children := [])
    ensures s.ok
    decreases w, 1
  {
    var own := RouteMessage(w, false, TDestroy, 0, 0, hooks);
    var kids := DestroyKids(w.children, hooks);
    TStep(own.w.(children := []), own.ok && kids)
  }

  function DestroyKids(ks: seq<TWindow>, hooks: THooks): (ok: bool)
    ensures ok
    decreases ks, 0
  {
    if |ks| == 0 then true
    else Destroy(ks[0], hooks).ok && DestroyKids(ks[1..], hooks)
  }

  // ---------------------------------------------------------------------
  // Paths into the window tree

  predicate TValidPath(ws: seq<TWindow>, p: seq<nat>)
    decreases p
  {
    |p| > 0 && p[0] < |ws| && (|p| == 1 || TValidPath(ws[p[0]].children, p[1..]))
  }

  function TAt(ws: seq<TWindow>, p: seq<nat>): TWindow
    requires TValidPath(ws, p)
    decreases p
  {
    if |p| == 1 then ws[p[0]] else TAt(ws[p[0]].children, p[1..])
  }

  /** isDrawable of the window at `p`, evaluated from the top. */
  predicate TDrawableAlong(ws: seq<TWindow>, p: seq<nat>, parentDrawable: bool)
    requires TValidPath(ws, p)
    decreases p
  {
    var d := IsDrawable(ws[p[0]], parentDrawable);
    if |p| == 1 then d else TDrawableAlong(ws[p[0]].children, p[1..], d)
  }

  /** The tree with the window at `p` replaced by `w`. */
  function TReplaceAt(ws: seq<TWindow>, p: seq<nat>, w: TWindow): (r: seq<TWindow>)
    requires TValidPath(ws, p)
    ensures |r| == |ws|
    decreases p
  {
    if |p| == 1 then ws[p[0] := w]
    else ws[p[0] := ws[p[0]].(children := TReplaceAt(ws[p[0]].children, p[1..], w))]
  }

  lemma TReplaceAtGet(ws: seq<TWindow>, p: seq<nat>, w: TWindow)
    requires TValidPath(ws, p)
    ensures TValidPath(TReplaceAt(ws, p, w), p) && TAt(TReplaceAt(ws, p, w), p) == w
    decreases p
  {
    if |p| > 1 {
      TReplaceAtGet(ws[p[0]].children, p[1..], w);
    }
  }

  lemma TAtExtend(ws: seq<TWindow>, p: seq<nat>, k: nat)
    requires TValidPath(ws, p) && k < |TAt(ws, p).children|
    ensures TValidPath(ws, p + [k]) && TAt(ws, p + [k]) == TAt(ws, p).children[k]
    decreases p
  {
    if |p| > 1 {
      TAtExtend(ws[p[0]].children, p[1..], k);
      assert (p + [k])[1..] == p[1..] + [k];
    }
  }
}
