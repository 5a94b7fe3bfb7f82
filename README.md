# twm / exostra window-manager core in Dafny

This project models the core of two retained-mode window managers for small
TFT displays. Both are single header files:

- `include/exostra.h` is the newer engine. Each window draws into its own
  off-screen buffer and keeps a dirty rectangle. Top-level windows carry
  z-order ordinals. `render()` drains every window's message queue,
  subtracts the bounding box of the windows above from each dirty rectangle,
  and transfers the remaining strips to the display.
- `include/twm.h` is the older engine. It has no dirty rectangles and no
  z-order. `update()` drains the queues and redraws every top-level window
  that is drawable, on the display and not held within a later drawable
  window.

What the model covers:

- Rectangle geometry: containment, overlap, intersection, bounding union,
  inflate and deflate, and exostra's `subtractRect`.
- The packing of two 16-bit words into a message parameter, and the
  per-window FIFO message queue.
- Each engine's sibling container: unique ids, plus z-order in exostra.
- The window state machine: `routeMessage`, drawability, hide, show,
  destroy, exostra's dirty-rect accumulator, and hit testing.
- The window manager: the validating `createWindow`, the rate-limited
  `hitTest` that the screensaver can swallow, the display/window coordinate
  conversions, the screensaver flags, and the compositing pass
  (`render` / `update`).

Modelling conventions:

- A window is a value: a `Window` (or `TWindow`) datatype whose children are
  a sequence. A window in the tree is addressed by a path of child indices
  from the registry (`WindowTree`).
- Each parent pointer in the source is replaced by passing values:
  - the parent's drawability is passed down;
  - the rectangles a window marks on its parent (`MSG_POSTDRAW`) are
    returned up in a `Step` and applied by the caller.
- The containers and the window managers are classes whose fields their
  methods update in place. The manager's compositing loops are value-level
  methods proved against specification functions (`PassKids`/`PassOps`,
  `UpdateKids`/`UpdateOps`).
- Coordinates are `int16` and extents `uint16`. Every place where the source
  lets an `int` result fall back into a `Coord` wraps explicitly (`Wrap16`,
  `ToExtent`), as does the uint32 time arithmetic (`Elapsed`).
- The widget handlers (`onCreate`, `onDraw`, `onTapped`, `onEvent`,
  `onResize`, and `onDestroy` in exostra) are abstract functions in a
  `Hooks` (`THooks`) record. The pre-create hook's answer is the
  `preCreateOk` parameter of `CreateWindow`.
- twm's default `onDestroy` clears `STA_ALIVE` and answers true. It is
  modelled concretely.
- Time (`millis()`) is a `now` parameter.
- What the display would receive is kept as a log of operations:
  - exostra: `DrawScreensaver`, `Transfer(displayRect, clientRect)`,
    `Flush`;
  - twm: `PaintScreensaver`, `PaintDesktop`, `PaintWindow(rect)`.
- twm's `Rect` is exostra's with the same query, inflate and deflate code,
  apart from `overlapsRect` (`include/twm.h:241-247`), which is
  `TwmWindows.TwmOverlapsRect`. twm shares `Geometry`, `Messages` and the
  screensaver step `ManagerSpec.SaverStep`, since its `update()` flag logic
  (`include/twm.h:1413-1425`) is exostra's without the `setDirtyRect` call.

Files:

| file | module | contents |
|---|---|---|
| geometry.dfy | Geometry | `Rect`, int16/uint16 conversions, the Rect operations |
| geometry_facts.dfy | GeometryFacts | properties of the Rect operations, `subtractRect` exactness, the finding about disjoint rects |
| messages.dfy | Messages | ids, styles, messages, parameter packing, uint32 elapsed time |
| window.dfy | Windows | exostra's `Window`: state machine, queue, dirty rect, redraw, input, hide, destroy |
| window_facts.dfy | WindowFacts | properties of the `Window` operations |
| tree.dfy | WindowTree | paths into the window tree, replacement, parent marks |
| container.dfy | Container | exostra's `WindowContainer`, with z-order |
| manager_spec.dfy | ManagerSpec | coordinate conversion, `setDirtyRect`, screensaver step, the render pass as functions |
| manager.dfy | Manager | exostra's `WindowManager` class |
| manager_facts.dfy | ManagerFacts | properties of the conversions and of `render` |
| twm_window.dfy | TwmWindows | twm's `Window`, `overlapsRect`, paths |
| twm_window_facts.dfy | TwmWindowFacts | properties of twm's `Window` |
| twm_container.dfy | TwmContainer | twm's `WindowContainer` |
| twm_manager.dfy | TwmManager | twm's `WindowManager` class and `update()` as functions |
| twm_manager_facts.dfy | TwmManagerFacts | properties of twm's `update()` |

## Model

| member | source | states |
|---|---|---|
| Geometry.Wrap16 | include/exostra.h:227 | an in-range int is kept as the int16 Coord; anything else wraps (see Wrap16Congruent) |
| Geometry.ToExtent | include/exostra.h:230 | an in-range int is kept as the uint16 Extent |
| Geometry.MakeRect | include/exostra.h:253-256 | the constructor keeps left and top; right and bottom are kept whenever they fit an int16 |
| Geometry.Width | include/exostra.h:276-280 | on a well-formed rect the width is right - left |
| Geometry.Height | include/exostra.h:282-286 | on a well-formed rect the height is bottom - top |
| Geometry.GetIntersection | include/exostra.h:344-355 | the intersection of rects that do not intersect is Rect() |
| Geometry.MergeRect | include/exostra.h:357-363 | the merged rect contains both rects and is the least box that does |
| Geometry.IsEmpty | include/exostra.h:288-291 | no contract of its own; properties in GeometryFacts.DeflateShrinks and ManagerFacts.EmptyCoversNothing |
| Geometry.PointWithin | include/exostra.h:488-492 | no contract of its own; properties in GeometryFacts.NotOutsideMeets and ManagerFacts.PointRoundTrip |
| Geometry.OverlapsRect | include/exostra.h:314-337 | no contract of its own; properties in GeometryFacts.IntersectsIffBoxesMeet |
| Geometry.IntersectsRect | include/exostra.h:339-342 | no contract of its own; properties in GeometryFacts.IntersectsIffBoxesMeet and GeometryFacts.IntersectsSymmetric |
| Geometry.OutsideRect | include/exostra.h:472-478 | no contract of its own; properties in GeometryFacts.NotOutsideMeets and GeometryFacts.OutsideRectOfEnclosing |
| Geometry.WithinRect | include/exostra.h:480-486 | no contract of its own; properties in GeometryFacts.WithinIffBoxWithin |
| Geometry.Inflate | include/exostra.h:296-302 | no contract of its own; properties in GeometryFacts.InflateNoWrap and GeometryFacts.InflateUndoesDeflate |
| Geometry.Deflate | include/exostra.h:304-312 | no contract of its own; properties in GeometryFacts.DeflateShrinks, GeometryFacts.DeflateUndoesInflate and GeometryFacts.DeflateGuardAdmitsInversion |
| GeometryFacts.InflateNoWrap | include/exostra.h:296-302 | when nothing wraps, every edge moves out by px |
| GeometryFacts.DeflateShrinks | include/exostra.h:304-312 | when 2*px fits the width and height, the result is well formed, inside the rect, and 2*px smaller each way |
| Geometry.SubtractRect | include/exostra.h:365-470 | at most four pieces; none at all when the rects do not intersect |
| GeometryFacts.IntersectsIffBoxesMeet | include/exostra.h:314-342 | on well-formed rects intersectsRect holds exactly when the two closed boxes share a point |
| GeometryFacts.IntersectsSymmetric | include/exostra.h:339-342 | intersectsRect is symmetric |
| GeometryFacts.IntersectionExact | include/exostra.h:344-355 | the intersection of intersecting rects is well formed, lies in both, and covers exactly their common pixels |
| GeometryFacts.WithinIffBoxWithin | include/exostra.h:480-486 | withinRect of a well-formed rect is box containment |
| GeometryFacts.NotOutsideMeets | include/exostra.h:472-478 | a rect that is not outsideRect shares a point with the other |
| GeometryFacts.OutsideRectOfEnclosing | include/exostra.h:472-478 | a rect enclosing the display is outsideRect of it although they overlap |
| GeometryFacts.SubtractPiecesAreStrips | include/exostra.h:365-470 | every piece is the strip beside an edge of the other rect that lies inside r |
| GeometryFacts.SubtractEmitsStrips | include/exostra.h:365-470 | each such strip is emitted |
| GeometryFacts.StripsCoverDifference | include/exostra.h:365-470 | a set of those strips holding each one covers exactly r minus the other rect, within r |
| GeometryFacts.SubtractExact | include/exostra.h:365-470 | for intersecting well-formed rects the pieces lie in r and cover exactly r minus the other |
| GeometryFacts.SubtractCount | include/exostra.h:365-470 | no pieces exactly when r lies within the other; four exactly when the other is strictly inside r |
| GeometryFacts.SubtractPiecesOverlap | include/exostra.h:448-466 | in the ring case two pieces share the top-left corner pixel |
| GeometryFacts.SubtractDropsDisjoint | include/exostra.h:365-370 | a disjoint rect yields no pieces though all of r survives the subtraction |
| GeometryFacts.SubtractRectFixed | include/exostra.h:365-470 | the corrected subtraction answers [r] for a disjoint rect and agrees with the source otherwise |
| GeometryFacts.SubtractFixedExact | include/exostra.h:365-470 | the corrected pieces cover exactly r minus the other for all well-formed rects |
| GeometryFacts.Wrap16Congruent | include/exostra.h:227 | Wrap16 keeps the value modulo 2^16 |
| GeometryFacts.Wrap16Unique | include/exostra.h:227 | the Coord congruent to x is Wrap16(x) |
| GeometryFacts.Wrap16Shift | include/exostra.h:296-312 | adding and then subtracting d in int16 returns the Coord |
| GeometryFacts.Wrap16SubShift | include/exostra.h:296-312 | subtracting and then adding d in int16 returns the Coord |
| GeometryFacts.DeflateUndoesInflate | include/exostra.h:296-312 | deflate(px) after inflate(px) gives back the rect, wrap-around included |
| GeometryFacts.InflateUndoesDeflate | include/exostra.h:296-312 | inflate(px) after deflate(px) gives back the rect |
| GeometryFacts.DeflateGuardAdmitsInversion | include/exostra.h:304-312 | deflate's px < width assertion admits a px that turns the rect inside out, its width wrapping to 0xFFFE |
| Messages.Elapsed | include/exostra.h:1847 | now - since in uint32: the difference, or the difference plus 2^32 after the counter wrapped |
| Messages.MessageCode | include/exostra.h:527-537 | every message has a code below 8, MSG_NONE alone having 0 |
| Messages.MessageOfCode | include/exostra.h:527-537 | exactly the integers 0 to 7 name a message |
| Messages.MessageCodeRoundTrip | include/exostra.h:527-537 | each message's code names it back, and each code names a message with that code |
| Messages.MessageCodeInjective | include/exostra.h:527-537 | two messages have the same code exactly when they are the same message |
| Messages.UnpackMake | include/exostra.h:596-609 | unpacking a packed parameter gives back the high and the low word |
| Messages.MakeUnpack | include/exostra.h:596-609 | repacking a parameter's two words gives back the parameter |
| Messages.CoordWordRoundTrip | include/exostra.h:2350-2351 | a Coord survives conversion to a message word and back |
| Messages.WordCoordRoundTrip | include/exostra.h:2539-2541 | a message word survives conversion to a Coord and back |
| Messages.InputParamsRoundTrip | include/exostra.h:2536-2549 | onInput recovers exactly the x, y and INPUT_TAP that processInput packed |
| Messages.BitsHigh | include/exostra.h:518-522 | no contract of its own; properties in the style and state tests built on it, e.g. Manager.CreateRect and TwmWindowFacts.VisibleBitRoundTrip |
| Messages.MakeMsgParam | include/exostra.h:596-599 | no contract of its own; properties in Messages.UnpackMake and Messages.MakeUnpack |
| Messages.HiWord | include/exostra.h:601-604 | no contract of its own; properties in Messages.UnpackMake and Messages.MakeUnpack |
| Messages.LoWord | include/exostra.h:606-609 | no contract of its own; properties in Messages.UnpackMake and Messages.MakeUnpack |
| Messages.CoordToWord | include/exostra.h:2350-2351 | no contract of its own; properties in Messages.CoordWordRoundTrip and Messages.WordCoordRoundTrip |
| Messages.WordToCoord | include/exostra.h:2539-2541 | no contract of its own; properties in Messages.CoordWordRoundTrip and Messages.WordCoordRoundTrip |
| Windows.NewWindow | include/exostra.h:2039-2078 | a new window has its rect as dirty rect, only STA_DIRTY set, nothing queued and no children |
| Windows.SetKidsDirty | include/exostra.h:2370-2376 | every child gets STA_DIRTY and nothing else changes |
| Windows.MarkRectDirty | include/exostra.h:2143-2169 | only dirty rects change: a non-empty rect touches only this window, the children keep their queues, ids and shape |
| Windows.ClearKids | include/exostra.h:2161-2168 | each child gets markRectDirty(Rect()) |
| Windows.MarkAll | include/exostra.h:2524-2532 | applying a child's marks changes only dirty rects |
| Windows.Draw | include/exostra.h:2266-2276 | drawing changes only STA_DIRTY and dirty rects; id, style, rect, queue and children stay |
| Windows.RedrawOwn | include/exostra.h:2362-2376 | a drawable window that is dirty or forced ends clean; its identity, queue and child count stay |
| Windows.Redraw | include/exostra.h:2362-2379 | redraw keeps id, z-order, style, rect, queues and the tree's shape, and changes no state bit but STA_DIRTY |
| Windows.RedrawKids | include/exostra.h:2381-2394 | children keep their ids, z-order and queues |
| Windows.SetDirty | include/exostra.h:2440-2451 | clearing clears STA_DIRTY and answers true; setting without redraw sets STA_DIRTY and answers true |
| Windows.SetStyle | include/exostra.h:2173-2179 | the new style is stored; an unchanged style changes nothing |
| Windows.DirtyIfHandled | include/exostra.h:2293-2296 | the handler's answer is returned; an unhandled message changes nothing |
| Windows.RouteMessage | include/exostra.h:2249-2297 | routing keeps id, z-order, queue, style, rect and the tree's shape (state bits: see WindowFacts.Route*) |
| Windows.QueueMessage | include/exostra.h:2299-2310 | the message joins the back of the queue; the answer is true exactly for an INPUT_TAP input |
| Windows.ProcessQueue | include/exostra.h:2312-2328 | one message is taken from the front of this window's queue and of each child's; the answer is whether this window's queue still holds messages |
| Windows.ProcessKids | include/exostra.h:2322-2326 | every child's queue loses its front message |
| Windows.Drain | include/exostra.h:1879 | after the drain loop the window's own queue is empty and its id, style and rect are unchanged |
| Windows.ProcessInput | include/exostra.h:2330-2360 | input keeps the window's id and child count (tap outcome: see WindowFacts.TapInput) |
| Windows.InputKids | include/exostra.h:2339-2346 | children from index n up are untouched; ids and z-order are kept |
| Windows.HideWindow | include/exostra.h:2396-2406 | a visible window loses STY_VISIBLE and is marked dirty; a hidden one is unchanged |
| Windows.DestroyTree | include/exostra.h:2463-2474 | after destroy the window is not alive and has no children |
| Windows.IsVisible | include/exostra.h:2424-2428 | no contract of its own; properties in WindowFacts.HiddenParentHidesChildren and Windows.HideWindow |
| Windows.IsDrawable | include/exostra.h:2453-2461 | no contract of its own; properties in WindowFacts.DrawableAlongImpliesParent and WindowFacts.DrawableAncestors |
| Windows.OnInput | include/exostra.h:2536-2549 | no contract of its own; properties in Messages.InputParamsRoundTrip and WindowFacts.TapInput |
| Windows.PostDraw | include/exostra.h:2524-2532 | no contract of its own; properties in WindowFacts.PostDrawMarksWholeRect |
| WindowFacts.RouteCreateSetsAlive | include/exostra.h:2254-2260 | a handled MSG_CREATE sets STA_ALIVE; a refused one changes nothing |
| WindowFacts.RouteDestroyClearsAlive | include/exostra.h:2261-2265 | MSG_DESTROY clears STA_ALIVE whatever onDestroy answers and changes nothing else |
| WindowFacts.RouteDrawNoOp | include/exostra.h:2266-2272 | MSG_DRAW does nothing and answers false unless drawable and dirty or forced |
| WindowFacts.RouteDrawClearsDirty | include/exostra.h:2273-2275 | when it draws, STA_DIRTY is cleared, and a handled draw marks the window's rect on itself and its parent |
| WindowFacts.RouteOthersKeepAlive | include/exostra.h:2277-2297 | messages other than create and destroy keep STA_ALIVE |
| WindowFacts.RedrawNotDrawable | include/exostra.h:2364-2366 | redraw of a window that is not drawable does nothing and answers false |
| WindowFacts.RedrawClearsDirty | include/exostra.h:2362-2379 | redraw never changes STA_ALIVE and leaves a drawable dirty-or-forced window clean |
| WindowFacts.DrawableAlongImpliesParent | include/exostra.h:2453-2461 | a drawable window has a drawable parent and is drawable itself |
| WindowFacts.DrawableAlongPrefix | include/exostra.h:2453-2461 | every ancestor of a drawable window is drawable |
| WindowFacts.DrawableAlongLast | include/exostra.h:2424-2461 | a drawable window has STY_VISIBLE, a non-empty rect, STA_ALIVE, and is not outside the display |
| WindowFacts.DrawableAncestors | include/exostra.h:2424-2461 | every ancestor of a drawable window is visible, alive and not outside the display |
| WindowFacts.HiddenParentHidesChildren | include/exostra.h:2453-2461 | a hidden top-level window makes its whole subtree undrawable |
| WindowFacts.MarkEmptyClearsSubtree | include/exostra.h:2161-2168 | markRectDirty(Rect()) clears the dirty rect of the whole subtree |
| WindowFacts.MarkEmptyIsClear | include/exostra.h:2145 | every empty rect acts as Rect() |
| WindowFacts.MarkGrowsAwayFromZero | include/exostra.h:2145-2160 | while no dirty edge is 0, marking never shrinks the dirty rect and takes in every rect within the window |
| WindowFacts.MarkZeroSentinelShrinks | include/exostra.h:2147-2153 | a left or top edge at 0 is taken as unset: marking shrinks the dirty rect of a new window at the origin |
| WindowFacts.MarkRectDirtyFixed | include/exostra.h:2143-2169 | the corrected accumulator changes only dirty rects |
| WindowFacts.MarkFixedAccumulates | include/exostra.h:2143-2169 | with the correction, marking never shrinks the dirty rect, takes in every rect within the window, and a clean window's dirty rect becomes the mark |
| WindowFacts.PostDrawMarksWholeRect | include/exostra.h:2524-2532 | POSTDRAW on a clean window makes its whole rect dirty and marks it on the parent |
| WindowFacts.QueueIsFifo | include/exostra.h:2299-2328 | a queued message stays behind the earlier ones when the front is processed |
| WindowFacts.ProcessQueueOnce | include/exostra.h:2312-2328 | processQueue routes at most one message of each queue and answers whether this window's queue holds more |
| WindowFacts.DrainLeavesChildMessages | include/exostra.h:1879 | render's drain loop takes only the front message of each child's queue |
| WindowFacts.TapMessage | include/exostra.h:2348-2352 | the queued message is MSG_INPUT with type INPUT_TAP and the packed x and y |
| WindowFacts.TapInput | include/exostra.h:2330-2360 | a tap is claimed exactly when the window is drawable and the point is within its rect; then exactly one window on the path queues MSG_INPUT, the deepest topmost one; otherwise nothing changes |
| WindowFacts.TapInputAccepted | include/exostra.h:2338-2358 | an accepting window queues the tap on its claiming descendant or on itself |
| WindowFacts.TapKids | include/exostra.h:2339-2346 | children are tried from the last down; the first that accepts is the only one changed |
| WindowFacts.TapKidsClaimed | include/exostra.h:2341-2344 | a child that accepts ends the scan with the tap queued in its subtree |
| WindowFacts.TapKidsPassed | include/exostra.h:2341-2346 | a child that does not accept passes the scan on unchanged |
| WindowFacts.DestroyOkIffAll | include/exostra.h:2463-2474 | destroy answers true exactly when every window of the subtree handled MSG_DESTROY |
| WindowFacts.DestroyKidsOk | include/exostra.h:2467-2471 | the `&=` over the children is true exactly when every child's subtree handled it |
| WindowFacts.TapKidsStep | include/exostra.h:1729-1747 | one step of the top-down scan: a claim replaces that window, a pass leaves the rest to the windows below |
| WindowTree.MarkParent | include/exostra.h:2527-2530 | applying the marks to the parent keeps the number of top-level windows |
| Container.Find | include/exostra.h:1354-1365 | the index of the first child with the id, or -1 exactly when none has it |
| Container.Renumbered | include/exostra.h:1389-1398 | renumbering keeps the number of children |
| Container.RenumberedDense | include/exostra.h:1389-1398 | after recalculateZOrder the ordinals are 0..n-1 in order and nothing else changed |
| Container.AppendKeepsDense | include/exostra.h:1400-1416 | appending with last + 1 keeps dense ordinals dense |
| Container.AppendKeepsUnique | include/exostra.h:1400-1416 | addChild keeps the ids unique |
| Container.WithoutKeepsUnique | include/exostra.h:1418-1431 | removeChildByID keeps the ids unique |
| Container.ForegroundKeepsUnique | include/exostra.h:1367-1387 | setForegroundWindow keeps the ids unique |
| Container.WindowContainer.constructor | include/exostra.h:1335 | a new container is empty |
| Container.WindowContainer.IndexOf | include/exostra.h:1354-1365 | the loop finds the first child with the id |
| Container.WindowContainer.GetChildByID | include/exostra.h:1354-1365 | a child is returned exactly when one has the id, and it is the first such child |
| Container.WindowContainer.AddChild | include/exostra.h:1400-1416 | a duplicate id is refused with no change; otherwise the child is appended with the last ordinal + 1 (uint8), or 0 |
| Container.WindowContainer.RecalculateZOrder | include/exostra.h:1389-1398 | the children are renumbered in order |
| Container.WindowContainer.RemoveChildByID | include/exostra.h:1418-1431 | only the first child with the id is removed and the rest renumbered; false with no change when absent |
| Container.WindowContainer.SetForegroundWindow | include/exostra.h:1367-1387 | a parentless STY_TOPLEVEL child moves to the end and all are renumbered; otherwise false with no change |
| Container.WindowContainer.RemoveAllChildren | include/exostra.h:1433-1439 | the container ends empty |
| ManagerSpec.DisplayToWindowPoint | include/exostra.h:1794-1803 | a point converts exactly when it is within the window rect |
| ManagerSpec.WindowToDisplayPoint | include/exostra.h:1805-1815 | a point converts exactly when it is within (0, 0, width, height) |
| ManagerSpec.DisplayToWindowRect | include/exostra.h:1817-1829 | a rect converts exactly when both corners do |
| ManagerSpec.WindowToDisplayRect | include/exostra.h:1831-1843 | a rect converts exactly when both corners do |
| ManagerSpec.DirtyRectApplied | include/exostra.h:1775-1792 | setDirtyRect keeps the number of top-level windows |
| ManagerSpec.DirtyRectsApplied | include/exostra.h:1775-1792 | successive setDirtyRect calls keep the number of top-level windows |
| ManagerSpec.PieceOps | include/exostra.h:1919-1950 | at most one transfer per piece, and nothing but transfers |
| ManagerSpec.RenderWindow | include/exostra.h:1883-1954 | a window's pass sends only transfers |
| ManagerSpec.PassOps | include/exostra.h:1877-1955 | the pass over the registry sends only transfers |
| ManagerSpec.PassKids | include/exostra.h:1877-1955 | the pass yields one window per window visited |
| ManagerSpec.PassResult | include/exostra.h:1877-1955 | the pass keeps the number of top-level windows |
| ManagerSpec.AboveScanSuffix | include/exostra.h:1889-1905 | the obscuring scan reads only the windows above |
| ManagerSpec.PieceOpsFailed | include/exostra.h:1922-1925 | once a conversion fails no further piece is sent |
| ManagerSpec.PassStep | include/exostra.h:1877-1955 | each window's pass sees the windows below it already rendered and those above unchanged, as the in-place loop does |
| ManagerSpec.DirtyRectsKeepDead | include/exostra.h:1775-1792 | setDirtyRect never touches a window that is not alive |
| ManagerSpec.ClientRect | include/exostra.h:1808 | no contract of its own; properties in ManagerFacts.WindowPointRoundTrip and ManagerFacts.WideWindowClientWraps |
| ManagerSpec.MarkIfDrawable | include/exostra.h:1777-1790 | no contract of its own; properties in ManagerFacts.DirtyRectAppliedMarks |
| ManagerSpec.SaverStep | include/exostra.h:1856-1868 | no contract of its own; properties in ManagerFacts.SaverDrawnOnce, ManagerFacts.SaverRedrawnAfterWake and ManagerFacts.SaverDisabledStaysInactive |
| ManagerSpec.AboveScan | include/exostra.h:1889-1905 | no contract of its own; properties in ManagerFacts.AboveScanBounds and ManagerSpec.AboveScanSuffix |
| ManagerSpec.ObscuringRect | include/exostra.h:1887-1905 | no contract of its own; properties in ManagerFacts.AboveScanBounds and ManagerFacts.ObscuringMergesAcrossGap |
| Manager.CreateRect | include/exostra.h:1584-1590 | STY_FULLSCREEN forces (0, 0, display width, display height); otherwise the rect starts at (x, y) |
| Manager.CreateRefused | include/exostra.h:1580-1623 | no contract of its own; properties in Manager.WindowManager.CreateWindow |
| Manager.Commit | include/exostra.h:2527-2530 | a top-level step replaces the window; a child's marks go to its parent |
| Manager.AfterInsert | include/exostra.h:1635-1638 | MSG_RESIZE and redraw keep the new window's id, style, rect, queue, child count and STA_ALIVE |
| Manager.AppendCreated | include/exostra.h:1629-1638 | the created child is the parent's last child and is as created; the parent and its old children keep everything but their dirty rects |
| Manager.ShowWindow | include/exostra.h:2420-2421 | show() on the window keeps its id, z-order, rect, queue, child count and STA_ALIVE, and sets STY_VISIBLE |
| Manager.ShowWindowOk | include/exostra.h:2415-2421 | show() answers true only if setForegroundWindow agreed, the parent is drawable and the window is alive, non-empty and on the display; it answers true whenever that holds and onDraw handles the draw |
| Manager.ShowTree | include/exostra.h:2408-2422 | no contract of its own; properties in ShowVisibleRefused, ShowHidden, ShowTopLevel and ShowWithParentRefused |
| Manager.ShowVisibleRefused | include/exostra.h:2410-2414 | a visible window that is not top-level is left as it is, and the answer is false |
| Manager.ShowHidden | include/exostra.h:2412-2421 | a hidden non-top-level window gets STY_VISIBLE in place, keeping its id, rect and child count; the other top-level windows are untouched; a true answer means it can now be drawn |
| Manager.ShowTopLevel | include/exostra.h:2415-2421 | a top-level window ends last in the registry with STY_VISIBLE set, the registry keeping its size; a true answer means it can now be drawn |
| Manager.ShowWithParentRefused | include/exostra.h:2416-2421 | a top-level window with a parent is refused by setForegroundWindow and answers false, but STY_VISIBLE is still set |
| Manager.DestroyKeepsDead | include/exostra.h:2463-2474 | destroying one top-level window leaves it dead and childless and does not change the dead windows before it |
| Manager.WindowManager.constructor | include/exostra.h:1499-1517 | empty registry, all flags clear, and the given config or the defaults 100 ms and 200 ms |
| Manager.WindowManager.EnableScreensaver | include/exostra.h:1530-1536 | sets the timeout and epoch and raises ENABLED, leaving ACTIVE and DRAWN |
| Manager.WindowManager.DisableScreensaver | include/exostra.h:1538-1544 | ENABLED, ACTIVE and DRAWN are all cleared |
| Manager.WindowManager.SetDirtyRect | include/exostra.h:1775-1792 | each drawable top-level window meeting the rect has the intersection marked |
| Manager.WindowManager.IsWindowEntirelyCovered | include/exostra.h:1754-1773 | true exactly when a drawable top-level window above the window holds its rect (every one, for a child) |
| Manager.WindowManager.SetForegroundWindow | include/exostra.h:1709-1712 | only a top-level STY_TOPLEVEL window moves to the end, with the ordinals recomputed; otherwise no change |
| Manager.WindowManager.HitTest | include/exostra.h:1714-1752 | nothing within the interval; ENABLED resets the epoch; ACTIVE swallows the tap; otherwise the top-level windows are offered it topmost first and the time is recorded |
| Manager.WindowManager.OfferTap | include/exostra.h:1729-1747 | the loop gives the specified top-down tap outcome |
| Manager.WindowManager.CreateWindow | include/exostra.h:1567-1640 | a window is created exactly when no refusal applies (WID_INVALID, no STY_TOPLEVEL without a parent, STY_CHILD without one, STY_TOPLEVEL with one, a failing pre-create hook), MSG_CREATE is handled and the id is new among its siblings. It then sits last among them, alive, with the requested rect. A refusal or a refused MSG_CREATE changes nothing; for a child only the parent's subtree is replaced |
| Manager.WindowManager.CreateTopLevel | include/exostra.h:1625-1639 | created exactly when MSG_CREATE is handled and the id is not yet in the registry; then it is appended last as created and the other windows are kept; otherwise the registry is unchanged |
| Manager.WindowManager.CreateChild | include/exostra.h:1625-1639 | created exactly when MSG_CREATE is handled and the id is new among the parent's children; only the parent at the path is replaced, and it and its old children keep everything but their dirty rects; a success adds the created child last; a refused MSG_CREATE changes nothing |
| Manager.WindowManager.AddCreatedChild | include/exostra.h:1625-1638 | `routed` is onCreate's answer; the child is added exactly when routed and its id is new; the parent and its old children keep everything but their dirty rects; an unrouted create changes nothing |
| Manager.WindowManager.Hide | include/exostra.h:2396-2406 | false with no change if hidden; otherwise STY_VISIBLE cleared and the window's rect marked dirty on the display |
| Manager.WindowManager.Show | include/exostra.h:2408-2422 | the new registry and the answer are ShowTree's, with the parent's drawability taken before the call |
| Manager.WindowManager.Destroy | include/exostra.h:2463-2474 | hides every window of the subtree, marks their rects, clears STA_ALIVE and drops the children; true exactly when every window handled MSG_DESTROY, each judged by its state before hide()'s setDirtyRect calls take effect |
| Manager.WindowManager.SetDirtyRects | include/exostra.h:1775-1792 | hide()'s setDirtyRect calls applied in order |
| Manager.WindowManager.TearDown | include/exostra.h:1546-1554 | the loop destroys the top-level windows in order, each staying dead and childless, and the registry ends empty |
| Manager.WindowManager.UpdateScreensaver | include/exostra.h:1856-1868 | the flags take the screensaver step; a deactivation marks the whole display dirty |
| Manager.WindowManager.Render | include/exostra.h:1845-1961 | nothing within the interval; an active screensaver is drawn and flushed once; otherwise the pass runs and one flush follows only if something was drawn |
| Manager.WindowManager.ScanAbove | include/exostra.h:1887-1905 | the loop computes the obscuring rect of the windows above |
| Manager.WindowManager.SendPieces | include/exostra.h:1919-1950 | the loop sends the specified transfers |
| Manager.WindowManager.RenderOne | include/exostra.h:1879-1954 | one window's pass as specified |
| Manager.WindowManager.PassAll | include/exostra.h:1877-1955 | the loop yields the specified windows, transfers and updated flag |
| Manager.WindowManager.PassNext | include/exostra.h:1877-1955 | one iteration extends the specified prefix by one window |
| ManagerFacts.PointRoundTrip | include/exostra.h:1794-1815 | a display point on the window converts into the client rect and back |
| ManagerFacts.WindowPointRoundTrip | include/exostra.h:1794-1815 | a client point converts onto the window and back |
| ManagerFacts.RectRoundTrip | include/exostra.h:1817-1843 | the Rect conversions are inverse on every rect they accept |
| ManagerFacts.WideWindowClientWraps | include/exostra.h:1805-1815 | a window 0x8000 wide has a wrapped client rect: not even (0, 0) converts |
| ManagerFacts.AboveScanBounds | include/exostra.h:1887-1905 | the scan finds something exactly when a window above is drawable, and its rect holds each such window's rect |
| ManagerFacts.AboveScanLeast | include/exostra.h:1887-1905 | and it is the least such box |
| ManagerFacts.AboveScanWellFormed | include/exostra.h:1887-1905 | with well-formed drawable rects above, the obscuring rect is well formed and not empty |
| ManagerFacts.ObscuringMergesAcrossGap | include/exostra.h:1898-1903 | two windows at the edges obscure the gap between them |
| ManagerFacts.PieceOpsAllConvert | include/exostra.h:1919-1950 | pieces within the window each become one transfer, in order |
| ManagerFacts.PieceConverts | include/exostra.h:1817-1829 | a well-formed piece within the window converts |
| ManagerFacts.TransferredPieces | include/exostra.h:1919-1950 | the transfers write exactly the pixels the pieces cover |
| ManagerFacts.EmptyCoversNothing | include/exostra.h:288-291 | an empty well-formed rect covers no pixel |
| ManagerFacts.DirtyPiecesExact | include/exostra.h:1906-1917 | when the obscuring rect is empty or meets the dirty rect, the pieces cover exactly the dirty pixels outside it |
| ManagerFacts.RenderWindowExact | include/exostra.h:1883-1954 | then the pass writes exactly those pixels, sets updated exactly when it sends something, and leaves the subtree clean |
| ManagerFacts.PassKidsAt | include/exostra.h:1877-1955 | each window after the pass is that window's own pass |
| ManagerFacts.PassCleansDirty | include/exostra.h:1877-1955 | after the pass, every drawable top-level window whose dirty rect is non-empty and inside it ends clean with its whole subtree, obscured or not |
| ManagerFacts.DestroyHookSeesDirtyRectBeforeHide | include/exostra.h:2463-2474 | exhibits the order difference: the modelled onDestroy sees a dirty rect that the source's hide() would already have cleared, so the answers differ |
| ManagerFacts.RenderDropsDisjointDirty | include/exostra.h:1906-1914 | a dirty rect missing a non-empty obscuring rect is cleared with nothing sent |
| ManagerFacts.CoveredDirtySendsNothing | include/exostra.h:1906-1914 | a dirty rect within the obscuring rect sends nothing |
| ManagerFacts.DirtyPiecesFixedExact | include/exostra.h:1906-1917 | with the corrected subtraction the pieces are exact for any obscuring rect |
| ManagerFacts.RenderWindowFixed | include/exostra.h:1883-1954 | the corrected pass sends only transfers |
| ManagerFacts.RenderWindowFixedExact | include/exostra.h:1883-1954 | the corrected pass writes exactly the dirty pixels outside any obscuring rect and leaves the subtree clean |
| ManagerFacts.DirtyRectAppliedMarks | include/exostra.h:1775-1792 | a window that is not drawable or misses the rect is untouched; otherwise its dirty rect grows to take in the intersection |
| ManagerFacts.SaverDrawnOnce | include/exostra.h:1856-1875 | after the timeout the first render draws the screensaver and later ones do not |
| ManagerFacts.SaverRedrawnAfterWake | include/exostra.h:1862-1875 | activity deactivates it and clears DRAWN, so the next activation draws it again |
| ManagerFacts.SaverDisabledStaysInactive | include/exostra.h:1856 | a disabled screensaver never activates |
| TwmWindows.TwmMessageCode | include/twm.h:304-313 | every twm message has a code below 7, MSG_NONE alone having 0 |
| TwmWindows.TwmMessageOfCode | include/twm.h:304-313 | exactly the integers 0 to 6 name a twm message |
| TwmWindows.TwmMessageCodeRoundTrip | include/twm.h:304-313 | each twm message's code names it back, and each code names a message with that code |
| TwmWindows.TwmMessageCodeInjective | include/twm.h:304-313 | two twm messages have the same code exactly when they are the same message |
| TwmWindows.NewTWindow | include/twm.h:1566-1581 | a new window has the id, style and rect given, state 0, nothing queued and no children |
| TwmWindows.RouteMessage | include/twm.h:1633-1651 | MSG_DESTROY clears STA_ALIVE (the default onDestroy) and answers true; MSG_DRAW answers false unless drawable; MSG_NONE is unhandled; nothing else changes |
| TwmWindows.QueueMessage | include/twm.h:1653-1664 | the message joins the back of the queue; true exactly for an INPUT_TAP input |
| TwmWindows.TTail | include/twm.h:1671-1675 | popping a non-empty queue removes one message |
| TwmWindows.ProcessQueue | include/twm.h:1666-1682 | one message taken from each queue of the window and its children; the answer is whether this window's queue holds more |
| TwmWindows.ProcessKids | include/twm.h:1676-1680 | every child's queue loses its front message |
| TwmWindows.Drain | include/twm.h:1447 | after the drain loop the queue is empty and id, style, rect and child count are unchanged |
| TwmWindows.ProcessInput | include/twm.h:1684-1712 | input keeps the id and child count (tap outcome: see TwmWindowFacts.TTapInput) |
| TwmWindows.InputKids | include/twm.h:1693-1700 | children from index n up are untouched |
| TwmWindows.Redraw | include/twm.h:1714-1726 | a window that is not drawable draws nothing and answers false; a drawable one paints its own rect first |
| TwmWindows.Hide | include/twm.h:1728-1735 | true exactly when it was visible; afterwards only STY_VISIBLE is cleared |
| TwmWindows.Show | include/twm.h:1737-1744 | a visible window answers false unchanged; otherwise STY_VISIBLE is set and the answer and paints are redraw()'s |
| TwmWindows.Destroy | include/twm.h:1763-1773 | STA_ALIVE cleared, children dropped, and true, since the default onDestroy answers true |
| TwmWindows.DestroyKids | include/twm.h:1766-1770 | the `&=` over the children is true |
| TwmWindows.TwmOverlapsRect | include/twm.h:241-247 | no contract of its own; properties in TwmWindowFacts.TwmOverlapsIffNotOutside and TwmWindowFacts.TwmOverlapsMissesCross |
| TwmWindows.IsVisible | include/twm.h:1746-1749 | no contract of its own; properties in TwmWindowFacts.ShowUndoesHide and TwmWindowFacts.HiddenChildFailsRedraw |
| TwmWindows.IsDrawable | include/twm.h:1756-1761 | no contract of its own; properties in TwmWindowFacts.TDrawableAlongImpliesParent and TwmWindowFacts.TDrawableAncestors |
| TwmWindows.OnInput | include/twm.h:1811-1825 | no contract of its own; properties in TwmWindowFacts.TTapMessage |
| TwmWindows.RedrawKids | include/twm.h:1720-1724 | no contract of its own; properties in TwmWindowFacts.RedrawKidsOk and TwmWindowFacts.RedrawOkIff |
| TwmWindowFacts.TDrawableAlongImpliesParent | include/twm.h:1756-1761 | a drawable window has a drawable parent |
| TwmWindowFacts.TDrawableAlongLast | include/twm.h:1746-1761 | a drawable window is visible and alive |
| TwmWindowFacts.TDrawableAncestors | include/twm.h:1756-1761 | every ancestor of a drawable window is drawable, visible and alive |
| TwmWindowFacts.RedrawOkIff | include/twm.h:1714-1726 | redraw answers true exactly when every window of the subtree is drawable and drew |
| TwmWindowFacts.RedrawKidsOk | include/twm.h:1720-1724 | the children's `&=` is true exactly when every child's subtree drew |
| TwmWindowFacts.HiddenChildFailsRedraw | include/twm.h:1714-1725 | a hidden child makes its parent's redraw answer false, although the parent's own MSG_DRAW was handled and its rect painted first |
| TwmWindowFacts.VisibleBitRoundTrip | include/twm.h:1733-1742 | clearing and setting STY_VISIBLE restore the style |
| TwmWindowFacts.ShowUndoesHide | include/twm.h:1728-1744 | show after hide gives back a visible window |
| TwmWindowFacts.HideUndoesShow | include/twm.h:1728-1744 | hide after show gives back a hidden window |
| TwmWindowFacts.TQueueIsFifo | include/twm.h:1653-1682 | a queued message stays behind the earlier ones |
| TwmWindowFacts.TProcessQueueOnce | include/twm.h:1666-1682 | at most one own message per call; the answer is whether more remain |
| TwmWindowFacts.TTapMessage | include/twm.h:1702-1706 | the queued message is MSG_INPUT with INPUT_TAP and the packed x and y |
| TwmWindowFacts.TTapInput | include/twm.h:1684-1712 | a tap is claimed exactly when the window is drawable and holds the point; then exactly one window queues MSG_INPUT; otherwise nothing changes |
| TwmWindowFacts.TTapInputAccepted | include/twm.h:1692-1711 | an accepting window queues the tap on its claiming descendant or itself |
| TwmWindowFacts.TTapKids | include/twm.h:1693-1700 | children are tried from the last down; only the first that accepts changes |
| TwmWindowFacts.TTapKidsClaimed | include/twm.h:1695-1698 | an accepting child ends the scan |
| TwmWindowFacts.TTapKidsPassed | include/twm.h:1695-1699 | a child that does not accept passes the scan on unchanged |
| TwmWindowFacts.TTapKidsStep | include/twm.h:1392-1404 | one step of hitTest's top-down scan |
| TwmWindowFacts.TwmOverlapsIffNotOutside | include/twm.h:241-255 | twm's overlapsRect is exactly the negation of outsideRect |
| TwmWindowFacts.TwmOverlapsMeets | include/twm.h:241-247 | when it holds, the boxes share a point |
| TwmWindowFacts.TwmOverlapsMissesCross | include/twm.h:241-247 | two bars crossing in a plus sign overlap, but overlapsRect says no either way |
| TwmContainer.TFind | include/twm.h:1103-1114 | the index of the first child with the id, or -1 exactly when none has it |
| TwmContainer.TWithout | include/twm.h:1133-1137 | removing one child shifts the later ones down by one |
| TwmContainer.TAppendKeepsUnique | include/twm.h:1116-1126 | addChild keeps the ids unique |
| TwmContainer.TRemoveLeavesNone | include/twm.h:1128-1140 | with unique ids, removal removes the id altogether and keeps the rest unique |
| TwmContainer.TwmWindowContainer.constructor | include/twm.h:1084 | a new container is empty |
| TwmContainer.TwmWindowContainer.IndexOf | include/twm.h:1108-1113 | the loop finds the first child with the id |
| TwmContainer.TwmWindowContainer.GetChildByID | include/twm.h:1103-1114 | a child is returned exactly when one has the id, and it is the first |
| TwmContainer.TwmWindowContainer.AddChild | include/twm.h:1116-1126 | a duplicate id is refused with no change; otherwise the child is appended |
| TwmContainer.TwmWindowContainer.RemoveChildByID | include/twm.h:1128-1140 | only the first child with the id is removed; false with no change when absent |
| TwmContainer.TwmWindowContainer.RemoveAllChildren | include/twm.h:1142-1148 | the container ends empty |
| TwmManager.TwmCreateRect | include/twm.h:1275-1281 | STY_FULLSCREEN forces the display rect; otherwise (x, y, x + width, y + height) when it fits |
| TwmManager.TwmCreateRefused | include/twm.h:1271-1297 | no contract of its own; properties in TwmManager.TwmWindowManager.CreateWindow |
| TwmManager.AnyFullscreen | include/twm.h:1432-1442 | no contract of its own; properties in TwmManager.TwmWindowManager.HasFullscreen and TwmManagerFacts.DesktopIffNoFullscreen |
| TwmManager.CoveredAbove | include/twm.h:1450-1466 | no contract of its own; properties in TwmManagerFacts.CoveredNotRedrawn and TwmManagerFacts.UpdateWindowRedrawn |
| TwmManager.UpdateFrame | include/twm.h:1407-1476 | no contract of its own; properties in TwmManager.TwmWindowManager.Update, TwmManagerFacts.DesktopIffNoFullscreen, TwmManagerFacts.SaverDrawnOnce and TwmManagerFacts.TapWakesScreensaver |
| TwmManager.CreatedWindow | include/twm.h:1303-1309 | the inserted window is alive, unqueued and childless with the id, style and rect asked for |
| TwmManager.PaintOps | include/twm.h:1799-1805 | one window paint per painted rect, in order |
| TwmManager.UpdateWindow | include/twm.h:1445-1475 | the window is drained whether or not it is redrawn |
| TwmManager.UpdateKids | include/twm.h:1445-1475 | one window per window visited |
| TwmManager.UpdateOps | include/twm.h:1445-1475 | the pass paints windows only |
| TwmManager.TwmWindowManager.constructor | include/twm.h:1199-1215 | empty registry, state 0, epoch and timeout 0 |
| TwmManager.TwmWindowManager.EnableScreensaver | include/twm.h:1225-1231 | sets the timeout and epoch and raises ENABLED |
| TwmManager.TwmWindowManager.DisableScreensaver | include/twm.h:1233-1239 | ENABLED, ACTIVE and DRAWN are cleared |
| TwmManager.TwmWindowManager.TearDown | include/twm.h:1241-1249 | the registry ends empty |
| TwmManager.TwmWindowManager.CreateWindow | include/twm.h:1258-1315 | a window is created exactly when no refusal applies (WID_INVALID, STY_CHILD without parent, STY_TOPLEVEL with one, a failing hook), MSG_CREATE is handled and the sibling id is new; then it is appended alive and redrawn; otherwise nothing changes |
| TwmManager.TwmWindowManager.HitTest | include/twm.h:1384-1405 | ENABLED resets the epoch; ACTIVE swallows the tap; otherwise the windows are offered it topmost first |
| TwmManager.TwmWindowManager.OfferTap | include/twm.h:1392-1404 | the loop gives the specified top-down tap outcome |
| TwmManager.TwmWindowManager.Update | include/twm.h:1407-1476 | the new flags, windows and paints are update()'s as specified by UpdateFrame |
| TwmManager.TwmWindowManager.UpdateValues | include/twm.h:1413-1476 | update()'s body on values computes UpdateFrame |
| TwmManager.TwmWindowManager.HasFullscreen | include/twm.h:1432-1440 | true exactly when some top-level window has STY_FULLSCREEN |
| TwmManager.TwmWindowManager.UpdateAll | include/twm.h:1445-1475 | the loop yields the specified windows and paints |
| TwmManager.TwmWindowManager.UpdateOne | include/twm.h:1446-1474 | one window's step as specified |
| TwmManager.TwmWindowManager.DrainWindow | include/twm.h:1447 | the drain loop computes Drain |
| TwmManager.TwmWindowManager.ScanAbove | include/twm.h:1452-1466 | true exactly when a later drawable window holds the rect |
| TwmManagerFacts.UpdateKidsDrained | include/twm.h:1445-1447 | after update() every top-level queue is empty and ids, styles and rects are kept |
| TwmManagerFacts.UpdateWindowRedrawn | include/twm.h:1447-1473 | a window is redrawn exactly when, once drained, it is drawable, not within a later drawable window and not outside the display; its rect is painted first |
| TwmManagerFacts.CoveredNotRedrawn | include/twm.h:1452-1472 | a window within a later drawable window, or outside the display, is not redrawn |
| TwmManagerFacts.DesktopIffNoFullscreen | include/twm.h:1432-1443 | without an active screensaver the desktop is painted, first, exactly when no top-level window is STY_FULLSCREEN, and every queue is drained |
| TwmManagerFacts.SaverDrawnOnce | include/twm.h:1413-1430 | after the timeout the screensaver is painted by one update() at most and the windows are left alone |
| TwmManagerFacts.TapWakesScreensaver | include/twm.h:1384-1424 | a tap's new epoch makes the next update() deactivate the screensaver, clear DRAWN and update the windows |
| TwmManagerFacts.DoomedWindowStillCovers | include/twm.h:1445-1466 | coverage looks at the windows above before they are drained: a window about to be destroyed still hides the one below |

## Left out

- Themes (`DefaultTheme`): their metrics use floating point. Colours and
  metrics do not appear in the model.
- Text drawing (`drawText`, `getCharBounds`, glyph tables), marquee and
  progress drawing, and `drawCheckBox`: these are pixel work in library and
  PROGMEM code.
- Widget subclasses (`Button`, `Label`, `MultilineLabel`, `Prompt`,
  `ProgressBar`, `CheckBox`), `createPrompt` and `createProgressBar`:
  - their handlers are abstract `Hooks`/`THooks` functions with no side
    effects;
  - so a `Button` queueing `MSG_EVENT` on its parent is not modelled;
  - in exostra the default `onDestroy` answers true, and it is a hook too.
- Display calls (`startWrite`, `setAddrWindow`, `writePixels`, `endWrite`,
  `flush`, `drawScreensaver`, desktop and window painting): these are
  foreign library calls, recorded only as entries of the manager's `log`.
- The debug `drawRect(..., 0xf81f)` outline round each transferred rect
  (`include/exostra.h:1943-1949`): a diagnostic, not logged.
- The per-window `GfxContext` frame buffer, and twm's `render()` buffer copy
  (`include/twm.h:1500-1523`): these are pixel storage.
- Mutexes (`EWM_NOMUTEXES`, `TWM_SINGLETHREAD`): concurrency.
- Logging, assertion and backtrace macros, class-name demangling, and the
  render-time statistics: diagnostics only.
  - The hitTest coordinate assertions (`include/exostra.h:1719-1720`) and
    width()'s `right >= left` assertion are diagnostics; their release
    behaviour is modelled.
- `Variant`: it only carries theme metrics.
- `begin()`: display initialisation.
- `src/main.cpp`: this file is not part of this model.
- Trivial accessors are not modelled as operations: the colour, text,
  corner-radius and parent getters and setters, `hasChildren`, `childCount`,
  `forEachChild`/`forEachChildReverse` (their loops appear inside the
  operations that use them), `toString`, and twm's plain `setStyle` and
  `setRect`.
- exostra's `setRect` and `getClientRect` (`include/exostra.h:2112-2136`):
  nothing in the core calls them.
- Time: several `millis()` calls inside one source function are one `now`
  parameter, so time does not advance within a call.
- `shared_ptr` aliasing and lifetime: a window object reachable twice is a
  value in the model.
- Manager.ShowHidden and Manager.ShowTopLevel: do not state the redraw's
  effect on dirty rects and STA_DIRTY; that effect is Redraw's, whose own
  contract and lemmas state it.
- Manager.WindowManager.Destroy: `DestroyTree` routes each window's
  MSG_DESTROY before any of hide()'s setDirtyRect calls has taken effect;
  `Destroy` applies them all afterwards.
  - In the source each call runs before that window's MSG_DESTROY, and it
    can reach the window's own subtree. A window touching its top-level
    ancestor's edge from outside meets it in an empty intersection, and
    marking that clears the ancestor's whole subtree.
  - So an onDestroy that reads dirty rects can answer differently, and so
    can `ok` (`ManagerFacts.DestroyHookSeesDirtyRectBeforeHide`).
  - The final tree is the same.
- Manager.WindowManager.TearDown: the destroyed windows are dropped at the
  end, so their new state is stated only inside the loop.
- TwmManager.TwmWindowManager.TearDown: the same. twm's default
  `onDestroy` draws nothing.
- Manager.WindowManager.CreateWindow: for a child, `AddCreatedChild`
  applies the rects that MSG_CREATE, MSG_RESIZE and redraw mark on the
  parent with `MarkAll`, one at a time and in the source's order. Only the
  timing differs: they are applied once the child's resize and redraw are
  over, not while those run.
- Manager.WindowManager.CreateWindow:
  - the window constructor's `EWM_ASSERT(parent)` (`include/exostra.h:2063`)
    runs before the factory's own `STY_CHILD` and `STY_TOPLEVEL` checks;
  - a parentless window without `STY_TOPLEVEL` would crash there;
  - the model counts it as one more refusal (`Manager.CreateRefused`).
- TwmWindows.Drain and Windows.Drain drain only the window's own queue.
  Each child loses one message per round, as the source does. So messages
  left on a child's queue wait for the next frame.

## Findings

| source | as written | input that shows it | evidently intended | confidence | as-written member | corrected member |
|---|---|---|---|---|---|---|
| include/exostra.h:365-370, 1906-1914 | `subtractRect` returns no pieces when the rects do not intersect. `render` reads "no pieces" as "fully obscured", clears the dirty rect and transfers nothing. | dirty rect (0,0,100,100) with a drawable window above it at (200,200,300,300) | a rect that misses the occluder survives whole, so the dirty rect is transferred | not executed | GeometryFacts.SubtractDropsDisjoint, ManagerFacts.RenderDropsDisjointDirty | GeometryFacts.SubtractRectFixed, GeometryFacts.SubtractFixedExact, ManagerFacts.RenderWindowFixed, ManagerFacts.RenderWindowFixedExact |
| include/exostra.h:2147-2153 | `markRectDirty` treats a dirty-rect left or top edge equal to 0 as "unset" | a new window at (0,0,100,100), whose dirty rect is its rect, marked with (20,20,40,40): the dirty rect shrinks to (20,20,100,100) | "unset" means an empty dirty rect, and marking only grows the dirty rect | not executed | WindowFacts.MarkZeroSentinelShrinks | WindowFacts.MarkRectDirtyFixed, WindowFacts.MarkFixedAccumulates |

The rest of the model keeps the code as written (`SubtractRect`,
`MarkRectDirty`). The corrected members stand beside it, with the intended
properties proved about them.

Other behaviours of the code are modelled as written and exhibited by lemmas,
without any correction:

- the merged bounding box of the windows above also obscures the gaps
  between them (`ManagerFacts.ObscuringMergesAcrossGap`);
- `subtractRect`'s strips overlap at corners
  (`GeometryFacts.SubtractPiecesOverlap`);
- twm's `redraw()` answers false when any descendant is hidden
  (`TwmWindowFacts.HiddenChildFailsRedraw`);
- twm's corner-based `overlapsRect` misses crossing rects
  (`TwmWindowFacts.TwmOverlapsMissesCross`);
- twm's coverage test uses windows that have not been drained yet
  (`TwmManagerFacts.DoomedWindowStillCovers`);
- windows wider than 0x7FFF cannot convert coordinates
  (`ManagerFacts.WideWindowClientWraps`);
- `deflate`'s guard admits inverted rects
  (`GeometryFacts.DeflateGuardAdmitsInversion`).
