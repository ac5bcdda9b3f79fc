# Drag-to-select over a scrolling list, in Dafny

This project models `DragSelectTouchHandler`, the touch listener of an
Android `RecyclerView` that lets a user press on an item and drag across the
list to select or deselect a run of items, with the list scrolling by
itself while the finger rests near its top or bottom edge.

The handler has two cooperating state machines:

- the **drag-selection controller** keeps the session fields
  (`dragSelectActive`, the anchor `firstItemPosition`, `lastDraggedIndex`,
  the polarity `startIsSelected`, the `mode` RANGE or PATH, and
  `hotspotHeight`) and turns every pointer move into range commands
  `onSetSelect(start, end, selected)` for a selection listener;
- the **auto-scroll driver** `RVScroller` is idle, in the top hotspot or in
  the bottom hotspot; it keeps a signed velocity and a self-rescheduling
  tick that scrolls the list by that velocity.

Files and modules:

- `selection.dfy`, module `Selection`: the listener as a model-owned
  selection (`set<int>`) plus the log of commands it received; `Apply` is
  one command's effect, `ApplyAll` a sequence's, and the class
  `SelectListener` is the listener object the handler calls.
- `auto_scroll.dfy`, module `AutoScroll`: the driver's state (`ScrollState`:
  both flags, the velocity, whether a tick is posted, and the log of calls
  made on the host list), its pure steps `ScrollerMove`, `ScrollerStart`,
  `ScrollerStop`, `ScrollerRun`, its invariant `Inv`, and the class
  `RVScroller` whose methods are proved equal to those steps.
- `reconcile.dfy`, module `Reconcile`: the interval arithmetic of RANGE
  mode, the four-way diff `RangeDiff` and what it does to a selection.
- `touch_handler.dfy`, module `TouchHandler`: the controller's whole
  observable state (`World`: its fields, the driver, the listener), the pure
  step of every entry point, trace lemmas over whole drags, and the class
  `DragSelectTouchHandler` whose methods are proved equal to the steps.
- `scenarios.dfy`, module `Scenarios`: concrete drags on a ten-item list.

A touch event is modelled by its action, the already-resolved adapter
position under the pointer (`NO_POSITION` = -1 when there is none) and an
integer y. The list's measured height is passed alongside each event to the
step functions and methods (`TouchStep`, `OnTouchEvent`, `ScrollerMove`),
which hold for any heights. The trace functions `Replay` and
`ScrollerReplay` fix one measured height (and `ScrollerReplay` one hotspot
height) for the whole trace, so the trace lemmas speak of a list whose
height and hotspot height do not change during the drag.

Behaviours of the code a reader might not expect, which the model keeps:

- In RANGE mode with a selected start item, a move deselects the span
  between the previous and the new index, `[min(last, i), max(last, i)]`,
  not the anchor span one might expect by symmetry with the unselected case:
  dragging 2 → 5 → 3 deselects [2, 5] and then [3, 5]
  (`Scenarios.SelectedStartMoveBack`).
- `onTouchEvent` never looks at `dragSelectActive`. After pointer-up the
  last index is -1, so a move that still reaches `onTouchEvent` with an item
  under the pointer starts a new drag there rather than being ignored
  (`Scenarios.MoveAfterUpRestartsDrag`); only `onInterceptTouchEvent`
  consults the active flag.
- The scroller runs whenever `hotspotHeight > -1`; one might expect a
  height of 0 to disable scrolling, but it still drives the scroller.
- `setActive(false, p)` on an inactive handler is not a no-op, as its name
  suggests: it still runs `onDragStart(p)`, which flips `p` and stops the
  scroller.
- The source checks "no item or same index" and "no last index" separately
  in its PATH and RANGE branches with identical code; `OnTouchEvent` runs
  these checks once and then emits the mode's commands.

## Model

| member | source | states |
|---|---|---|
| `Selection.Apply` | DragSelectTouchHandler.java:83 | the listener's reaction to `onSetSelect(start, end, b)`: indices in [start, end] take state b, every other index keeps its state |
| `Selection.ApplyAllAppend` | DragSelectTouchHandler.java:149-169 | issuing commands `a` and then commands `b` to the listener has the effect of issuing `a + b`, so the effect of a batch of calls is the effect of its concatenated log |
| `Selection.SelectListener.IsSelected` | DragSelectTouchHandler.java:80 | `isSelected(p)` answers whether p is in the current selection |
| `Selection.SelectListener.OnSetSelect` | DragSelectTouchHandler.java:83 | `onSetSelect` updates the selection as `Apply` says and records the command, in order |
| `AutoScroll.TruncHalf` | DragSelectTouchHandler.java:215 | Java's `(int)(d / 2)`: the half truncated toward zero, non-positive for d ≤ 0 and non-negative for d ≥ 0 |
| `AutoScroll.ScrollerStart` | DragSelectTouchHandler.java:232-235 | `start` removes any queued tick and posts one, leaving flags and velocity alone |
| `AutoScroll.ScrollerStop` | DragSelectTouchHandler.java:237-242 | `stop` removes the queued tick, leaves both hotspots and zeroes the velocity; the result satisfies the driver's invariant |
| `AutoScroll.ScrollerMove` | DragSelectTouchHandler.java:203-230 | `onMove(y)`: never both hotspots; y ≤ hotspotHeight gives the top hotspot with velocity TruncHalf(y − hotspotHeight) ≤ 0; otherwise y ≥ height − hotspotHeight gives the bottom hotspot with velocity ≥ 0; otherwise a scrolling driver goes idle and an idle one is unchanged; a tick is posted exactly when a hotspot is entered; the call log grows by `removeCallbacks, postOnAnimation` on entering a hotspot, by `removeCallbacks` alone on leaving one, and by nothing otherwise (staying in a hotspot only updates the velocity, and a move never scrolls); the invariant is preserved |
| `AutoScroll.ScrollerRun` | DragSelectTouchHandler.java:245-248 | `run` scrolls by the current velocity, posts the next tick after 25 ms, leaves flags, velocity and the posted tick as they were, and keeps the invariant |
| `AutoScroll.ReplayKeepsInv` | DragSelectTouchHandler.java:198-248 | along any sequence of moves and ticks the driver keeps its invariant: at most one hotspot, a tick posted exactly while in one, velocity 0 when idle, ≤ 0 at the top, ≥ 0 at the bottom |
| `AutoScroll.NoScrollBetweenHotspots` | DragSelectTouchHandler.java:226-229 | once idle, moves that stay between the hotspots and the ticks between them cause no scroll and post no tick |
| `AutoScroll.TicksScrollByVelocity` | DragSelectTouchHandler.java:244-248 | while in a hotspot, n ticks make n scrolls by the current velocity, each followed by a 25 ms repost, and change nothing else |
| `AutoScroll.RVScroller.constructor` | DragSelectTouchHandler.java:199-201 | a new driver is idle with velocity 0 and no tick posted |
| `AutoScroll.RVScroller.OnMove` | DragSelectTouchHandler.java:203-230 | the field updates of `onMove` produce exactly `ScrollerMove` and keep the invariant |
| `AutoScroll.RVScroller.Start` | DragSelectTouchHandler.java:232-235 | the object's `start` is `ScrollerStart` |
| `AutoScroll.RVScroller.Stop` | DragSelectTouchHandler.java:237-242 | the object's `stop` is `ScrollerStop` and re-establishes the invariant |
| `AutoScroll.RVScroller.Run` | DragSelectTouchHandler.java:245-248 | the object's `run`, fired only while posted, is `ScrollerRun` and keeps the invariant |
| `Reconcile.RangeDiff` | DragSelectTouchHandler.java:149-169 | the four-way diff emits at most two commands (of the four guarded ones, at most one fires on each side of the anchor), each with start ≤ end and none touching the anchor; two commands lie on opposite sides of the anchor, so they are disjoint; select ranges lie inside the new anchor span and outside the old one; deselect ranges lie inside the old span and outside the new one |
| `Reconcile.FourWayShape` | DragSelectTouchHandler.java:149-169 | the same facts, established case by case on how the left and right edges of the old and new spans compare |
| `Reconcile.RangeDiffEffect` | DragSelectTouchHandler.java:148-171 | after the diff, indices the span gained are selected, indices it gave up are deselected, and every index in both spans or in neither keeps its state |
| `Reconcile.SweepKeepsSpanClear` | DragSelectTouchHandler.java:141-147 | the selected-start deselect sweep never selects, and keeps the anchor span clear when the pointer moves from last to the new index |
| `TouchHandler.DragStartStep` | DragSelectTouchHandler.java:75-84 | `onDragStart(p)`: anchor = last = p, polarity = whether p was selected, exactly one command flipping p, no other index changes, scroller stopped with exactly one `removeCallbacks` logged and no scroll; anchor and last index end paired |
| `TouchHandler.SetActiveStep` | DragSelectTouchHandler.java:57-62 | `setActive` changes nothing while a session is active; otherwise it records the flag (even false) and starts a drag at p as `DragStartStep` does: the selection, the log and the session fields as there, and the scroller stopped with velocity 0, its invariant holding and exactly one `removeCallbacks` logged; anchor and last index stay paired |
| `TouchHandler.DragStopStep` | DragSelectTouchHandler.java:86-92 | `onDragSelectionStop` clears the active flag, resets anchor and last index to -1 and keeps every other session field (mode, polarity, hotspot height); it stops the scroller with one `removeCallbacks` and leaves the selection and the log alone |
| `TouchHandler.MoveCommands` | DragSelectTouchHandler.java:115-170 | the commands of an effective move: at most two, each with start ≤ end; PATH emits exactly `onSetSelect(i, i, !startIsSelected)`; RANGE with a selected start emits one deselect covering exactly the span between last and i |
| `TouchHandler.TouchStep` | DragSelectTouchHandler.java:104-176 | `onTouchEvent`: up and cancel stop the session; down and other actions change nothing; a move to no item or to the last index changes no session field and emits nothing; with no last index it restarts the drag at the item, flipping that item only, as `onDragStart` does, after feeding y to the scroller (when hotspotHeight > -1) and then stopping it; otherwise it advances the last index and applies `MoveCommands`; the scroller gets y only when hotspotHeight > -1; anchor and last index stay paired |
| `TouchHandler.ReplayKeepsPaired` | DragSelectTouchHandler.java:75-171 | along any sequence of touch events the anchor and the last index are unset together or set together: they are written together at drag start and stop, and the last index alone only while it is already set |
| `TouchHandler.RangeMoveKeepsExactSpan` | DragSelectTouchHandler.java:148-171 | RANGE, unselected start: if the list's selection is exactly the anchor span before a move inside the list, it is exactly the new anchor span after it |
| `TouchHandler.RangeDragKeepsExactSpan` | DragSelectTouchHandler.java:129-171 | the same along any sequence of moves inside the list (or onto no item), with the anchor unchanged |
| `TouchHandler.RangeSessionSelectsExactlySpan` | DragSelectTouchHandler.java:75-171 | a RANGE session started on an item of a list with nothing selected selects exactly the items between the anchor and the last index, after any moves |
| `TouchHandler.SelectedStartMoveOnlyDeselects` | DragSelectTouchHandler.java:141-147 | RANGE, selected start: a move never adds to the selection and keeps the anchor span clear |
| `TouchHandler.SelectedStartDragOnlyDeselects` | DragSelectTouchHandler.java:129-171 | the same along any sequence of moves |
| `TouchHandler.SelectedStartSessionOnlyDeselects` | DragSelectTouchHandler.java:75-171 | a RANGE session started on a selected item deselects it, never re-selects anything, and leaves the anchor span clear however the pointer doubles back |
| `TouchHandler.PathMove` | DragSelectTouchHandler.java:115-126 | PATH: one move to a new valid index p advances the last index to p, logs `onSetSelect(p, p, !startIsSelected)`, gives p that state and leaves every other item alone |
| `TouchHandler.PathLogsEachVisitedItem` | DragSelectTouchHandler.java:115-126 | PATH: moves over valid, successively different indices emit one single-item command per index, in visiting order, each with state !startIsSelected |
| `TouchHandler.PathFollowsPointer` | DragSelectTouchHandler.java:115-126 | PATH: along such moves the anchor, polarity, mode and active flag stay and the last index ends at the last visited item |
| `TouchHandler.PathPaintsEachVisitedItem` | DragSelectTouchHandler.java:115-126 | PATH: after such moves every visited item has state !startIsSelected and every other item keeps its state |
| `TouchHandler.DragSelectTouchHandler.constructor` | DragSelectTouchHandler.java:50-55 | a new handler is in RANGE mode with no session, anchor and last index -1, the given hotspot height and an idle scroller |
| `TouchHandler.DragSelectTouchHandler.SetActive` | DragSelectTouchHandler.java:57-65 | the object's `setActive` is `SetActiveStep` |
| `TouchHandler.DragSelectTouchHandler.SetMode` | DragSelectTouchHandler.java:67-69 | `setMode` changes the mode and nothing else |
| `TouchHandler.DragSelectTouchHandler.SetHotspotHeight` | DragSelectTouchHandler.java:71-73 | `setHotspotHeight` changes the hotspot height and nothing else |
| `TouchHandler.DragSelectTouchHandler.OnDragStart` | DragSelectTouchHandler.java:75-84 | the object's `onDragStart` is `DragStartStep` |
| `TouchHandler.DragSelectTouchHandler.OnDragSelectionStop` | DragSelectTouchHandler.java:86-92 | the object's `onDragSelectionStop` is `DragStopStep` |
| `TouchHandler.DragSelectTouchHandler.OnInterceptTouchEvent` | DragSelectTouchHandler.java:95-101 | the handler intercepts exactly when a session is active and the list has an adapter with a non-zero item count |
| `TouchHandler.DragSelectTouchHandler.OnTouchEvent` | DragSelectTouchHandler.java:104-176 | the object's `onTouchEvent` is `TouchStep` and keeps the handler's invariant: the scroller's invariant, and the anchor and last index paired |
| `TouchHandler.DragSelectTouchHandler.EmitMove` | DragSelectTouchHandler.java:115-170 | the listener calls of an effective move are exactly `MoveCommands`, applied in order |
| `TouchHandler.DragSelectTouchHandler.EmitRangeDiff` | DragSelectTouchHandler.java:149-169 | the four guarded `onSetSelect` calls, made from the edges of the old and new spans, are exactly `FourWay` of those edges (the body of `RangeDiff`), applied in order |
| `Scenarios.UnselectedStartActivation` | DragSelectTouchHandler.java:57-62 | nothing selected: `setActive(true, 2)` anchors at 2, selects {2} and logs `onSetSelect(2, 2, true)` |
| `Scenarios.UnselectedStartMoveOut` | DragSelectTouchHandler.java:148-171 | then a move to 5 logs `onSetSelect(3, 5, true)`, giving {2, 3, 4, 5}, and leaves the scroller, whatever its state, untouched (hotspots disabled) |
| `Scenarios.UnselectedStartMoveBack` | DragSelectTouchHandler.java:148-171 | then a move back to 3 logs `onSetSelect(4, 5, false)`, giving {2, 3} |
| `Scenarios.SelectedStartActivation` | DragSelectTouchHandler.java:57-62 | items 2, 4, 7 selected: `setActive(true, 2)` deselects 2, giving {4, 7} |
| `Scenarios.SelectedStartMoveOut` | DragSelectTouchHandler.java:141-147 | then a move to 5 logs `onSetSelect(2, 5, false)`, giving {7} |
| `Scenarios.SelectedStartMoveBack` | DragSelectTouchHandler.java:141-147 | then a move back to 3 logs `onSetSelect(3, 5, false)`, the span between last and new index; nothing is re-selected and {7} stays |
| `Scenarios.MoveAfterUpRestartsDrag` | DragSelectTouchHandler.java:119-137 | after pointer-up the session is inactive with anchor and last index -1, and a later move onto item 6 restarts a drag at 6 |

## Left out

- The Android input plumbing (`getItemPosition`, lines 181-191): each event carries the adapter position already resolved, -1 when no item is under the pointer.
- `dp2px` (lines 193-196): the constructor takes the default hotspot height already converted to pixels.
- Fractional pointer coordinates: y is an integer, so the velocity is the exact half of an integer difference truncated toward zero.
- 32-bit wrap-around: positions, heights and velocities are unbounded integers; the source's `int` arithmetic (`rvHeight - hotspotHeight`, `curStart - 1`, `lastEnd + 1`) only wraps for values no adapter position or screen height reaches.
- Real scheduling: `postOnAnimation`, `postDelayed(…, 25)` and `removeCallbacks` become a "tick posted" flag and entries in a call log; timing and frame alignment are not modelled, and a tick fires only while posted.
- The effect of `scrollBy` on the list (which items then lie under the pointer) is not modelled; scrolls are entries in the call log.
- `getMeasuredHeight` is a parameter of each touch step rather than a property of a view; the trace lemmas (`ReplayKeepsInv`, `NoScrollBetweenHotspots` and the `TouchHandler` trace lemmas) take one measured height and one hotspot height for the whole trace and do not cover a list resized, or a hotspot height changed, mid-drag.
- The real `DragSelectListener` is not part of this model: it is assumed to give every index in [start, end] the requested state, and is represented by a selection set plus a command log.
- How `RecyclerView` routes events (only to a listener that intercepted the gesture) is not modelled; the touch lemmas speak of every event that reaches `onTouchEvent`.
- Multi-touch action codes and actions other than down, move, up and cancel collapse into `ActionOther`, which the handler ignores as the source does.
- A `null` mode passed to `setMode` (a Java enum reference) has no counterpart; `Mode` is always RANGE or PATH.
- `onRequestDisallowInterceptTouchEvent` has an empty body and is not modelled.
