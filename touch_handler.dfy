/** The drag-select controller (`DragSelectTouchHandler`): it keeps the
    drag session (active flag, anchor, last dragged index, polarity of the
    start item, mode), feeds pointer moves to the auto-scroll driver and
    turns each move into range commands for the selection listener.

    The pure functions below give the whole observable state (`World`) after
    each entry point; the class at the end does the same work field by field
    and is proved to agree with them. Trace lemmas then state what a whole
    drag does to the selection. */
module TouchHandler {
  import opened Selection
  import opened AutoScroll
  import opened Reconcile

  datatype Mode = Range | Path

  datatype Action = ActionDown | ActionMove | ActionUp | ActionCancel | ActionOther

  /** A touch event as the handler sees it: its action, the adapter position
      of the item under the pointer (`NO_POSITION` if none) and its y. */
  datatype MotionEvent = MotionEvent(action: Action, itemPosition: int, y: int)

  datatype Option<T> = None | Some(value: T)

  /** The list's "no item here" position. */
  const NO_POSITION: int := -1

  datatype DragState = DragState(
    mode: Mode,
    startIsSelected: bool,
    firstItemPosition: int,
    lastDraggedIndex: int,
    dragSelectActive: bool,
    hotspotHeight: int)

  /** The session invariant: the anchor and the last dragged index are
      unset together or set together. */
  predicate Paired(d: DragState) {
    (d.firstItemPosition == NO_POSITION) == (d.lastDraggedIndex == NO_POSITION)
  }

  /** Everything the handler's entry points can change: its own fields, the
      auto-scroll driver and the listener's selection and command log. */
  datatype World = World(drag: DragState, scroller: ScrollState, selected: set<int>, log: seq<Command>)

  /** `onDragStart(p)`: stop scrolling, anchor the drag at `p`, remember
      whether `p` was selected and flip it. */
  function DragStartStep(w: World, p: int): (r: World)
    ensures r.drag == w.drag.(firstItemPosition := p, lastDraggedIndex := p, startIsSelected := p in w.selected)
    ensures r.log == w.log + [SetSelect(p, p, p !in w.selected)]
    ensures p in r.selected <==> p !in w.selected
    ensures forall i :: i != p ==> (i in r.selected <==> i in w.selected)
    ensures Inv(r.scroller) && Idle(r.scroller) && !r.scroller.pending
    ensures r.scroller.calls == w.scroller.calls + [RemoveCallbacks]
    ensures Paired(r.drag)
  {
    var startIsSelected := p in w.selected;
    var c := SetSelect(p, p, !startIsSelected);
    World(
      w.drag.(firstItemPosition := p, lastDraggedIndex := p, startIsSelected := startIsSelected),
      ScrollerStop(w.scroller),
      Apply(w.selected, c),
      w.log + [c])
  }

  /** `setActive(active, p)`: nothing at all while a session is active;
      otherwise record `active` (even when false) and start a drag at `p`. */
  function SetActiveStep(w: World, active: bool, p: int): (r: World)
    ensures w.drag.dragSelectActive ==> r == w
    ensures !w.drag.dragSelectActive ==>
      && r.drag.dragSelectActive == active
      && r.drag.mode == w.drag.mode && r.drag.hotspotHeight == w.drag.hotspotHeight
      && r.drag.firstItemPosition == p && r.drag.lastDraggedIndex == p
      && r.drag.startIsSelected == (p in w.selected)
      && r.log == w.log + [SetSelect(p, p, p !in w.selected)]
      && (p in r.selected <==> p !in w.selected)
      && (forall i :: i != p ==> (i in r.selected <==> i in w.selected))
      && Inv(r.scroller) && Idle(r.scroller) && !r.scroller.pending && r.scroller.autoScrollVelocity == 0
      && r.scroller.calls == w.scroller.calls + [RemoveCallbacks]
    ensures Paired(w.drag) ==> Paired(r.drag)
  {
    if w.drag.dragSelectActive then w
    else DragStartStep(w.(drag := w.drag.(dragSelectActive := active)), p)
  }

  /** `onDragSelectionStop`: end the session and stop scrolling. */
  function DragStopStep(w: World): (r: World)
    ensures r.drag == w.drag.(dragSelectActive := false, firstItemPosition := NO_POSITION, lastDraggedIndex := NO_POSITION)
    ensures Paired(r.drag)
    ensures Inv(r.scroller) && Idle(r.scroller) && !r.scroller.pending && r.scroller.autoScrollVelocity == 0
    ensures r.scroller.calls == w.scroller.calls + [RemoveCallbacks]
    ensures r.selected == w.selected && r.log == w.log
  {
    w.(drag := w.drag.(dragSelectActive := false, lastDraggedIndex := NO_POSITION, firstItemPosition := NO_POSITION),
       scroller := ScrollerStop(w.scroller))
  }

  /** The range commands of a move to a new position `i` once a drag is
      under way: PATH paints `i` alone; RANGE with a selected start item
      deselects between the previous and the new index; RANGE with an
      unselected start item runs the four-way diff. */
  function MoveCommands(d: DragState, i: int): (cs: seq<Command>)
    ensures 1 <= |cs| || (d.mode == Range && !d.startIsSelected)
    ensures |cs| <= 2
    ensures forall c :: c in cs ==> c.start <= c.end
    ensures d.mode == Path ==> cs == [SetSelect(i, i, !d.startIsSelected)]
    ensures d.mode == Range && d.startIsSelected ==>
      |cs| == 1 && !cs[0].selected && Covers(cs[0], i) && Covers(cs[0], d.lastDraggedIndex)
      && (forall k :: Covers(cs[0], k) ==> InSpan(d.lastDraggedIndex, i, k))
  {
    match d.mode
    case Path => [SetSelect(i, i, !d.startIsSelected)]
    case Range =>
      if d.startIsSelected then
        if d.lastDraggedIndex > i then [SetSelect(i, d.lastDraggedIndex, false)]
        else [SetSelect(d.lastDraggedIndex, i, false)]
      else RangeDiff(d.firstItemPosition, d.lastDraggedIndex, i)
  }

  /** The driver once a move's y has been fed to it, which happens only
      when the hotspot height is above -1. */
  function Fed(w: World, y: int, rvHeight: int): ScrollState {
    if w.drag.hotspotHeight > -1 then ScrollerMove(w.scroller, y, w.drag.hotspotHeight, rvHeight) else w.scroller
  }

  /** `onTouchEvent(e)` for a list whose measured height is `rvHeight`.
      A move first feeds y to the driver (when the hotspot height is above
      -1), then is ignored if it resolves to no item or to the last index,
      restarts the drag if there is no last index, and otherwise emits the
      mode's commands and advances the last index. Up and cancel end the
      session. The active flag is not consulted. */
  function TouchStep(w: World, e: MotionEvent, rvHeight: int): (r: World)
    ensures e.action in {ActionUp, ActionCancel} ==> r == DragStopStep(w)
    ensures e.action in {ActionDown, ActionOther} ==> r == w
    ensures e.action == ActionMove && !(e.itemPosition != NO_POSITION && w.drag.lastDraggedIndex == NO_POSITION) ==>
      r.scroller == Fed(w, e.y, rvHeight)
    ensures e.action == ActionMove && (e.itemPosition == NO_POSITION || e.itemPosition == w.drag.lastDraggedIndex) ==>
      r.drag == w.drag && r.selected == w.selected && r.log == w.log
    ensures e.action == ActionMove && e.itemPosition != NO_POSITION && w.drag.lastDraggedIndex == NO_POSITION ==>
      r.drag == w.drag.(firstItemPosition := e.itemPosition, lastDraggedIndex := e.itemPosition,
                        startIsSelected := e.itemPosition in w.selected)
      && r.log == w.log + [SetSelect(e.itemPosition, e.itemPosition, e.itemPosition !in w.selected)]
      && (e.itemPosition in r.selected <==> e.itemPosition !in w.selected)
      && (forall i :: i != e.itemPosition ==> (i in r.selected <==> i in w.selected))
      && r.scroller == ScrollerStop(Fed(w, e.y, rvHeight))
    ensures e.action == ActionMove && e.itemPosition != NO_POSITION && w.drag.lastDraggedIndex != NO_POSITION
            && e.itemPosition != w.drag.lastDraggedIndex ==>
      r.drag == w.drag.(lastDraggedIndex := e.itemPosition)
      && r.log == w.log + MoveCommands(w.drag, e.itemPosition)
      && r.selected == ApplyAll(w.selected, MoveCommands(w.drag, e.itemPosition))
    ensures Inv(w.scroller) ==> Inv(r.scroller)
    ensures Paired(w.drag) ==> Paired(r.drag)
  {
    match e.action
    case ActionMove =>
      var w1 := w.(scroller := Fed(w, e.y, rvHeight));
      var i := e.itemPosition;
      if i == NO_POSITION || w.drag.lastDraggedIndex == i then w1
      else if w.drag.lastDraggedIndex == NO_POSITION then DragStartStep(w1, i)
      else
        var cs := MoveCommands(w.drag, i);
        w1.(drag := w.drag.(lastDraggedIndex := i), selected := ApplyAll(w.selected, cs), log := w.log + cs)
    case ActionUp => DragStopStep(w)
    case ActionCancel => DragStopStep(w)
    case ActionDown => w
    case ActionOther => w
  }

  /** The world after a sequence of touch events. */
  function Replay(w: World, events: seq<MotionEvent>, rvHeight: int): World
    decreases |events|
  {
    if events == [] then w else Replay(TouchStep(w, events[0], rvHeight), events[1..], rvHeight)
  }

  /** Every sequence of touch events keeps the anchor and the last index
      paired. */
  lemma {:induction false} ReplayKeepsPaired(w: World, events: seq<MotionEvent>, rvHeight: int)
    requires Paired(w.drag)
    ensures Paired(Replay(w, events, rvHeight).drag)
    decreases |events|
  {
    if events != [] {
      ReplayKeepsPaired(TouchStep(w, events[0], rvHeight), events[1..], rvHeight);
    }
  }

  predicate AllMoves(events: seq<MotionEvent>) {
    forall k :: 0 <= k < |events| ==> events[k].action == ActionMove
  }

  // ---------------------------------------------------------------------
  // RANGE mode, unselected start item: the selection is exactly the span.

  /** Within the list's items [0, n), exactly the span between the anchor
      and the last dragged index is selected. */
  ghost predicate ExactSpan(w: World, n: int) {
    && w.drag.mode == Range && !w.drag.startIsSelected
    && 0 <= w.drag.firstItemPosition < n && 0 <= w.drag.lastDraggedIndex < n
    && forall i :: 0 <= i < n ==>
         (i in w.selected <==> InSpan(w.drag.firstItemPosition, w.drag.lastDraggedIndex, i))
  }

  /** Every move to an item of the list (or to no item) keeps the selection
      equal to the anchor span. */
  lemma RangeMoveKeepsExactSpan(w: World, e: MotionEvent, n: int, rvHeight: int)
    requires ExactSpan(w, n)
    requires e.action == ActionMove && (e.itemPosition == NO_POSITION || 0 <= e.itemPosition < n)
    ensures ExactSpan(TouchStep(w, e, rvHeight), n)
    ensures TouchStep(w, e, rvHeight).drag.firstItemPosition == w.drag.firstItemPosition
  {
    var i := e.itemPosition;
    if i != NO_POSITION && i != w.drag.lastDraggedIndex {
      RangeDiffEffect(w.selected, w.drag.firstItemPosition, w.drag.lastDraggedIndex, i);
    }
  }

  lemma {:induction false} RangeDragKeepsExactSpan(w: World, events: seq<MotionEvent>, n: int, rvHeight: int)
    requires ExactSpan(w, n) && AllMoves(events)
    requires forall k :: 0 <= k < |events| ==>
      events[k].itemPosition == NO_POSITION || 0 <= events[k].itemPosition < n
    ensures ExactSpan(Replay(w, events, rvHeight), n)
    ensures Replay(w, events, rvHeight).drag.firstItemPosition == w.drag.firstItemPosition
    decreases |events|
  {
    if events != [] {
      RangeMoveKeepsExactSpan(w, events[0], n, rvHeight);
      RangeDragKeepsExactSpan(TouchStep(w, events[0], rvHeight), events[1..], n, rvHeight);
    }
  }

  /** A RANGE session started on an unselected item of a list with nothing
      selected selects, after any moves within the list, exactly the items
      between the anchor and the last index. */
  lemma RangeSessionSelectsExactlySpan(w: World, p: int, events: seq<MotionEvent>, n: int, rvHeight: int)
    requires w.drag.mode == Range && !w.drag.dragSelectActive
    requires 0 <= p < n && forall i :: 0 <= i < n ==> i !in w.selected
    requires AllMoves(events)
    requires forall k :: 0 <= k < |events| ==>
      events[k].itemPosition == NO_POSITION || 0 <= events[k].itemPosition < n
    ensures var r := Replay(SetActiveStep(w, true, p), events, rvHeight);
      r.drag.firstItemPosition == p
      && 0 <= r.drag.lastDraggedIndex < n
      && forall i :: 0 <= i < n ==> (i in r.selected <==> InSpan(p, r.drag.lastDraggedIndex, i))
  {
    var w1 := SetActiveStep(w, true, p);
    assert ExactSpan(w1, n);
    RangeDragKeepsExactSpan(w1, events, n, rvHeight);
  }

  // ---------------------------------------------------------------------
  // RANGE mode, selected start item: the drag only ever deselects.

  /** Nothing between the anchor and the last dragged index is selected. */
  ghost predicate SpanCleared(w: World) {
    && w.drag.mode == Range && w.drag.startIsSelected
    && w.drag.lastDraggedIndex != NO_POSITION
    && forall i :: InSpan(w.drag.firstItemPosition, w.drag.lastDraggedIndex, i) ==> i !in w.selected
  }

  lemma SelectedStartMoveOnlyDeselects(w: World, e: MotionEvent, rvHeight: int)
    requires SpanCleared(w) && e.action == ActionMove
    ensures SpanCleared(TouchStep(w, e, rvHeight))
    ensures TouchStep(w, e, rvHeight).selected <= w.selected
    ensures TouchStep(w, e, rvHeight).drag.firstItemPosition == w.drag.firstItemPosition
  {
    var i := e.itemPosition;
    if i != NO_POSITION && i != w.drag.lastDraggedIndex {
      SweepKeepsSpanClear(w.selected, w.drag.firstItemPosition, w.drag.lastDraggedIndex, i);
      var c := SetSelect(Min(w.drag.lastDraggedIndex, i), Max(w.drag.lastDraggedIndex, i), false);
      assert MoveCommands(w.drag, i) == [] + [c];
      ApplyAllSnoc(w.selected, [], c);
    }
  }

  lemma {:induction false} SelectedStartDragOnlyDeselects(w: World, events: seq<MotionEvent>, rvHeight: int)
    requires SpanCleared(w) && AllMoves(events)
    ensures SpanCleared(Replay(w, events, rvHeight))
    ensures Replay(w, events, rvHeight).selected <= w.selected
    ensures Replay(w, events, rvHeight).drag.firstItemPosition == w.drag.firstItemPosition
    decreases |events|
  {
    if events != [] {
      SelectedStartMoveOnlyDeselects(w, events[0], rvHeight);
      SelectedStartDragOnlyDeselects(TouchStep(w, events[0], rvHeight), events[1..], rvHeight);
    }
  }

  /** A RANGE session started on a selected item deselects it and never
      selects anything afterwards; the span from the anchor to the last
      index stays clear, however the pointer moves back and forth. */
  lemma SelectedStartSessionOnlyDeselects(w: World, p: int, events: seq<MotionEvent>, rvHeight: int)
    requires w.drag.mode == Range && !w.drag.dragSelectActive
    requires p != NO_POSITION && p in w.selected
    requires AllMoves(events)
    ensures var r := Replay(SetActiveStep(w, true, p), events, rvHeight);
      r.selected <= w.selected - {p}
      && r.drag.firstItemPosition == p
      && forall i :: InSpan(p, r.drag.lastDraggedIndex, i) ==> i !in r.selected
  {
    var w1 := SetActiveStep(w, true, p);
    assert SpanCleared(w1);
    SelectedStartDragOnlyDeselects(w1, events, rvHeight);
  }

  // ---------------------------------------------------------------------
  // PATH mode: one single-item command per new index.

  function Positions(events: seq<MotionEvent>): (ps: seq<int>)
    ensures |ps| == |events|
    ensures forall k :: 0 <= k < |events| ==> ps[k] == events[k].itemPosition
    decreases |events|
  {
    if events == [] then [] else [events[0].itemPosition] + Positions(events[1..])
  }

  /** The single-item commands that paint `items` in order with state `b`. */
  function Paint(items: seq<int>, b: bool): seq<Command>
    decreases |items|
  {
    if items == [] then [] else [SetSelect(items[0], items[0], b)] + Paint(items[1..], b)
  }

  /** Every event is a move to a valid index different from the index
      before it; the first is compared with `prev`. */
  predicate FreshMoves(prev: int, events: seq<MotionEvent>)
    decreases |events|
  {
    events == []
    || (&& events[0].action == ActionMove
        && events[0].itemPosition != NO_POSITION
        && events[0].itemPosition != prev
        && FreshMoves(events[0].itemPosition, events[1..]))
  }

  /** In PATH mode, moves over valid indices, each different from the one
      before, emit one command per index, in order, painting each visited
      item with the opposite of the start item's state ... */
  lemma {:induction false} PathLogsEachVisitedItem(w: World, events: seq<MotionEvent>, rvHeight: int)
    requires w.drag.mode == Path && w.drag.lastDraggedIndex != NO_POSITION
    requires FreshMoves(w.drag.lastDraggedIndex, events)
    ensures Replay(w, events, rvHeight).log == w.log + Paint(Positions(events), !w.drag.startIsSelected)
    decreases |events|
  {
    if events != [] {
      var p := events[0].itemPosition;
      var rest := events[1..];
      PathMove(w, events[0], rvHeight);
      PathLogsEachVisitedItem(TouchStep(w, events[0], rvHeight), rest, rvHeight);
      var c := SetSelect(p, p, !w.drag.startIsSelected);
      assert Paint(Positions(events), !w.drag.startIsSelected) == [c] + Paint(Positions(rest), !w.drag.startIsSelected);
      AppendAssoc(w.log, [c], Paint(Positions(rest), !w.drag.startIsSelected));
    }
  }

  /** ... while the anchor and the polarity stay and the last index follows
      the pointer ... */
  lemma {:induction false} PathFollowsPointer(w: World, events: seq<MotionEvent>, rvHeight: int)
    requires w.drag.mode == Path && w.drag.lastDraggedIndex != NO_POSITION
    requires FreshMoves(w.drag.lastDraggedIndex, events)
    ensures Replay(w, events, rvHeight).drag
         == if events == [] then w.drag else w.drag.(lastDraggedIndex := events[|events| - 1].itemPosition)
    decreases |events|
  {
    if events != [] {
      var rest := events[1..];
      PathMove(w, events[0], rvHeight);
      PathFollowsPointer(TouchStep(w, events[0], rvHeight), rest, rvHeight);
      assert events[|events| - 1] == (if rest == [] then events[0] else rest[|rest| - 1]);
    }
  }

  /** ... and afterwards every visited item has the opposite of the start
      item's state, while items not visited keep theirs. */
  lemma {:induction false} PathPaintsEachVisitedItem(w: World, events: seq<MotionEvent>, rvHeight: int)
    requires w.drag.mode == Path && w.drag.lastDraggedIndex != NO_POSITION
    requires FreshMoves(w.drag.lastDraggedIndex, events)
    ensures var r := Replay(w, events, rvHeight);
      && (forall i :: i in Positions(events) ==> (i in r.selected <==> !w.drag.startIsSelected))
      && (forall i :: i !in Positions(events) ==> (i in r.selected <==> i in w.selected))
    decreases |events|
  {
    if events != [] {
      var p := events[0].itemPosition;
      var rest := events[1..];
      PathMove(w, events[0], rvHeight);
      PathPaintsEachVisitedItem(TouchStep(w, events[0], rvHeight), rest, rvHeight);
      assert Positions(events) == [p] + Positions(rest);
    }
  }

  /** One PATH move to a new valid index `p`: paint `p` alone. */
  lemma PathMove(w: World, e: MotionEvent, rvHeight: int)
    requires w.drag.mode == Path && w.drag.lastDraggedIndex != NO_POSITION
    requires e.action == ActionMove && e.itemPosition != NO_POSITION && e.itemPosition != w.drag.lastDraggedIndex
    ensures var r := TouchStep(w, e, rvHeight);
      && r.drag == w.drag.(lastDraggedIndex := e.itemPosition)
      && r.log == w.log + [SetSelect(e.itemPosition, e.itemPosition, !w.drag.startIsSelected)]
      && (e.itemPosition in r.selected <==> !w.drag.startIsSelected)
      && (forall i :: i != e.itemPosition ==> (i in r.selected <==> i in w.selected))
  {
    ApplyAllSnoc(w.selected, [], SetSelect(e.itemPosition, e.itemPosition, !w.drag.startIsSelected));
  }

  // ---------------------------------------------------------------------
  // The handler object.

  class DragSelectTouchHandler {
    var mode: Mode
    var startIsSelected: bool
    var firstItemPosition: int
    var lastDraggedIndex: int
    var dragSelectActive: bool
    var hotspotHeight: int
    const rvScroller: RVScroller
    const selectListener: SelectListener

    ghost function Abs(): World
      reads this, rvScroller, selectListener
    {
      World(
        DragState(mode, startIsSelected, firstItemPosition, lastDraggedIndex, dragSelectActive, hotspotHeight),
        rvScroller.State(), selectListener.selected, selectListener.log)
    }

    ghost predicate Valid()
      reads this, rvScroller
    {
      rvScroller.Valid() && (firstItemPosition == NO_POSITION) == (lastDraggedIndex == NO_POSITION)
    }

    /** `defaultHotspotHeight` is the pixel size of 100 density-independent
        units on the host's screen. */
    constructor (listener: SelectListener, defaultHotspotHeight: int)
      ensures Valid() && selectListener == listener && fresh(rvScroller)
      ensures Abs() == World(DragState(Range, false, NO_POSITION, NO_POSITION, false, defaultHotspotHeight),
                             InitialScroll, listener.selected, listener.log)
    {
      mode := Range;
      startIsSelected := false;
      firstItemPosition := NO_POSITION;
      lastDraggedIndex := NO_POSITION;
      dragSelectActive := false;
      hotspotHeight := defaultHotspotHeight;
      rvScroller := new RVScroller();
      selectListener := listener;
    }

    method SetActive(active: bool, firstPos: int)
      requires Valid()
      modifies this, rvScroller, selectListener
      ensures Valid() && Abs() == SetActiveStep(old(Abs()), active, firstPos)
    {
      if dragSelectActive {
        return;
      }
      dragSelectActive := active;
      OnDragStart(firstPos);
    }

    method SetMode(m: Mode)
      requires Valid()
      modifies this
      ensures Valid() && Abs() == old(Abs()).(drag := old(Abs()).drag.(mode := m))
    {
      mode := m;
    }

    method SetHotspotHeight(height: int)
      requires Valid()
      modifies this
      ensures Valid() && Abs() == old(Abs()).(drag := old(Abs()).drag.(hotspotHeight := height))
    {
      hotspotHeight := height;
    }

    method OnDragStart(itemPosition: int)
      requires Valid()
      modifies this, rvScroller, selectListener
      ensures Valid() && Abs() == DragStartStep(old(Abs()), itemPosition)
    {
      rvScroller.Stop();
      firstItemPosition := itemPosition;
      lastDraggedIndex := itemPosition;
      startIsSelected := selectListener.IsSelected(itemPosition);
      selectListener.OnSetSelect(itemPosition, itemPosition, !startIsSelected);
    }

    method OnDragSelectionStop()
      requires Valid()
      modifies this, rvScroller
      ensures Valid() && Abs() == DragStopStep(old(Abs()))
    {
      dragSelectActive := false;
      lastDraggedIndex := NO_POSITION;
      firstItemPosition := NO_POSITION;
      rvScroller.Stop();
    }

    /** `itemCount` is the adapter's item count, `None` when the list has no
        adapter. */
    method OnInterceptTouchEvent(itemCount: Option<int>) returns (intercept: bool)
      ensures intercept <==> dragSelectActive && itemCount.Some? && itemCount.value != 0
    {
      if !dragSelectActive {
        return false;
      }
      intercept := itemCount.Some? && itemCount.value != 0;
    }

    /** The PATH and RANGE branches of a move share their first two tests
        (no item or the same index: nothing; no last index: restart), so
        they are tested once here before the mode-specific commands. */
    method OnTouchEvent(e: MotionEvent, rvHeight: int)
      requires Valid()
      modifies this, rvScroller, selectListener
      ensures Valid() && Abs() == TouchStep(old(Abs()), e, rvHeight)
    {
      var action := e.action;
      var itemPosition := e.itemPosition;
      if action == ActionMove {
        if hotspotHeight > -1 {
          rvScroller.OnMove(e.y, hotspotHeight, rvHeight);
        }
        if itemPosition == NO_POSITION || lastDraggedIndex == itemPosition {
          return;
        }
        if lastDraggedIndex == NO_POSITION {
          OnDragStart(itemPosition);
          return;
        }
        EmitMove(itemPosition);
        lastDraggedIndex := itemPosition;
      } else if action == ActionUp || action == ActionCancel {
        OnDragSelectionStop();
      }
    }

    /** The commands of a move to a new index while a drag is under way. */
    method EmitMove(itemPosition: int)
      modifies selectListener
      ensures selectListener.log == old(selectListener.log) + MoveCommands(old(Abs()).drag, itemPosition)
      ensures selectListener.selected == ApplyAll(old(selectListener.selected), MoveCommands(old(Abs()).drag, itemPosition))
    {
      if mode == Path {
        Emit(SetSelect(itemPosition, itemPosition, !startIsSelected));
      } else if startIsSelected {
        if lastDraggedIndex > itemPosition {
          Emit(SetSelect(itemPosition, lastDraggedIndex, false));
        } else {
          Emit(SetSelect(lastDraggedIndex, itemPosition, false));
        }
      } else {
        var curStart := Min(itemPosition, firstItemPosition);
        var curEnd := Max(itemPosition, firstItemPosition);
        var lastStart := Min(lastDraggedIndex, firstItemPosition);
        var lastEnd := Max(lastDraggedIndex, firstItemPosition);
        EmitRangeDiff(curStart, curEnd, lastStart, lastEnd);
      }
    }

    /** The unselected-start branch of a RANGE move from the old span
        [lastStart, lastEnd] to the new span [curStart, curEnd]: four guarded
        range commands, issued one by one. */
    method EmitRangeDiff(curStart: int, curEnd: int, lastStart: int, lastEnd: int)
      modifies selectListener
      ensures selectListener.log == old(selectListener.log) + FourWay(curStart, curEnd, lastStart, lastEnd)
      ensures selectListener.selected
           == ApplyAll(old(selectListener.selected), FourWay(curStart, curEnd, lastStart, lastEnd))
    {
      var min := Min(curStart, lastStart);
      var max := Max(curEnd, lastEnd);
      ghost var w1 := When(min < curStart, SetSelect(min, curStart - 1, false));
      ghost var w2 := When(max > curEnd, SetSelect(curEnd + 1, max, false));
      ghost var w3 := When(curStart < lastStart, SetSelect(curStart, lastStart - 1, true));
      ghost var w4 := When(curEnd > lastEnd, SetSelect(lastEnd + 1, curEnd, true));
      ghost var sel0, log0 := selectListener.selected, selectListener.log;
      EmitWhen(min < curStart, SetSelect(min, curStart - 1, false));
      EmitWhen(max > curEnd, SetSelect(curEnd + 1, max, false));
      EmitWhen(curStart < lastStart, SetSelect(curStart, lastStart - 1, true));
      EmitWhen(curEnd > lastEnd, SetSelect(lastEnd + 1, curEnd, true));
      assert FourWay(curStart, curEnd, lastStart, lastEnd) == w1 + w2 + w3 + w4;
      ApplyAllAppend(sel0, w1, w2);
      ApplyAllAppend(sel0, w1 + w2, w3);
      ApplyAllAppend(sel0, w1 + w2 + w3, w4);
      AppendAssoc(log0, w1, w2);
      AppendAssoc(log0, w1 + w2, w3);
      AppendAssoc(log0, w1 + w2 + w3, w4);
    }

    /** `if (b) onSetSelect(c)`. */
    method EmitWhen(b: bool, c: Command)
      modifies selectListener
      ensures selectListener.log == old(selectListener.log) + When(b, c)
      ensures selectListener.selected == ApplyAll(old(selectListener.selected), When(b, c))
    {
      if b {
        Emit(c);
      } else {
        assert old(selectListener.log) + When(b, c) == old(selectListener.log);
      }
    }

    /** One `onSetSelect` call. */
    method Emit(c: Command)
      modifies selectListener
      ensures selectListener.log == old(selectListener.log) + [c]
      ensures selectListener.selected == ApplyAll(old(selectListener.selected), [c])
    {
      selectListener.OnSetSelect(c.start, c.end, c.selected);
      ApplyAllSnoc(old(selectListener.selected), [], c);
      assert [] + [c] == [c];
    }
  }
}
