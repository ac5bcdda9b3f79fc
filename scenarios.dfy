/** Concrete drags on a list of ten items (indices 0 to 9), worked through
    the handler's step functions. */
module Scenarios {
  import opened Selection
  import opened AutoScroll
  import opened Reconcile
  import opened TouchHandler

  /** A RANGE-mode handler with no session, hotspots disabled. */
  function Fresh(selected: set<int>): World {
    World(DragState(Range, false, NO_POSITION, NO_POSITION, false, -1), InitialScroll, selected, [])
  }

  function MoveTo(i: int): MotionEvent {
    MotionEvent(ActionMove, i, 500)
  }

  /** The session fields once a drag anchored at 2 has reached `last`. */
  function Dragging(startIsSelected: bool, last: int): DragState {
    DragState(Range, startIsSelected, 2, last, true, -1)
  }

  /** Nothing selected, anchor 2: activation selects {2}. */
  lemma UnselectedStartActivation()
    ensures SetActiveStep(Fresh({}), true, 2)
         == World(Dragging(false, 2), ScrollerStop(InitialScroll), {2}, [SetSelect(2, 2, true)])
  {
  }

  /** ... a move to 5 then selects [3, 5] (whatever the scroller's state;
      with hotspots disabled the move does not reach it) ... */
  lemma UnselectedStartMoveOut(s: ScrollState)
    ensures TouchStep(World(Dragging(false, 2), s, {2}, [SetSelect(2, 2, true)]), MoveTo(5), 1000)
         == World(Dragging(false, 5), s, {2, 3, 4, 5},
                  [SetSelect(2, 2, true), SetSelect(3, 5, true)])
  {
    DiffOut();
    OneCommandMove(World(Dragging(false, 2), s, {2}, [SetSelect(2, 2, true)]),
                   5, SetSelect(3, 5, true), {2, 3, 4, 5});
  }

  /** ... and the move back to 3 deselects [4, 5]. */
  lemma UnselectedStartMoveBack(s: ScrollState)
    ensures TouchStep(World(Dragging(false, 5), s, {2, 3, 4, 5},
                            [SetSelect(2, 2, true), SetSelect(3, 5, true)]), MoveTo(3), 1000)
         == World(Dragging(false, 3), s, {2, 3},
                  [SetSelect(2, 2, true), SetSelect(3, 5, true), SetSelect(4, 5, false)])
  {
    DiffBack();
    OneCommandMove(World(Dragging(false, 5), s, {2, 3, 4, 5},
                         [SetSelect(2, 2, true), SetSelect(3, 5, true)]),
                   3, SetSelect(4, 5, false), {2, 3});
  }

  /** The four-way diff from span [2, 2] to span [2, 5] is one select. */
  lemma DiffOut()
    ensures MoveCommands(Dragging(false, 2), 5) == [SetSelect(3, 5, true)]
  {
    assert RangeDiff(2, 2, 5) == [SetSelect(3, 5, true)];
  }

  /** The four-way diff from span [2, 5] to span [2, 3] is one deselect. */
  lemma DiffBack()
    ensures MoveCommands(Dragging(false, 5), 3) == [SetSelect(4, 5, false)]
  {
    assert RangeDiff(2, 5, 3) == [SetSelect(4, 5, false)];
  }

  /** A move, with hotspots disabled, whose commands are the single command
      `c` taking the selection to `r`. */
  lemma OneCommandMove(w: World, i: int, c: Command, r: set<int>)
    requires w.drag.hotspotHeight <= -1
    requires i != NO_POSITION && w.drag.lastDraggedIndex != NO_POSITION && i != w.drag.lastDraggedIndex
    requires MoveCommands(w.drag, i) == [c] && Apply(w.selected, c) == r
    ensures TouchStep(w, MoveTo(i), 1000) == w.(drag := w.drag.(lastDraggedIndex := i), selected := r, log := w.log + [c])
  {
    ApplyAllSnoc(w.selected, [], c);
    assert [] + [c] == [c];
  }

  /** Items 2, 4 and 7 selected, anchor 2: activation deselects 2 ... */
  lemma SelectedStartActivation()
    ensures SetActiveStep(Fresh({2, 4, 7}), true, 2)
         == World(Dragging(true, 2), ScrollerStop(InitialScroll), {4, 7}, [SetSelect(2, 2, false)])
  {
  }

  /** ... a move to 5 deselects [2, 5] ... */
  lemma SelectedStartMoveOut(s: ScrollState)
    ensures TouchStep(World(Dragging(true, 2), s, {4, 7}, [SetSelect(2, 2, false)]), MoveTo(5), 1000)
         == World(Dragging(true, 5), s, {7},
                  [SetSelect(2, 2, false), SetSelect(2, 5, false)])
  {
    OneCommandMove(World(Dragging(true, 2), s, {4, 7}, [SetSelect(2, 2, false)]),
                   5, SetSelect(2, 5, false), {7});
  }

  /** ... and the move back to 3 deselects [3, 5], the span between the last
      and the new index: nothing is re-selected. */
  lemma SelectedStartMoveBack(s: ScrollState)
    ensures TouchStep(World(Dragging(true, 5), s, {7},
                            [SetSelect(2, 2, false), SetSelect(2, 5, false)]), MoveTo(3), 1000)
         == World(Dragging(true, 3), s, {7},
                  [SetSelect(2, 2, false), SetSelect(2, 5, false), SetSelect(3, 5, false)])
  {
    OneCommandMove(World(Dragging(true, 5), s, {7},
                         [SetSelect(2, 2, false), SetSelect(2, 5, false)]),
                   3, SetSelect(3, 5, false), {7});
  }

  /** After pointer-up the session is over and the handler no longer asks to
      intercept, yet a move that still reaches `onTouchEvent` with an item
      under the pointer starts a new drag there, because the last index is
      unset and the active flag is not consulted. */
  lemma MoveAfterUpRestartsDrag()
    ensures var w1 := SetActiveStep(Fresh({}), true, 2);
            var w2 := TouchStep(w1, MotionEvent(ActionUp, 2, 500), 1000);
            var w3 := TouchStep(w2, MoveTo(6), 1000);
      && w1.drag.dragSelectActive && !w2.drag.dragSelectActive
      && w2.drag.firstItemPosition == NO_POSITION && w2.drag.lastDraggedIndex == NO_POSITION
      && !w3.drag.dragSelectActive
      && w3.drag.firstItemPosition == 6 && w3.drag.lastDraggedIndex == 6
      && w3.log == w2.log + [SetSelect(6, 6, true)]
  {
  }
}
