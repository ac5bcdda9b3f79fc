/** The auto-scroll driver (`RVScroller`): while the pointer rests in the
    top or bottom hotspot of the list, a self-rescheduling tick scrolls the
    list by a signed velocity. The host list's scheduling and scrolling are
    modelled by a `pending` flag (the tick is posted and not yet run) and by
    the log of calls the driver makes on the list. */
module AutoScroll {

  /** The calls the driver makes on the host list. */
  datatype HostCall =
    | RemoveCallbacks
    | PostOnAnimation
    | ScrollBy(dx: int, dy: int)
    | PostDelayed(delayMs: int)

  /** Delay between two ticks, in milliseconds. */
  const TICK_DELAY_MS: int := 25

  datatype ScrollState = ScrollState(
    inTopHotspot: bool,
    inBottomHotspot: bool,
    autoScrollVelocity: int,
    pending: bool,
    calls: seq<HostCall>)

  const InitialScroll: ScrollState := ScrollState(false, false, 0, false, [])

  /** Java's `(int) (d / 2)` on a float: halve, then truncate toward zero. */
  function TruncHalf(d: int): (h: int)
    ensures d >= 0 ==> 0 <= 2 * h <= d <= 2 * h + 1
    ensures d <= 0 ==> 2 * h - 1 <= d <= 2 * h <= 0
  {
    if d >= 0 then d / 2 else -((-d) / 2)
  }

  predicate Idle(s: ScrollState) {
    !s.inTopHotspot && !s.inBottomHotspot
  }

  /** The driver's invariant: at most one hotspot, a tick is pending exactly
      while in a hotspot, and the velocity is zero when idle, non-positive at
      the top and non-negative at the bottom. */
  ghost predicate Inv(s: ScrollState) {
    && !(s.inTopHotspot && s.inBottomHotspot)
    && (s.pending <==> !Idle(s))
    && (Idle(s) ==> s.autoScrollVelocity == 0)
    && (s.inTopHotspot ==> s.autoScrollVelocity <= 0)
    && (s.inBottomHotspot ==> s.autoScrollVelocity >= 0)
  }

  /** Whether `r` is in a hotspot that `s` was not in. */
  predicate Entered(s: ScrollState, r: ScrollState) {
    (r.inTopHotspot && !s.inTopHotspot) || (r.inBottomHotspot && !s.inBottomHotspot)
  }

  /** `start`: drop any queued tick and post a fresh one. */
  function ScrollerStart(s: ScrollState): (r: ScrollState)
    ensures r.pending
    ensures r.calls == s.calls + [RemoveCallbacks, PostOnAnimation]
    ensures r.(pending := s.pending, calls := s.calls) == s
  {
    s.(pending := true, calls := s.calls + [RemoveCallbacks, PostOnAnimation])
  }

  /** `stop`: drop any queued tick, leave both hotspots, zero the velocity. */
  function ScrollerStop(s: ScrollState): (r: ScrollState)
    ensures Inv(r) && Idle(r) && !r.pending && r.autoScrollVelocity == 0
    ensures r.calls == s.calls + [RemoveCallbacks]
  {
    ScrollState(false, false, 0, false, s.calls + [RemoveCallbacks])
  }

  /** `onMove(y)` with the current hotspot height and the list's measured
      height. The top hotspot is tested first. */
  function ScrollerMove(s: ScrollState, y: int, hotspotHeight: int, rvHeight: int): (r: ScrollState)
    ensures !(r.inTopHotspot && r.inBottomHotspot)
    ensures y <= hotspotHeight ==>
      r.inTopHotspot && r.autoScrollVelocity == TruncHalf(y - hotspotHeight) && r.autoScrollVelocity <= 0
    ensures hotspotHeight < y && rvHeight - hotspotHeight <= y ==>
      r.inBottomHotspot && r.autoScrollVelocity == TruncHalf(y - (rvHeight - hotspotHeight))
      && r.autoScrollVelocity >= 0
    ensures hotspotHeight < y < rvHeight - hotspotHeight ==>
      if Idle(s) then r == s else Idle(r) && !r.pending && r.autoScrollVelocity == 0
    ensures |s.calls| <= |r.calls| && r.calls[..|s.calls|] == s.calls
    ensures PostOnAnimation in r.calls[|s.calls|..] <==> Entered(s, r)
    ensures r.calls == s.calls + (if Entered(s, r) then [RemoveCallbacks, PostOnAnimation]
                                  else if !Idle(s) && Idle(r) then [RemoveCallbacks]
                                  else [])
    ensures !Entered(s, r) && !Idle(r) ==> r.pending == s.pending
    ensures Inv(s) ==> Inv(r)
  {
    var topEnd := hotspotHeight;
    var bottomStart := rvHeight - hotspotHeight;
    if y <= topEnd then
      var s1 := s.(inBottomHotspot := false);
      var s2 := if !s1.inTopHotspot then ScrollerStart(s1.(inTopHotspot := true)) else s1;
      s2.(autoScrollVelocity := TruncHalf(y - topEnd))
    else if y >= bottomStart then
      var s1 := s.(inTopHotspot := false);
      var s2 := if !s1.inBottomHotspot then ScrollerStart(s1.(inBottomHotspot := true)) else s1;
      s2.(autoScrollVelocity := TruncHalf(y - bottomStart))
    else if s.inTopHotspot || s.inBottomHotspot then
      ScrollerStop(s)
    else
      s
  }

  /** `run`, the tick itself: scroll by the current velocity and post the
      next tick. The host runs it only while it is posted. */
  function ScrollerRun(s: ScrollState): (r: ScrollState)
    requires s.pending
    ensures r.pending
    ensures r.calls == s.calls + [ScrollBy(0, s.autoScrollVelocity), PostDelayed(TICK_DELAY_MS)]
    ensures r.(calls := s.calls) == s
    ensures Inv(s) ==> Inv(r)
  {
    s.(calls := s.calls + [ScrollBy(0, s.autoScrollVelocity), PostDelayed(TICK_DELAY_MS)])
  }

  /** What reaches the driver over time: pointer moves and host ticks. */
  datatype ScrollEvent = Move(y: int) | Tick

  /** The driver after a sequence of events. A tick fires only while one is
      posted; otherwise the host has nothing queued and nothing happens. */
  function ScrollerReplay(s: ScrollState, events: seq<ScrollEvent>, hotspotHeight: int, rvHeight: int): ScrollState
    decreases |events|
  {
    if events == [] then s
    else
      var s1 := match events[0]
        case Move(y) => ScrollerMove(s, y, hotspotHeight, rvHeight)
        case Tick => if s.pending then ScrollerRun(s) else s;
      ScrollerReplay(s1, events[1..], hotspotHeight, rvHeight)
  }

  /** The invariant holds along every sequence of moves and ticks. */
  lemma {:induction false} ReplayKeepsInv(s: ScrollState, events: seq<ScrollEvent>, hotspotHeight: int, rvHeight: int)
    requires Inv(s)
    ensures Inv(ScrollerReplay(s, events, hotspotHeight, rvHeight))
    decreases |events|
  {
    if events != [] {
      var s1 := match events[0]
        case Move(y) => ScrollerMove(s, y, hotspotHeight, rvHeight)
        case Tick => if s.pending then ScrollerRun(s) else s;
      ReplayKeepsInv(s1, events[1..], hotspotHeight, rvHeight);
    }
  }

  /** Once the pointer has left the hotspots (the driver is idle), moves that
      stay between them and the ticks in between change nothing: no scroll
      and no tick is posted. */
  lemma {:induction false} NoScrollBetweenHotspots(s: ScrollState, events: seq<ScrollEvent>, hotspotHeight: int, rvHeight: int)
    requires Inv(s) && Idle(s)
    requires forall k :: 0 <= k < |events| && events[k].Move? ==>
      hotspotHeight < events[k].y < rvHeight - hotspotHeight
    ensures ScrollerReplay(s, events, hotspotHeight, rvHeight) == s
    decreases |events|
  {
    if events != [] {
      NoScrollBetweenHotspots(s, events[1..], hotspotHeight, rvHeight);
    }
  }

  /** While the pointer stays in the same hotspot, each tick scrolls by the
      velocity set by the latest move, and no new tick is posted by the moves. */
  lemma {:induction false} TicksScrollByVelocity(s: ScrollState, ticks: nat, hotspotHeight: int, rvHeight: int)
    requires Inv(s) && !Idle(s)
    ensures var r := ScrollerReplay(s, seq(ticks, _ => Tick), hotspotHeight, rvHeight);
      r.(calls := s.calls) == s
      && r.calls == s.calls + ScrollTicks(s.autoScrollVelocity, ticks)
    decreases ticks
  {
    var events := seq(ticks, _ => Tick);
    if ticks > 0 {
      var s1 := ScrollerRun(s);
      assert events[1..] == seq(ticks - 1, _ => Tick);
      TicksScrollByVelocity(s1, ticks - 1, hotspotHeight, rvHeight);
      assert [ScrollBy(0, s.autoScrollVelocity), PostDelayed(TICK_DELAY_MS)]
        + ScrollTicks(s.autoScrollVelocity, ticks - 1) == ScrollTicks(s.autoScrollVelocity, ticks);
    }
  }

  /** The calls `n` ticks make at velocity `v`. */
  function ScrollTicks(v: int, n: nat): seq<HostCall> {
    if n == 0 then [] else [ScrollBy(0, v), PostDelayed(TICK_DELAY_MS)] + ScrollTicks(v, n - 1)
  }

  /** The driver object. */
  class RVScroller {
    var inTopHotspot: bool
    var inBottomHotspot: bool
    var autoScrollVelocity: int
    var pending: bool
    var calls: seq<HostCall>

    function State(): ScrollState
      reads this
    {
      ScrollState(inTopHotspot, inBottomHotspot, autoScrollVelocity, pending, calls)
    }

    ghost predicate Valid()
      reads this
    {
      Inv(State())
    }

    constructor ()
      ensures Valid() && State() == InitialScroll
    {
      inTopHotspot, inBottomHotspot, autoScrollVelocity := false, false, 0;
      pending, calls := false, [];
    }

    method OnMove(y: int, hotspotHeight: int, rvHeight: int)
      requires Valid()
      modifies this
      ensures Valid() && State() == ScrollerMove(old(State()), y, hotspotHeight, rvHeight)
    {
      var topEnd := hotspotHeight;
      var bottomStart := rvHeight - hotspotHeight;
      if y <= topEnd {
        inBottomHotspot := false;
        if !inTopHotspot {
          inTopHotspot := true;
          Start();
        }
        autoScrollVelocity := TruncHalf(y - topEnd);
      } else if y >= bottomStart {
        inTopHotspot := false;
        if !inBottomHotspot {
          inBottomHotspot := true;
          Start();
        }
        autoScrollVelocity := TruncHalf(y - bottomStart);
      } else if inTopHotspot || inBottomHotspot {
        Stop();
      }
    }

    method Start()
      modifies this
      ensures State() == ScrollerStart(old(State()))
    {
      calls := calls + [RemoveCallbacks];
      pending := false;
      calls := calls + [PostOnAnimation];
      pending := true;
    }

    method Stop()
      modifies this
      ensures Valid() && State() == ScrollerStop(old(State()))
    {
      calls := calls + [RemoveCallbacks];
      pending := false;
      inTopHotspot := false;
      inBottomHotspot := false;
      autoScrollVelocity := 0;
    }

    method Run()
      requires Valid() && pending
      modifies this
      ensures Valid() && State() == ScrollerRun(old(State()))
    {
      calls := calls + [ScrollBy(0, autoScrollVelocity)];
      calls := calls + [PostDelayed(TICK_DELAY_MS)];
    }
  }
}
