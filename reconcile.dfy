/** The interval arithmetic of RANGE mode: which range commands turn the
    span between the anchor and the previous pointer index into the span
    between the anchor and the new one, and what they do to the selection. */
module Reconcile {
  import opened Selection

  /** `Math.min` / `Math.max` on ints. */
  function Min(a: int, b: int): int { if a < b then a else b }
  function Max(a: int, b: int): int { if a > b then a else b }

  /** `i` lies in the closed span between the anchor and `pos`, in either order. */
  predicate InSpan(anchor: int, pos: int, i: int) {
    Min(anchor, pos) <= i <= Max(anchor, pos)
  }

  /** Command `c` writes only indices in [lo, hi]. */
  predicate Within(c: Command, lo: int, hi: int) {
    lo <= c.start && c.end <= hi
  }

  /** Command `c` writes no index in [lo, hi]. */
  predicate Avoids(c: Command, lo: int, hi: int) {
    c.end < lo || hi < c.start
  }

  /** The one-command sequence `[c]` when `b` holds, else nothing. */
  function When(b: bool, c: Command): seq<Command> {
    if b then [c] else []
  }

  /** RANGE mode with an unselected start item: the four-way diff from the
      old span [anchor..last] to the new span [anchor..cur]. Deselect what the
      span gave up, then select what it gained; a range is sent only when it
      is non-empty. Of the four guarded commands at most one fires on each
      side of the anchor, and none writes the anchor itself. */
  function RangeDiff(anchor: int, last: int, cur: int): (cs: seq<Command>)
    ensures |cs| <= 2
    ensures forall c :: c in cs ==> c.start <= c.end && Avoids(c, anchor, anchor)
    ensures forall c :: c in cs && c.selected ==>
      Within(c, Min(anchor, cur), Max(anchor, cur)) && Avoids(c, Min(anchor, last), Max(anchor, last))
    ensures forall c :: c in cs && !c.selected ==>
      Within(c, Min(anchor, last), Max(anchor, last)) && Avoids(c, Min(anchor, cur), Max(anchor, cur))
    ensures |cs| == 2 ==> cs[0].end < anchor < cs[1].start || cs[1].end < anchor < cs[0].start
  {
    FourWayShape(anchor, last, cur);
    FourWay(Min(cur, anchor), Max(cur, anchor), Min(last, anchor), Max(last, anchor))
  }

  /** The four guarded range commands from the old span [lastStart, lastEnd]
      to the new span [curStart, curEnd]. */
  function FourWay(curStart: int, curEnd: int, lastStart: int, lastEnd: int): seq<Command> {
    var min := Min(curStart, lastStart);
    var max := Max(curEnd, lastEnd);
    When(min < curStart, SetSelect(min, curStart - 1, false))
    + When(max > curEnd, SetSelect(curEnd + 1, max, false))
    + When(curStart < lastStart, SetSelect(curStart, lastStart - 1, true))
    + When(curEnd > lastEnd, SetSelect(lastEnd + 1, curEnd, true))
  }

  /** The shape of the four-way diff, case by case: the left edges of the two
      spans decide which (if any) of the first and third commands fires, the
      right edges which of the second and fourth. */
  lemma FourWayShape(anchor: int, last: int, cur: int)
    ensures var cs := FourWay(Min(cur, anchor), Max(cur, anchor), Min(last, anchor), Max(last, anchor));
      && |cs| <= 2
      && (forall c :: c in cs ==> c.start <= c.end && Avoids(c, anchor, anchor))
      && (forall c :: c in cs && c.selected ==>
            Within(c, Min(anchor, cur), Max(anchor, cur)) && Avoids(c, Min(anchor, last), Max(anchor, last)))
      && (forall c :: c in cs && !c.selected ==>
            Within(c, Min(anchor, last), Max(anchor, last)) && Avoids(c, Min(anchor, cur), Max(anchor, cur)))
      && (|cs| == 2 ==> cs[0].end < anchor < cs[1].start || cs[1].end < anchor < cs[0].start)
  {
    var curStart, curEnd := Min(cur, anchor), Max(cur, anchor);
    var lastStart, lastEnd := Min(last, anchor), Max(last, anchor);
    var left := if lastStart < curStart then [SetSelect(lastStart, curStart - 1, false)] else [];
    var right := if curEnd < lastEnd then [SetSelect(curEnd + 1, lastEnd, false)] else [];
    var gainLeft := if curStart < lastStart then [SetSelect(curStart, lastStart - 1, true)] else [];
    var gainRight := if lastEnd < curEnd then [SetSelect(lastEnd + 1, curEnd, true)] else [];
    assert FourWay(curStart, curEnd, lastStart, lastEnd) == left + right + gainLeft + gainRight;
    assert left == [] || gainLeft == [];
    assert right == [] || gainRight == [];
  }

  /** Net effect of the four-way diff: indices the span gained become
      selected, indices it gave up become deselected, and every other index
      (in both spans or in neither) keeps its state. */
  lemma RangeDiffEffect(sel: set<int>, anchor: int, last: int, cur: int)
    ensures forall i :: InSpan(anchor, cur, i) && !InSpan(anchor, last, i) ==>
      i in ApplyAll(sel, RangeDiff(anchor, last, cur))
    ensures forall i :: InSpan(anchor, last, i) && !InSpan(anchor, cur, i) ==>
      i !in ApplyAll(sel, RangeDiff(anchor, last, cur))
    ensures forall i :: InSpan(anchor, cur, i) == InSpan(anchor, last, i) ==>
      (i in ApplyAll(sel, RangeDiff(anchor, last, cur)) <==> i in sel)
  {
    forall i {
      DiffEffectAt(sel, anchor, last, cur, i);
    }
  }

  /** `RangeDiffEffect` at one index: find the command that covers it, if any. */
  lemma DiffEffectAt(sel: set<int>, anchor: int, last: int, cur: int, i: int)
    ensures InSpan(anchor, cur, i) && !InSpan(anchor, last, i) ==> i in ApplyAll(sel, RangeDiff(anchor, last, cur))
    ensures InSpan(anchor, last, i) && !InSpan(anchor, cur, i) ==> i !in ApplyAll(sel, RangeDiff(anchor, last, cur))
    ensures InSpan(anchor, cur, i) == InSpan(anchor, last, i) ==>
      (i in ApplyAll(sel, RangeDiff(anchor, last, cur)) <==> i in sel)
  {
    var cs := RangeDiff(anchor, last, cur);
    var curStart, curEnd := Min(cur, anchor), Max(cur, anchor);
    var lastStart, lastEnd := Min(last, anchor), Max(last, anchor);
    if InSpan(anchor, cur, i) && !InSpan(anchor, last, i) {
      var c := if i < lastStart then SetSelect(curStart, lastStart - 1, true)
               else SetSelect(lastEnd + 1, curEnd, true);
      assert c in cs && Covers(c, i);
      ApplyAllUniform(sel, cs, i, true);
    } else if InSpan(anchor, last, i) && !InSpan(anchor, cur, i) {
      var c := if i < curStart then SetSelect(lastStart, curStart - 1, false)
               else SetSelect(curEnd + 1, lastEnd, false);
      assert c in cs && Covers(c, i);
      ApplyAllUniform(sel, cs, i, false);
    } else {
      ApplyAllUntouched(sel, cs, i);
    }
  }

  /** RANGE mode with a selected start item: one deselect over the span
      between the previous and the new pointer index. It never selects, and
      if the anchor span to `last` was clear, the anchor span to `cur` is
      clear afterwards. */
  lemma SweepKeepsSpanClear(sel: set<int>, anchor: int, last: int, cur: int)
    requires forall i :: InSpan(anchor, last, i) ==> i !in sel
    ensures Apply(sel, SetSelect(Min(last, cur), Max(last, cur), false)) <= sel
    ensures forall i :: InSpan(anchor, cur, i) ==>
      i !in Apply(sel, SetSelect(Min(last, cur), Max(last, cur), false))
  {
    var c := SetSelect(Min(last, cur), Max(last, cur), false);
    forall i | InSpan(anchor, cur, i)
      ensures i !in Apply(sel, c)
    {
      if !Covers(c, i) {
        assert InSpan(anchor, last, i);
      }
    }
  }
}
