/** The selection listener that the drag-select handler drives. The real
    listener lives outside the handler; here it is a model-owned selection
    (a set of item indices) together with the log of range commands it has
    received, so that the net effect of the handler's commands can be stated. */
module Selection {

  /** One call `onSetSelect(start, end, selected)`: give every index in the
      closed range [start, end] the state `selected`. */
  datatype Command = SetSelect(start: int, end: int, selected: bool)

  /** Whether command `c` writes index `i`. */
  predicate Covers(c: Command, i: int) {
    c.start <= i <= c.end
  }

  /** The closed index range [lo, hi] as a set (empty when lo > hi). */
  function Interval(lo: int, hi: int): (r: set<int>)
    ensures forall i :: i in r <==> lo <= i <= hi
    decreases hi - lo
  {
    if lo > hi then {} else {lo} + Interval(lo + 1, hi)
  }

  /** The listener's reaction to one command: the covered indices take the
      command's state, every other index keeps its state. */
  function Apply(sel: set<int>, c: Command): (r: set<int>)
    ensures forall i :: i in r <==> (if Covers(c, i) then c.selected else i in sel)
  {
    if c.selected then sel + Interval(c.start, c.end) else sel - Interval(c.start, c.end)
  }

  /** The selection after the commands `cs` are applied in order. */
  function ApplyAll(sel: set<int>, cs: seq<Command>): set<int>
    decreases |cs|
  {
    if cs == [] then sel else Apply(ApplyAll(sel, cs[..|cs| - 1]), cs[|cs| - 1])
  }

  lemma ApplyAllSnoc(sel: set<int>, cs: seq<Command>, c: Command)
    ensures ApplyAll(sel, cs + [c]) == Apply(ApplyAll(sel, cs), c)
  {
    assert (cs + [c])[..|cs|] == cs;
  }

  /** Applying `a` and then `b` is applying `a + b`. */
  lemma {:induction false} ApplyAllAppend(sel: set<int>, a: seq<Command>, b: seq<Command>)
    ensures ApplyAll(sel, a + b) == ApplyAll(ApplyAll(sel, a), b)
    decreases |b|
  {
    if b == [] {
      assert a + b == a;
    } else {
      var init := b[..|b| - 1];
      ApplyAllAppend(sel, a, init);
      assert (a + b)[..|a + b| - 1] == a + init;
      assert (a + b)[|a + b| - 1] == b[|b| - 1];
    }
  }

  lemma AppendAssoc<T>(a: seq<T>, b: seq<T>, c: seq<T>)
    ensures (a + b) + c == a + (b + c)
  {
  }

  /** An index that no command covers keeps its state. */
  lemma {:induction false} ApplyAllUntouched(sel: set<int>, cs: seq<Command>, i: int)
    requires forall c :: c in cs ==> !Covers(c, i)
    ensures i in ApplyAll(sel, cs) <==> i in sel
  {
    if cs != [] {
      var init := cs[..|cs| - 1];
      assert cs == init + [cs[|cs| - 1]];
      ApplyAllUntouched(sel, init, i);
    }
  }

  /** An index that some command covers, where every covering command agrees
      on the state `b`, ends in state `b`, whatever it was before. */
  lemma {:induction false} ApplyAllUniform(sel: set<int>, cs: seq<Command>, i: int, b: bool)
    requires exists c :: c in cs && Covers(c, i)
    requires forall c :: c in cs && Covers(c, i) ==> c.selected == b
    ensures i in ApplyAll(sel, cs) <==> b
  {
    var last := cs[|cs| - 1];
    var init := cs[..|cs| - 1];
    assert cs == init + [last];
    if !Covers(last, i) {
      var c :| c in cs && Covers(c, i);
      assert c in init;
      ApplyAllUniform(sel, init, i, b);
    }
  }

  /** The listener object: `isSelected` reads the selection and
      `onSetSelect` updates it in place and is recorded in `log`. */
  class SelectListener {
    var selected: set<int>
    var log: seq<Command>

    constructor (initial: set<int>)
      ensures selected == initial && log == []
    {
      selected := initial;
      log := [];
    }

    method IsSelected(position: int) returns (b: bool)
      ensures b <==> position in selected
    {
      b := position in selected;
    }

    method OnSetSelect(start: int, end: int, isSelected: bool)
      modifies this
      ensures selected == Apply(old(selected), SetSelect(start, end, isSelected))
      ensures log == old(log) + [SetSelect(start, end, isSelected)]
    {
      selected := Apply(selected, SetSelect(start, end, isSelected));
      log := log + [SetSelect(start, end, isSelected)];
    }
  }
}
