/** The fill helpers every `LedBasedDisplay` inherits (wled00/7segmdisp.cpp:5-23),
    as values: writing one colour into every cell of a row, of a column or
    of the whole grid, one `setLedColor` at a time, for any kind of
    display. */
module DisplaySpec {
  import opened Common
  import SegmentGeometry
  import SegmentSpec
  import SeparatorSpec
  import RowSpec
  import opened FillOrder

  /** The state of any display: a seven-segment glyph or a separator on
      its own, or a row of them. */
  datatype DisplayState =
    | LeafView(leaf: RowSpec.LeafState)
    | RowView(children: seq<RowSpec.LeafState>)
  {
    predicate Ready()
    {
      match this
      case LeafView(l) => l.Ready()
      case RowView(ls) => RowSpec.AllReady(ls)
    }

    function RowCount(): nat
      requires Ready()
    {
      match this
      case LeafView(l) => l.RowCount()
      case RowView(ls) => RowSpec.RowCount(ls)
    }

    function ColumnCount(): nat
      requires Ready()
    {
      match this
      case LeafView(l) => l.ColumnCount()
      case RowView(ls) => RowSpec.ColumnCount(ls)
    }

    /** Whether a cell has an LED: `indexOfCoords` finds an index. */
    predicate Defined(row: nat, col: nat)
      requires Ready()
    {
      match this
      case LeafView(l) => l.IndexOfCoords(row, col).Some?
      case RowView(ls) => RowSpec.IndexOfCoords(ls, row, col).Some?
    }

    function LedColor(row: nat, col: nat, state: bool): Rgb
      requires Ready()
    {
      match this
      case LeafView(l) => l.LedColor(row, col, state)
      case RowView(ls) => RowSpec.LedColor(ls, row, col, state)
    }

    function WithLedColor(row: nat, col: nat, state: bool, color: Rgb): (t: DisplayState)
      requires Ready()
      ensures t.Ready() && SameLayout(t)
    {
      match this
      case LeafView(l) => LeafView(l.WithLedColor(row, col, state, color))
      case RowView(ls) => RowView(RowSpec.WithLedColor(ls, row, col, state, color))
    }

    /** Same kind and layout; only colours may differ. */
    predicate SameLayout(t: DisplayState)
    {
      match (this, t)
      case (LeafView(l), LeafView(l')) => l.SameLayout(l')
      case (RowView(ls), RowView(ls')) => RowSpec.SameLayout(ls, ls')
      case _ => false
    }
  }

  // ---------------------------------------------------------------------
  // Layout

  lemma LeafSameLayoutTrans(a: RowSpec.LeafState, b: RowSpec.LeafState, c: RowSpec.LeafState)
    requires a.SameLayout(b) && b.SameLayout(c)
    ensures a.SameLayout(c)
  {
  }

  /** A layout is kept through any chain of colour-only changes. */
  lemma SameLayoutTrans(a: DisplayState, b: DisplayState, c: DisplayState)
    requires a.SameLayout(b) && b.SameLayout(c)
    ensures a.SameLayout(c)
  {
    match a
    case LeafView(l) => LeafSameLayoutTrans(l, b.leaf, c.leaf);
    case RowView(ls) =>
      forall i | 0 <= i < |ls|
        ensures ls[i].SameLayout(c.children[i])
      {
        LeafSameLayoutTrans(ls[i], b.children[i], c.children[i]);
      }
  }

  /** A colour-only change keeps the extents and the cells that have an
      LED. */
  lemma SameLayoutShape(d: DisplayState, t: DisplayState, row: nat, col: nat)
    requires d.Ready() && t.Ready() && d.SameLayout(t)
    ensures t.RowCount() == d.RowCount() && t.ColumnCount() == d.ColumnCount()
    ensures t.Defined(row, col) == d.Defined(row, col)
  {
    match d
    case LeafView(l) => RowSpec.LeafSameLayout(l, t.leaf, row, col);
    case RowView(ls) => RowSpec.SameLayoutLookups(ls, t.children, row, col);
  }

  /** A cell with an LED lies inside the extents. */
  lemma DefinedInExtents(d: DisplayState, row: nat, col: nat)
    requires d.Ready() && d.Defined(row, col)
    ensures row < d.RowCount() && col < d.ColumnCount()
  {
    match d
    case LeafView(l) => RowSpec.LeafDefinedInExtents(l, row, col);
    case RowView(ls) => RowSpec.DefinedInExtents(ls, row, col);
  }

  /** Reading back after one write, for any display. */
  lemma LedColorAfterSet(d: DisplayState, row: nat, col: nat, state: bool, color: Rgb,
                         r: nat, c: nat, st: bool)
    requires d.Ready()
    ensures d.WithLedColor(row, col, state, color).LedColor(r, c, st) ==
      if r == row && c == col && st == state && d.Defined(row, col) then color
      else d.LedColor(r, c, st)
  {
    match d
    case LeafView(l) => RowSpec.LeafLedColorAfterSet(l, row, col, state, color, r, c, st);
    case RowView(ls) => RowSpec.LedColorAfterSet(ls, row, col, state, color, r, c, st);
  }

  lemma SameLayoutRefl(d: DisplayState)
    ensures d.SameLayout(d)
  {
    match d
    case LeafView(l) =>
    case RowView(ls) =>
      forall i | 0 <= i < |ls|
        ensures ls[i].SameLayout(ls[i])
      {
      }
  }

  // ---------------------------------------------------------------------
  // The fills: `setLedColor` on a list of cells, in order

  /** `setLedColor(row, col, state, color)` on each cell of `cells`, in
      order. */
  function Fill(d: DisplayState, cells: seq<(nat, nat)>, state: bool, color: Rgb): (t: DisplayState)
    requires d.Ready()
    ensures t.Ready() && d.SameLayout(t)
  {
    if cells == [] then
      assert d.SameLayout(d) by { SameLayoutRefl(d); }
      d
    else
      var last := cells[|cells| - 1];
      var prev := Fill(d, cells[..|cells| - 1], state, color);
      var t := prev.WithLedColor(last.0, last.1, state, color);
      SameLayoutTrans(d, prev, t);
      t
  }

  /** Writing one more cell after a list of them. */
  lemma FillAppend(d: DisplayState, cells: seq<(nat, nat)>, row: nat, col: nat, state: bool, color: Rgb)
    requires d.Ready()
    ensures Fill(d, cells + [(row, col)], state, color) ==
      Fill(d, cells, state, color).WithLedColor(row, col, state, color)
  {
    assert (cells + [(row, col)])[..|cells|] == cells;
  }

  /** Writing one list of cells and then another is writing the two lists
      joined. */
  lemma {:induction false} FillConcat(d: DisplayState, a: seq<(nat, nat)>, b: seq<(nat, nat)>,
                                      state: bool, color: Rgb)
    requires d.Ready()
    ensures Fill(Fill(d, a, state, color), b, state, color) == Fill(d, a + b, state, color)
    decreases |b|, 1
  {
    if b == [] {
      assert a + b == a;
    } else {
      FillConcatNext(d, a, b, state, color);
    }
  }

  /** The step of `FillConcat`: peel the last cell off the second list. */
  lemma {:induction false} FillConcatNext(d: DisplayState, a: seq<(nat, nat)>, b: seq<(nat, nat)>,
                                          state: bool, color: Rgb)
    requires d.Ready() && b != []
    ensures Fill(Fill(d, a, state, color), b, state, color) == Fill(d, a + b, state, color)
    decreases |b|, 0
  {
    var init, last := b[..|b| - 1], b[|b| - 1];
    assert b == init + [last];
    FillAppend(Fill(d, a, state, color), init, last.0, last.1, state, color);
    FillConcat(d, a, init, state, color);
    assert a + b == (a + init) + [last];
    FillAppend(d, a + init, last.0, last.1, state, color);
  }

  /** After the writes to `cells`, the cells among them that have an LED
      read `color` in `state`; every other cell and state reads as before. */
  lemma {:induction false} FillEffect(d: DisplayState, cells: seq<(nat, nat)>, state: bool, color: Rgb,
                                      r: nat, c: nat, st: bool)
    requires d.Ready()
    ensures Fill(d, cells, state, color).LedColor(r, c, st) ==
      if (r, c) in cells && st == state && d.Defined(r, c) then color else d.LedColor(r, c, st)
    decreases |cells|, 1
  {
    if cells != [] {
      FillEffectNext(d, cells, state, color, r, c, st);
    }
  }

  /** The inductive case of `FillEffect`. */
  lemma {:induction false} FillEffectNext(d: DisplayState, cells: seq<(nat, nat)>, state: bool, color: Rgb,
                                          r: nat, c: nat, st: bool)
    requires d.Ready() && cells != []
    ensures Fill(d, cells, state, color).LedColor(r, c, st) ==
      if (r, c) in cells && st == state && d.Defined(r, c) then color else d.LedColor(r, c, st)
    decreases |cells|, 0
  {
    var init, last := cells[..|cells| - 1], cells[|cells| - 1];
    assert cells == init + [last];
    FillEffect(d, init, state, color, r, c, st);
    FillStep(d, init, last.0, last.1, state, color, r, c, st);
  }

  /** One write: the written part grows by the cell `(row, col)`. */
  lemma FillStep(d: DisplayState, cells: seq<(nat, nat)>, row: nat, col: nat, state: bool, color: Rgb,
                 r: nat, c: nat, st: bool)
    requires d.Ready()
    requires Fill(d, cells, state, color).LedColor(r, c, st) ==
      if (r, c) in cells && st == state && d.Defined(r, c) then color else d.LedColor(r, c, st)
    ensures Fill(d, cells + [(row, col)], state, color).LedColor(r, c, st) ==
      if (r, c) in cells + [(row, col)] && st == state && d.Defined(r, c) then color else d.LedColor(r, c, st)
  {
    var prev := Fill(d, cells, state, color);
    FillAppend(d, cells, row, col, state, color);
    LedColorAfterSet(prev, row, col, state, color, r, c, st);
    SameLayoutShape(d, prev, row, col);
  }

  /** `setRowColor(row, state, color)`: exactly the cells of `row` that
      have an LED read `color` in `state`; every other cell, and the other
      state, reads as before. */
  lemma RowColorEffect(d: DisplayState, row: nat, state: bool, color: Rgb)
    requires d.Ready()
    ensures forall r: nat, c: nat, st: bool ::
      Fill(d, RowCells(row, d.ColumnCount()), state, color).LedColor(r, c, st) ==
        (if r == row && st == state && d.Defined(r, c) then color else d.LedColor(r, c, st))
  {
    var cells := RowCells(row, d.ColumnCount());
    forall r: nat, c: nat, st: bool
      ensures Fill(d, cells, state, color).LedColor(r, c, st) ==
        (if r == row && st == state && d.Defined(r, c) then color else d.LedColor(r, c, st))
    {
      FillEffect(d, cells, state, color, r, c, st);
      RowCellsIff(row, d.ColumnCount(), r, c);
      if d.Defined(r, c) {
        DefinedInExtents(d, r, c);
      }
    }
  }

  /** `setColumnColor(col, state, color)`: exactly the cells of `col` that
      have an LED read `color` in `state`; every other cell, and the other
      state, reads as before. */
  lemma ColumnColorEffect(d: DisplayState, col: nat, state: bool, color: Rgb)
    requires d.Ready()
    ensures forall r: nat, c: nat, st: bool ::
      Fill(d, ColumnCells(col, d.RowCount()), state, color).LedColor(r, c, st) ==
        (if c == col && st == state && d.Defined(r, c) then color else d.LedColor(r, c, st))
  {
    var cells := ColumnCells(col, d.RowCount());
    forall r: nat, c: nat, st: bool
      ensures Fill(d, cells, state, color).LedColor(r, c, st) ==
        (if c == col && st == state && d.Defined(r, c) then color else d.LedColor(r, c, st))
    {
      FillEffect(d, cells, state, color, r, c, st);
      ColumnCellsIff(col, d.RowCount(), r, c);
      if d.Defined(r, c) {
        DefinedInExtents(d, r, c);
      }
    }
  }

  /** `setColor(state, color)`: every cell that has an LED reads `color` in
      `state`, and the other state is untouched. */
  lemma ColorEffect(d: DisplayState, state: bool, color: Rgb)
    requires d.Ready()
    ensures forall r: nat, c: nat, st: bool ::
      Fill(d, GridCells(d.RowCount(), d.ColumnCount()), state, color).LedColor(r, c, st) ==
        (if st == state && d.Defined(r, c) then color else d.LedColor(r, c, st))
  {
    var cells := GridCells(d.RowCount(), d.ColumnCount());
    forall r: nat, c: nat, st: bool
      ensures Fill(d, cells, state, color).LedColor(r, c, st) ==
        (if st == state && d.Defined(r, c) then color else d.LedColor(r, c, st))
    {
      FillEffect(d, cells, state, color, r, c, st);
      GridCellsIff(d.RowCount(), d.ColumnCount(), r, c);
      if d.Defined(r, c) {
        DefinedInExtents(d, r, c);
      }
    }
  }

  /** `setColor` on a seven-segment display sets every slot of the buffer
      of `state` to `color` and leaves the other buffer as it was. */
  lemma SegmentColorFillsBuffer(s: SegmentSpec.SegmentState, state: bool, color: Rgb)
    requires s.Valid()
    ensures var d := LeafView(RowSpec.SegmentLeafState(s));
      var t := Fill(d, GridCells(d.RowCount(), d.ColumnCount()), state, color);
      t.LeafView? && t.leaf.SegmentLeafState? &&
      (forall k :: 0 <= k < SegmentGeometry.SlotCount(s.n) ==> t.leaf.seg.Buffer(state)[k] == color) &&
      t.leaf.seg.Buffer(!state) == s.Buffer(!state)
  {
    var d := LeafView(RowSpec.SegmentLeafState(s));
    var t := Fill(d, GridCells(d.RowCount(), d.ColumnCount()), state, color);
    var s' := t.leaf.seg;
    ColorEffect(d, state, color);
    forall r: nat, c: nat, st: bool
      ensures SegmentSpec.LedColor(s', r, c, st) ==
        if st == state && SegmentGeometry.InternalIndex(s.n, r, c).Some? then color
        else SegmentSpec.LedColor(s, r, c, st)
    {
      assert t.LedColor(r, c, st) ==
        (if st == state && d.Defined(r, c) then color else d.LedColor(r, c, st));
      assert d.Defined(r, c) == SegmentGeometry.InternalIndex(s.n, r, c).Some?;
    }
    SegmentSpec.FilledGrid(s, s', state, color);
  }
}
