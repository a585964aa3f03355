/** `LedBasedDisplay` (wled00/7segmdisp.cpp:5-23): any display, seen
    through its virtual calls, and the three fill helpers every display
    inherits. Each helper asks the display for its extents once (`setColor`
    asks for the column count again for every row) and then calls
    `setLedColor` cell by cell; each is proved against `DisplaySpec.Fill`
    on the list of cells it visits, and the effect of that list is stated
    outright. */
module LedDisplay {
  import opened Common
  import opened DisplaySpec
  import opened FillOrder
  import RowDisplay

  /** A display: a child kind on its own, or a row of them. */
  datatype Display =
    | LeafDisplay(leaf: RowDisplay.Leaf)
    | RowOfDisplays(row: RowDisplay.LedBasedRowDisplay)
  {
    ghost function Footprint(): set<object>
    {
      match this
      case LeafDisplay(l) => l.Footprint()
      case RowOfDisplays(d) => d.Repr
    }

    ghost predicate Valid()
      reads Footprint()
    {
      match this
      case LeafDisplay(l) => l.Valid()
      case RowOfDisplays(d) => d.Valid()
    }

    ghost function State(): (s: DisplayState)
      reads Footprint()
      requires Valid()
      ensures s.Ready()
    {
      match this
      case LeafDisplay(l) => LeafView(l.State())
      case RowOfDisplays(d) => RowView(d.States())
    }

    method RowCount() returns (r: nat)
      requires Valid()
      ensures Valid() && State() == old(State())
      ensures r == State().RowCount()
    {
      match this
      case LeafDisplay(l) => r := l.RowCount();
      case RowOfDisplays(d) => r := d.RowCount();
    }

    method ColumnCount() returns (c: nat)
      requires Valid()
      ensures Valid() && State() == old(State())
      ensures c == State().ColumnCount()
    {
      match this
      case LeafDisplay(l) => c := l.ColumnCount();
      case RowOfDisplays(d) => c := d.ColumnCount();
    }

    method SetLedColor(row: nat, col: nat, state: bool, color: Rgb)
      requires Valid()
      modifies Footprint()
      ensures Valid() && State() == old(State()).WithLedColor(row, col, state, color)
    {
      match this
      case LeafDisplay(l) => l.SetLedColor(row, col, state, color);
      case RowOfDisplays(d) => d.SetLedColor(row, col, state, color);
    }

    /** `setRowColor(row, state, color)`: the column count, then every
        column of `row` in turn. */
    method SetRowColor(row: nat, state: bool, color: Rgb)
      requires Valid()
      modifies Footprint()
      ensures Valid()
      ensures State() == Fill(old(State()), RowCells(row, old(State()).ColumnCount()), state, color)
    {
      var n := ColumnCount();
      WriteRow(row, n, state, color);
    }

    /** `setColumnColor(col, state, color)`: the row count, then every row
        of `col` in turn. */
    method SetColumnColor(col: nat, state: bool, color: Rgb)
      requires Valid()
      modifies Footprint()
      ensures Valid()
      ensures State() == Fill(old(State()), ColumnCells(col, old(State()).RowCount()), state, color)
    {
      var n := RowCount();
      WriteColumn(col, n, state, color);
    }

    /** `setColor(state, color)`: the row count, then every row in turn,
        each with its column count asked again. */
    method SetColor(state: bool, color: Rgb)
      requires Valid()
      modifies Footprint()
      ensures Valid()
      ensures State() == Fill(old(State()), GridCells(old(State()).RowCount(), old(State()).ColumnCount()), state, color)
    {
      ghost var s0 := State();
      ghost var width := s0.ColumnCount();
      var rn := RowCount();
      var r := 0;
      while r < rn
        invariant r <= rn && Valid()
        invariant State() == Fill(s0, GridCells(r, width), state, color)
      {
        WriteNextRow(s0, r, width, state, color);
        r := r + 1;
      }
    }

    /** One pass of the outer loop of `setColor`: the column count is
        still the initial one, so row `r` is written across the full width
        after the rows above it. */
    method WriteNextRow(ghost s0: DisplayState, r: nat, ghost width: nat, state: bool, color: Rgb)
      requires Valid() && s0.Ready() && width == s0.ColumnCount()
      requires State() == Fill(s0, GridCells(r, width), state, color)
      modifies Footprint()
      ensures Valid() && State() == Fill(s0, GridCells(r + 1, width), state, color)
    {
      SameLayoutShape(s0, State(), 0, 0);
      var cn := ColumnCount();
      WriteRow(r, cn, state, color);
      FillConcat(s0, GridCells(r, width), RowCells(r, width), state, color);
    }

    /** The loop of `setRowColor`, and the inner loop of `setColor`:
        columns `0` to `n - 1` of `row`, left to right. */
    method WriteRow(row: nat, n: nat, state: bool, color: Rgb)
      requires Valid()
      modifies Footprint()
      ensures Valid() && State() == Fill(old(State()), RowCells(row, n), state, color)
    {
      ghost var s0 := State();
      var c := 0;
      while c < n
        invariant c <= n && Valid()
        invariant State() == Fill(s0, RowCells(row, c), state, color)
      {
        WriteNext(s0, RowCells(row, c), RowCells(row, c + 1), row, c, state, color);
        c := c + 1;
      }
    }

    /** The loop of `setColumnColor`: rows `0` to `n - 1` of `col`, top to
        bottom. */
    method WriteColumn(col: nat, n: nat, state: bool, color: Rgb)
      requires Valid()
      modifies Footprint()
      ensures Valid() && State() == Fill(old(State()), ColumnCells(col, n), state, color)
    {
      ghost var s0 := State();
      var r := 0;
      while r < n
        invariant r <= n && Valid()
        invariant State() == Fill(s0, ColumnCells(col, r), state, color)
      {
        WriteNext(s0, ColumnCells(col, r), ColumnCells(col, r + 1), r, col, state, color);
        r := r + 1;
      }
    }

    /** One step of a fill: `setLedColor` on one more cell after the cells
        already written. */
    method WriteNext(ghost s0: DisplayState, ghost cells: seq<(nat, nat)>, ghost next: seq<(nat, nat)>,
                     row: nat, col: nat, state: bool, color: Rgb)
      requires Valid() && s0.Ready() && State() == Fill(s0, cells, state, color)
      requires next == cells + [(row, col)]
      modifies Footprint()
      ensures Valid() && State() == Fill(s0, next, state, color)
    {
      SetLedColor(row, col, state, color);
      FillAppend(s0, cells, row, col, state, color);
    }
  }
}
