/** `LedBasedRowDisplay` (wled00/7segmdisp.cpp:356-453): a fixed row of
    child displays that every operation visits with a loop, carrying the
    rebased column or the column shift from child to child. Every method
    is proved against the functions of RowSpec. */
module RowDisplay {
  import opened Common
  import SegmentGeometry
  import SegmentSpec
  import SeparatorSpec
  import opened RowSpec
  import opened SevenSegment
  import opened Separator

  /** A child display: the virtual calls of `LedBasedDisplay` dispatched
      on the kind of child. */
  datatype Leaf =
    | SegmentLeaf(segment: SevenSegmentDisplay)
    | SeparatorLeaf(separator: SeparatorDisplay)
  {
    /** The objects the child owns. */
    function Footprint(): set<object>
    {
      match this
      case SegmentLeaf(d) => {d, d.indices, d.onColors, d.offColors}
      case SeparatorLeaf(d) => {d}
    }

    ghost predicate Valid()
      reads Footprint()
    {
      match this
      case SegmentLeaf(d) => d.Valid()
      case SeparatorLeaf(d) => d.Valid() && |d.mappings| > 0
    }

    ghost function State(): (s: LeafState)
      reads Footprint()
      ensures Valid() ==> s.Ready()
    {
      match this
      case SegmentLeaf(d) => SegmentLeafState(d.State())
      case SeparatorLeaf(d) => SeparatorLeafState(d.State())
    }

    method RowCount() returns (r: nat)
      requires Valid()
      ensures r == State().RowCount()
    {
      match this
      case SegmentLeaf(d) => r := d.RowCount();
      case SeparatorLeaf(d) => r := d.RowCount();
    }

    method ColumnCount() returns (c: nat)
      requires Valid()
      ensures c == State().ColumnCount()
    {
      match this
      case SegmentLeaf(d) => c := d.ColumnCount();
      case SeparatorLeaf(d) => c := d.ColumnCount();
    }

    method IndexOfCoords(row: nat, col: nat) returns (r: Option<byte>)
      requires Valid()
      ensures r == State().IndexOfCoords(row, col)
    {
      match this
      case SegmentLeaf(d) => r := d.IndexOfCoords(row, col);
      case SeparatorLeaf(d) => r := d.IndexOfCoords(row, col);
    }

    method CoordsOfIndex(index: nat) returns (c: Coords)
      requires Valid()
      ensures c == State().CoordsOfIndex(index)
    {
      match this
      case SegmentLeaf(d) => c := d.CoordsOfIndex(index);
      case SeparatorLeaf(d) => c := d.CoordsOfIndex(index);
    }

    method GetLedColor(row: nat, col: nat, state: bool) returns (color: Rgb)
      requires Valid()
      ensures color == State().LedColor(row, col, state)
    {
      match this
      case SegmentLeaf(d) => color := d.GetLedColor(row, col, state);
      case SeparatorLeaf(d) => color := d.GetLedColor(row, col, state);
    }

    method SetLedColor(row: nat, col: nat, state: bool, color: Rgb)
      requires Valid()
      modifies Footprint()
      ensures Valid() && State() == old(State()).WithLedColor(row, col, state, color)
    {
      match this
      case SegmentLeaf(d) => d.SetLedColor(row, col, state, color);
      case SeparatorLeaf(d) => d.SetLedColor(row, col, state, color);
    }

    method Update() returns (emits: seq<Emit>)
      requires Valid()
      ensures emits == State().Render()
    {
      match this
      case SegmentLeaf(d) => emits := d.Update();
      case SeparatorLeaf(d) => emits := d.Update();
    }

    method SetMode(m: Mode)
      requires Valid()
      modifies Footprint()
      ensures Valid() && State() == old(State()).WithMode(m)
    {
      match this
      case SegmentLeaf(d) => d.SetMode(m);
      case SeparatorLeaf(d) => d.SetMode(m);
    }
  }

  class LedBasedRowDisplay {
    /** `_displays[0.._displayCount-1]`, fixed at construction. */
    const displays: seq<Leaf>
    /** Every object the children own. */
    ghost const Repr: set<object>

    /** Every child is usable and no two children share an object. */
    ghost predicate Valid()
      reads Repr
    {
      (forall i :: 0 <= i < |displays| ==> displays[i].Footprint() <= Repr) &&
      (forall i :: 0 <= i < |displays| ==> displays[i].Valid()) &&
      (forall i, j :: 0 <= i < j < |displays| ==> displays[i].Footprint() !! displays[j].Footprint())
    }

    /** The children's states, in order. */
    ghost function States(): (ls: seq<LeafState>)
      reads Repr
      requires Valid()
      ensures |ls| == |displays| && AllReady(ls)
      ensures forall i :: 0 <= i < |displays| ==> ls[i] == displays[i].State()
    {
      seq(|displays|, i reads Repr requires 0 <= i < |displays| && Valid() => displays[i].State())
    }

    constructor (children: seq<Leaf>)
      requires forall i :: 0 <= i < |children| ==> children[i].Valid()
      requires forall i, j :: 0 <= i < j < |children| ==> children[i].Footprint() !! children[j].Footprint()
      ensures Valid() && displays == children
    {
      displays := children;
      Repr := set i, o | 0 <= i < |children| && o in children[i].Footprint() :: o;
    }

    /** `rowCount`: the largest child row count, starting from 0. */
    method RowCount() returns (r: nat)
      requires Valid()
      ensures r == RowSpec.RowCount(States())
    {
      ghost var ls := States();
      r := 0;
      var i := 0;
      while i < |displays|
        invariant i <= |displays| && AllReady(ls[..i])
        invariant r == RowSpec.RowCount(ls[..i])
      {
        var cr := displays[i].RowCount();
        RowCountNext(ls, i);
        r := if r < cr then cr else r;
        i := i + 1;
      }
      assert ls[..i] == ls;
    }

    /** `columnCount`: the children's column counts added up. */
    method ColumnCount() returns (c: nat)
      requires Valid()
      ensures c == RowSpec.ColumnCount(States())
    {
      ghost var ws := Widths(States());
      c := 0;
      var i := 0;
      assert ws[..0] == [];
      while i < |displays|
        invariant i <= |displays|
        invariant c == Offset(ws, i)
      {
        var cc := displays[i].ColumnCount();
        OffsetNext(ws, i);
        c := c + cc;
        i := i + 1;
      }
      OffsetAll(ws);
    }

    /** `indexOfCoords`: walk the children, rebasing the column past each
        child that ends before it, and ask the first child that does not. */
    method IndexOfCoords(row: nat, col: nat) returns (r: Option<byte>)
      requires Valid()
      ensures r == RowSpec.IndexOfCoords(States(), row, col)
    {
      ghost var ls := States();
      ghost var ws := Widths(ls);
      var c := col;
      var i := 0;
      assert ws[..0] == [];
      while i < |displays|
        invariant i <= |displays|
        invariant col == Offset(ws, i) + c
      {
        var cc := displays[i].ColumnCount();
        if cc as int - 1 < c {
          OffsetNext(ws, i);
          c := c - cc;
        } else {
          OwnedBy(ls, i, col, c, row, false, Dummy);
          r := displays[i].IndexOfCoords(row, c);
          return;
        }
        i := i + 1;
      }
      OwnedByNone(ls, col, c, row, false, Dummy);
      r := None;
    }

    /** `getLedColor`: the same walk, asking the owning child for the
        colour. */
    method GetLedColor(row: nat, col: nat, state: bool) returns (color: Rgb)
      requires Valid()
      ensures color == RowSpec.LedColor(States(), row, col, state)
    {
      ghost var ls := States();
      ghost var ws := Widths(ls);
      var c := col;
      var i := 0;
      assert ws[..0] == [];
      while i < |displays|
        invariant i <= |displays|
        invariant col == Offset(ws, i) + c
      {
        var cc := displays[i].ColumnCount();
        if cc as int - 1 < c {
          OffsetNext(ws, i);
          c := c - cc;
        } else {
          OwnedBy(ls, i, col, c, row, state, Dummy);
          color := displays[i].GetLedColor(row, c, state);
          return;
        }
        i := i + 1;
      }
      OwnedByNone(ls, col, c, row, state, Dummy);
      color := Dummy;
    }

    /** `setLedColor`: the same walk, writing through the owning child; a
        column past the last child changes nothing. */
    method SetLedColor(row: nat, col: nat, state: bool, color: Rgb)
      requires Valid()
      modifies Repr
      ensures Valid() && States() == RowSpec.WithLedColor(old(States()), row, col, state, color)
    {
      ghost var ls := States();
      ghost var ws := Widths(ls);
      var c := col;
      var i := 0;
      assert ws[..0] == [];
      while i < |displays|
        invariant i <= |displays| && unchanged(Repr)
        invariant col == Offset(ws, i) + c
      {
        var cc := displays[i].ColumnCount();
        if cc as int - 1 < c {
          OffsetNext(ws, i);
          c := c - cc;
        } else {
          OwnedBy(ls, i, col, c, row, state, color);
          WriteChild(i, row, c, state, color);
          return;
        }
        i := i + 1;
      }
      OwnedByNone(ls, col, c, row, state, color);
    }

    /** Write one cell of child `i`; the other children keep their state. */
    method WriteChild(i: nat, row: nat, col: nat, state: bool, color: Rgb)
      requires Valid() && i < |displays|
      modifies Repr
      ensures Valid()
      ensures States() == old(States())[i := old(States())[i].WithLedColor(row, col, state, color)]
    {
      displays[i].SetLedColor(row, col, state, color);
      forall j | 0 <= j < |displays| && j != i
        ensures displays[j].State() == old(displays[j].State()) && displays[j].Valid()
      {
        assert displays[i].Footprint() !! displays[j].Footprint();
      }
    }

    /** `coordsOfIndex`: ask each child in turn, adding up the widths of
        the children that do not know the index; shift the first hit. */
    method CoordsOfIndex(index: nat) returns (c: Coords)
      requires Valid()
      ensures c == RowSpec.CoordsOfIndex(States(), index)
    {
      ghost var ls := States();
      var shift := 0;
      var i := 0;
      assert ls[0..] == ls;
      while i < |displays|
        invariant i <= |displays| && AllReady(ls[i..])
        invariant RowSpec.CoordsOfIndex(ls, index) == Shift(RowSpec.CoordsOfIndex(ls[i..], index), shift)
      {
        var coords := displays[i].CoordsOfIndex(index);
        if coords.At? {
          CoordsOfIndexOwner(ls, index, i);
          return At(coords.row, coords.col + shift);
        }
        var cc := displays[i].ColumnCount();
        SearchPast(ls, index, i, shift);
        shift := shift + cc;
        i := i + 1;
      }
      c := Invalid;
    }

    /** `update`: every child's `update`, in order. */
    method Update() returns (emits: seq<Emit>)
      requires Valid()
      ensures emits == RowSpec.Render(States())
    {
      ghost var ls := States();
      emits := [];
      var i := 0;
      while i < |displays|
        invariant i <= |displays| && AllReady(ls[..i])
        invariant emits == RowSpec.Render(ls[..i])
      {
        var e := displays[i].Update();
        assert ls[..i + 1][..i] == ls[..i];
        emits := emits + e;
        i := i + 1;
      }
      assert ls[..i] == ls;
    }

    /** `setMode`: every child's `setMode`, in order. */
    method SetMode(m: Mode)
      requires Valid()
      modifies Repr
      ensures Valid() && States() == RowSpec.WithMode(old(States()), m)
    {
      ghost var ls := States();
      var i := 0;
      while i < |displays|
        invariant i <= |displays| && Valid()
        invariant forall j :: 0 <= j < i ==> displays[j].State() == ls[j].WithMode(m)
        invariant forall j :: i <= j < |displays| ==> displays[j].State() == ls[j]
      {
        SetChildMode(i, m);
        i := i + 1;
      }
    }

    /** Switch child `i` to a mode; the other children keep their state. */
    method SetChildMode(i: nat, m: Mode)
      requires Valid() && i < |displays|
      modifies Repr
      ensures Valid()
      ensures States() == old(States())[i := old(States())[i].WithMode(m)]
    {
      displays[i].SetMode(m);
      forall j | 0 <= j < |displays| && j != i
        ensures displays[j].State() == old(displays[j].State()) && displays[j].Valid()
      {
        assert displays[i].Footprint() !! displays[j].Footprint();
      }
    }
  }
}
