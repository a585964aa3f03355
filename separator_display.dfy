/** `SeparatorDisplay` (wled00/7segmdisp.cpp:244-354): a table of LEDs
    replaced wholesale by `map` and scanned front to back by every lookup.
    Every method is proved against the functions of SeparatorSpec. */
module Separator {
  import opened Common
  import opened SeparatorSpec

  class SeparatorDisplay {
    /** `_mappings[0.._ledCount-1]`, `_state`, `_mode`. */
    var mappings: seq<Mapping>
    var state: bool
    var mode: Mode

    ghost predicate Valid()
      reads this
    {
      |mappings| < 256
    }

    /** The display's state as a value. */
    function State(): (s: SeparatorState)
      reads this
      ensures Valid() ==> s.Valid()
    {
      SeparatorState(mappings, state, mode)
    }

    /** An empty table, off, in the render-everything mode. */
    constructor ()
      ensures Valid() && mappings == [] && !state && mode == AllLeds
    {
      mappings := [];
      state := false;
      mode := AllLeds;
    }

    /** `rowCount`: scan for the largest row, starting from the first
        entry's, and add one. */
    method RowCount() returns (r: nat)
      requires Valid() && |mappings| > 0
      ensures r == SeparatorSpec.RowCount(State())
    {
      var rows := Rows(mappings);
      var max := mappings[0].row as nat;
      var i := 1;
      assert rows[..1] == [rows[0]];
      while i < |mappings|
        invariant 1 <= i <= |mappings|
        invariant max == MaxOf(rows[..i])
      {
        assert rows[..i + 1][..i] == rows[..i];
        if mappings[i].row as nat > max {
          max := mappings[i].row as nat;
        }
        i := i + 1;
      }
      assert rows[..i] == rows;
      r := max + 1;
    }

    /** `columnCount`: scan for the largest column and add one. */
    method ColumnCount() returns (c: nat)
      requires Valid() && |mappings| > 0
      ensures c == SeparatorSpec.ColumnCount(State())
    {
      var cols := Columns(mappings);
      var max := mappings[0].col as nat;
      var i := 1;
      assert cols[..1] == [cols[0]];
      while i < |mappings|
        invariant 1 <= i <= |mappings|
        invariant max == MaxOf(cols[..i])
      {
        assert cols[..i + 1][..i] == cols[..i];
        if mappings[i].col as nat > max {
          max := mappings[i].col as nat;
        }
        i := i + 1;
      }
      assert cols[..i] == cols;
      c := max + 1;
    }

    /** `indexOfCoords`: the index of the first entry at the cell. */
    method IndexOfCoords(row: nat, col: nat) returns (r: Option<byte>)
      requires Valid()
      ensures r == SeparatorSpec.IndexOfCoords(State(), row, col)
    {
      var i := 0;
      while i < |mappings|
        invariant i <= |mappings|
        invariant forall j :: 0 <= j < i ==> !AtCell(row, col)(mappings[j])
      {
        if mappings[i].row as nat == row && mappings[i].col as nat == col {
          FirstWhereAt(mappings, AtCell(row, col), i);
          return Some(mappings[i].index);
        }
        i := i + 1;
      }
      r := None;
    }

    /** `coordsOfIndex`: the cell of the first entry with the index. */
    method CoordsOfIndex(index: nat) returns (c: Coords)
      requires Valid()
      ensures c == SeparatorSpec.CoordsOfIndex(State(), index)
    {
      var i := 0;
      while i < |mappings|
        invariant i <= |mappings|
        invariant forall j :: 0 <= j < i ==> !HasIndex(index)(mappings[j])
      {
        if mappings[i].index as nat == index {
          FirstWhereAt(mappings, HasIndex(index), i);
          return At(mappings[i].row as nat, mappings[i].col as nat);
        }
        i := i + 1;
      }
      c := Invalid;
    }

    /** `getLedColor`: the colour of the first entry at the cell, or the
        default. */
    method GetLedColor(row: nat, col: nat, st: bool) returns (color: Rgb)
      requires Valid()
      ensures color == LedColor(State(), row, col, st)
    {
      var i := 0;
      while i < |mappings|
        invariant i <= |mappings|
        invariant forall j :: 0 <= j < i ==> !AtCell(row, col)(mappings[j])
      {
        if mappings[i].row as nat == row && mappings[i].col as nat == col {
          FirstWhereAt(mappings, AtCell(row, col), i);
          if st {
            return mappings[i].onColor;
          } else {
            return mappings[i].offColor;
          }
        }
        i := i + 1;
      }
      color := Dummy;
    }

    /** `setLedColor`: recolour every entry at the cell; the scan does not
        stop at the first one. */
    method SetLedColor(row: nat, col: nat, st: bool, color: Rgb)
      requires Valid()
      modifies this
      ensures State() == WithLedColor(old(State()), row, col, st, color)
    {
      var i := 0;
      while i < |mappings|
        invariant |mappings| == |old(mappings)| && i <= |mappings|
        invariant state == old(state) && mode == old(mode)
        invariant forall j :: 0 <= j < i ==> mappings[j] == Recolor(old(mappings)[j], row, col, st, color)
        invariant forall j :: i <= j < |mappings| ==> mappings[j] == old(mappings)[j]
      {
        if mappings[i].row as nat == row && mappings[i].col as nat == col {
          if st {
            mappings := mappings[i := mappings[i].(onColor := color)];
          } else {
            mappings := mappings[i := mappings[i].(offColor := color)];
          }
        }
        i := i + 1;
      }
      assert mappings == WithLedColor(old(State()), row, col, st, color).mappings;
    }

    /** `update`: push every entry in table order while the mode lets the
        current state through. */
    method Update() returns (emits: seq<Emit>)
      requires Valid()
      ensures emits == Render(State())
    {
      emits := [];
      var i := 0;
      while i < |mappings|
        invariant i <= |mappings|
        invariant emits == (if Gate(mode, state) then Render(State())[..i] else [])
      {
        if Gate(mode, state) {
          var c := if state then mappings[i].onColor else mappings[i].offColor;
          emits := emits + [Emit(mappings[i].index, c)];
        }
        i := i + 1;
      }
    }

    method SetMode(m: Mode)
      modifies this
      ensures State() == old(State()).(mode := m)
    {
      mode := m;
    }

    /** `map`: replace the whole table by freshly allocated entries holding
        the given (row, column, index) triples in order. The colours of the
        new entries are not initialised. */
    method Map(triples: seq<(int, int, int)>)
      requires |triples| < 256
      modifies this
      ensures Valid() && MappedFrom(mappings, triples)
      ensures state == old(state) && mode == old(mode)
    {
      var table := new Mapping[|triples|];
      var i := 0;
      while i < |triples|
        invariant i <= |triples|
        invariant state == old(state) && mode == old(mode)
        invariant forall j :: 0 <= j < i ==>
          table[j].row == Low8(triples[j].0) &&
          table[j].col == Low8(triples[j].1) &&
          table[j].index == Low8(triples[j].2)
      {
        table[i] := table[i].(row := Low8(triples[i].0), col := Low8(triples[i].1),
                              index := Low8(triples[i].2));
        i := i + 1;
      }
      mappings := table[..];
    }

    method SetState(s: bool)
      modifies this
      ensures State() == old(State()).(state := s)
    {
      state := s;
    }
  }
}
