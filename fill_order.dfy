/** The order in which the fill helpers of `LedBasedDisplay`
    (wled00/7segmdisp.cpp:5-23) visit the cells of a display: a row left to
    right, a column top to bottom, the whole grid row after row. */
module FillOrder {
  /** The cells `setRowColor` visits in its first `k` steps. */
  function RowCells(row: nat, k: nat): (cells: seq<(nat, nat)>)
    ensures |cells| == k
  {
    if k == 0 then [] else RowCells(row, k - 1) + [(row, k - 1)]
  }

  /** The cells `setColumnColor` visits in its first `k` steps. */
  function ColumnCells(col: nat, k: nat): (cells: seq<(nat, nat)>)
    ensures |cells| == k
  {
    if k == 0 then [] else ColumnCells(col, k - 1) + [(k - 1, col)]
  }

  /** The cells `setColor` visits in its first `rows` rows of `cols`
      columns each, row after row. */
  function GridCells(rows: nat, cols: nat): seq<(nat, nat)>
  {
    if rows == 0 then [] else GridCells(rows - 1, cols) + RowCells(rows - 1, cols)
  }

  /** The first `k` steps of a row fill visit exactly the cells of `row`
      left of column `k`. */
  lemma {:induction false} RowCellsIff(row: nat, k: nat, r: nat, c: nat)
    ensures (r, c) in RowCells(row, k) <==> r == row && c < k
  {
    if k > 0 {
      RowCellsIff(row, k - 1, r, c);
      InConcat(RowCells(row, k - 1), [(row, k - 1)], (r, c));
    }
  }

  /** The first `k` steps of a column fill visit exactly the cells of
      `col` above row `k`. */
  lemma {:induction false} ColumnCellsIff(col: nat, k: nat, r: nat, c: nat)
    ensures (r, c) in ColumnCells(col, k) <==> c == col && r < k
  {
    if k > 0 {
      ColumnCellsIff(col, k - 1, r, c);
      InConcat(ColumnCells(col, k - 1), [(k - 1, col)], (r, c));
    }
  }

  /** The first `rows` rows of a grid fill visit exactly the cells above
      row `rows` and left of column `cols`. */
  lemma {:induction false} GridCellsIff(rows: nat, cols: nat, r: nat, c: nat)
    ensures (r, c) in GridCells(rows, cols) <==> r < rows && c < cols
    decreases rows, 1
  {
    if rows > 0 {
      GridCellsIffNext(rows, cols, r, c);
    }
  }

  /** The inductive case of `GridCellsIff`: the last row joins the rows
      above it. */
  lemma {:induction false} GridCellsIffNext(rows: nat, cols: nat, r: nat, c: nat)
    requires rows > 0
    ensures (r, c) in GridCells(rows, cols) <==> r < rows && c < cols
    decreases rows, 0
  {
    GridCellsIff(rows - 1, cols, r, c);
    RowCellsIff(rows - 1, cols, r, c);
    InConcat(GridCells(rows - 1, cols), RowCells(rows - 1, cols), (r, c));
  }

  lemma InConcat<T>(a: seq<T>, b: seq<T>, x: T)
    ensures x in a + b <==> x in a || x in b
  {
  }
}
