/** The grid shape of one seven-segment glyph with `n` LEDs per segment:
    `internalIndex`, its inverse (the decode inside `coordsOfIndex`) and the
    extents, as pure arithmetic (wled00/7segmdisp.cpp:44-90, 97-125). */
module SegmentGeometry {
  import opened Common

  /** The segment enumeration A..G, in the order `update` walks it and in
      the order of the bits of a glyph mask. */
  const SegA: nat := 0
  const SegB: nat := 1
  const SegC: nat := 2
  const SegD: nat := 3
  const SegE: nat := 4
  const SegF: nat := 5
  const SegG: nat := 6
  const SegmentCount: nat := 7

  /** The number of slots of a glyph with `n` LEDs per segment. */
  function SlotCount(n: nat): nat { 7 * n }

  function RowCount(n: nat): nat { n * 2 + 3 }

  function ColumnCount(n: nat): nat { n + 2 }

  /** `_7SEG_IDX(seg, pos)`: slots are stored segment after segment, so a
      position of one of the seven segments lands inside the 7n slots. */
  function Slot(n: nat, seg: nat, pos: nat): (k: nat)
    ensures seg < SegmentCount && pos < n ==> k < SlotCount(n)
  {
    MulMonotone(7, seg + 1, n);
    assert (seg + 1) * n == seg * n + n;
    seg * n + pos
  }

  /** `internalIndex`: the slot of a grid cell, or None for a cell that no
      segment covers. */
  function InternalIndex(n: nat, row: nat, col: nat): (k: Option<nat>)
    ensures k.Some? ==> k.value < SlotCount(n)
    ensures k.Some? ==> row < RowCount(n) && col < ColumnCount(n)
  {
    var lastRow := (n + 1) * 2;
    if row > lastRow then None
    else
      var midRow := n + 1;
      var top, mid, bot := row == 0, row == midRow, row == lastRow;
      if top || mid || bot then
        if 1 <= col <= n then
          if top then Some(Slot(n, SegA, col - 1))
          else if mid then Some(Slot(n, SegG, col - 1))
          else Some(Slot(n, SegD, col - 1))
        else None
      else if col == 0 then
        if row < midRow then Some(Slot(n, SegF, row - 1))
        else Some(Slot(n, SegE, row - midRow - 1))
      else if col == n + 1 then
        if row < midRow then Some(Slot(n, SegB, row - 1))
        else Some(Slot(n, SegC, row - midRow - 1))
      else None
  }

  /** The cells a glyph covers, described geometrically: the three bars on
      rows 0, n+1 and 2n+2 (columns 1..n) and the two verticals in columns
      0 and n+1 on every other row between the top and bottom bars. */
  predicate OnShape(n: nat, row: nat, col: nat)
  {
    var mid, last := n + 1, 2 * n + 2;
    ((row == 0 || row == mid || row == last) && 1 <= col <= n)
    || ((col == 0 || col == n + 1) && 0 < row < last && row != mid)
  }

  /** The cell of position `pos` of segment `seg`: the two switches of
      `coordsOfIndex`. */
  function SegmentCell(n: nat, seg: nat, pos: nat): (cell: (nat, nat))
    requires seg < SegmentCount
  {
    var row :=
      if seg == SegA then 0
      else if seg == SegB || seg == SegF then pos + 1
      else if seg == SegC || seg == SegE then n + 1 + pos + 1
      else if seg == SegD then n + 1 + n + 1
      else n + 1;
    var col :=
      if seg == SegA || seg == SegD || seg == SegG then pos + 1
      else if seg == SegB || seg == SegC then n + 1
      else 0;
    (row, col)
  }

  /** Slot `k` split into segment `k / n` and position `k % n`. */
  lemma SlotDecode(n: nat, k: nat)
    requires k < SlotCount(n)
    ensures n > 0 && k / n < SegmentCount && k % n < n
    ensures k == Slot(n, k / n, k % n)
  {
    MulMonotone(k / n, 7, n);
  }

  /** Multiplying by a natural number keeps the order. */
  lemma MulMonotone(a: int, b: int, n: nat)
    ensures a >= b ==> a * n >= b * n
  {
    assert a * n - b * n == (a - b) * n;
  }

  /** Division by `n` recovers segment and position from a slot. */
  lemma SlotDivMod(n: nat, seg: nat, pos: nat)
    requires pos < n
    ensures Slot(n, seg, pos) / n == seg && Slot(n, seg, pos) % n == pos
  {
    var k := Slot(n, seg, pos);
    var q, r := k / n, k % n;
    assert q * n + r == seg * n + pos;
    MulMonotone(q, seg + 1, n);
    MulMonotone(seg, q + 1, n);
    assert (seg + 1) * n == seg * n + n;
    assert (q + 1) * n == q * n + n;
  }

  /** The decode of `coordsOfIndex` for a slot index. */
  function CellOfSlot(n: nat, k: nat): (cell: (nat, nat))
    requires k < SlotCount(n)
  {
    SlotDecode(n, k);
    SegmentCell(n, k / n, k % n)
  }

  /** Every slot decodes to a cell that `internalIndex` maps back to that
      slot. */
  lemma SlotRoundTrip(n: nat, k: nat)
    requires k < SlotCount(n)
    ensures InternalIndex(n, CellOfSlot(n, k).0, CellOfSlot(n, k).1) == Some(k)
  {
    SlotDecode(n, k);
    var seg, pos := k / n, k % n;
    assert k == Slot(n, seg, pos);
  }

  /** Every cell with a slot is the decode of that slot: `internalIndex` is
      injective, and with SlotRoundTrip a bijection from the covered cells
      onto the slots 0..7n-1. */
  lemma CellRoundTrip(n: nat, row: nat, col: nat)
    requires InternalIndex(n, row, col).Some?
    ensures CellOfSlot(n, InternalIndex(n, row, col).value) == (row, col)
  {
    var k := InternalIndex(n, row, col).value;
    var midRow := n + 1;
    if row == 0 {
      SlotDivMod(n, SegA, col - 1);
    } else if row == midRow {
      SlotDivMod(n, SegG, col - 1);
    } else if row == 2 * n + 2 {
      SlotDivMod(n, SegD, col - 1);
    } else if col == 0 && row < midRow {
      SlotDivMod(n, SegF, row - 1);
    } else if col == 0 {
      SlotDivMod(n, SegE, row - midRow - 1);
    } else if row < midRow {
      SlotDivMod(n, SegB, row - 1);
    } else {
      SlotDivMod(n, SegC, row - midRow - 1);
    }
  }

  /** Two cells with the same slot are the same cell. */
  lemma InternalIndexInjective(n: nat, r1: nat, c1: nat, r2: nat, c2: nat)
    requires InternalIndex(n, r1, c1).Some?
    requires InternalIndex(n, r1, c1) == InternalIndex(n, r2, c2)
    ensures r1 == r2 && c1 == c2
  {
    CellRoundTrip(n, r1, c1);
    CellRoundTrip(n, r2, c2);
  }

  /** `internalIndex` is defined exactly on the cells of the glyph shape. */
  lemma ShapeIff(n: nat, row: nat, col: nat)
    ensures InternalIndex(n, row, col).Some? <==> OnShape(n, row, col)
  {
  }

  /** The decode of a slot lies on the glyph shape, inside the extents. */
  lemma CellOfSlotOnShape(n: nat, k: nat)
    requires k < SlotCount(n)
    ensures OnShape(n, CellOfSlot(n, k).0, CellOfSlot(n, k).1)
    ensures CellOfSlot(n, k).0 < RowCount(n) && CellOfSlot(n, k).1 < ColumnCount(n)
  {
    SlotRoundTrip(n, k);
    ShapeIff(n, CellOfSlot(n, k).0, CellOfSlot(n, k).1);
  }

  /** The extents are the smallest box around the glyph: every cell with a
      slot lies inside it (the contract of InternalIndex), the last row
      holds the bottom bar and the last column holds segment B. */
  lemma ExtentsTight(n: nat)
    requires n > 0
    ensures InternalIndex(n, RowCount(n) - 1, 1) == Some(Slot(n, SegD, 0))
    ensures InternalIndex(n, 1, ColumnCount(n) - 1) == Some(Slot(n, SegB, 0))
  {
  }

  /** A glyph with three LEDs per segment: a 9 x 5 grid where (0, 2) is
      position 1 of A, (8, 3) position 2 of D, and (2, 2) lies inside the
      glyph and is covered by no segment. Row 4 is the middle bar, so its
      end cell (4, 0) is a corner with no slot; the first cell of E is
      (5, 0). */
  lemma ThreeLedGlyph()
    ensures RowCount(3) == 9 && ColumnCount(3) == 5
    ensures InternalIndex(3, 0, 2) == Some(Slot(3, SegA, 1))
    ensures InternalIndex(3, 4, 0) == None
    ensures InternalIndex(3, 5, 0) == Some(Slot(3, SegE, 0))
    ensures InternalIndex(3, 8, 3) == Some(Slot(3, SegD, 2))
    ensures InternalIndex(3, 2, 2) == None
  {
  }
}
