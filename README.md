# LED clock displays, modelled in Dafny

This project models the LED display layer of the ledclock WLED usermod
(`wled00/7segmdisp.cpp`). That layer drives an addressable LED strip arranged
as a clock face. It has four parts:

- **`LedBasedDisplay`** is the common interface. Its three fill helpers,
  `setRowColor`, `setColumnColor` and `setColor`, call `setLedColor` on every
  cell of a row, a column or the whole grid.
- **`SevenSegmentDisplay`** is one glyph with `n` LEDs per segment, laid out on
  a `(2n + 3) x (n + 2)` grid. It keeps three slot buffers of `7n` entries: the
  physical LED index, the "on" colour and the "off" colour. It also keeps the
  displayed symbol as a segment mask, a render mode and a show-zero flag.
- **`SeparatorDisplay`** is a free-form table of LEDs, for the colon between
  hours and minutes. Each entry has a row, a column, a physical index and two
  colours. The display as a whole has a logical state, on or off.
- **`LedBasedRowDisplay`** places child displays side by side. A column is
  owned by the first child whose width is not yet used up, and is rebased into
  that child's own columns.

Each part is modelled twice:

- **Value-level specifications** (`SegmentGeometry`, `Symbols`, `SegmentSpec`,
  `SeparatorSpec`, `RowSpec`, `DisplaySpec`, `FillOrder`): the state as a
  datatype, each operation as a function, and the properties as lemmas. The
  properties are the forward/inverse lookup round trips, read-back after
  write, the tightness of the extents, what `update` pushes and in which
  order, and what each fill does to every cell.
- **Imperative classes** (`SevenSegment`, `Separator`, `RowDisplay`,
  `LedDisplay`): they keep the source's fields and loops. Each method is proved
  to compute the specification function of its inputs and of the old state,
  with two exceptions. `SeparatorDisplay.Map` is proved against the relation
  `MappedFrom`, because the colours of the new entries are arbitrary.
  `SevenSegmentDisplay.MapSegment` states its effect on the `indices` array
  directly: the segment's slots are set and every other slot is kept.

The output callback `(*_output)(index, r, g, b)` becomes the sequence of
`Emit` values that `Update` returns.

## Model

| member | source | states |
|---|---|---|
| Common.FirstWhere | wled00/7segmdisp.cpp:275-282 | The first-match scan used by every table lookup: a hit satisfies the test and nothing before it does, and a miss means no element satisfies it |
| Common.FirstWhereAt | wled00/7segmdisp.cpp:284-291 | A position that matches, with no match before it, is what the scan returns |
| Common.FirstWhereSame | wled00/7segmdisp.cpp:307-317 | Two tables that agree on the test, entry by entry, give the same first match; this is why a recolouring leaves the lookups alone |
| SegmentGeometry.Slot | wled00/7segmdisp.cpp:64-85 | The slot of position `pos` of segment `seg` lies inside the `7n` buffers |
| SegmentGeometry.InternalIndex | wled00/7segmdisp.cpp:52-90 | Every cell that has a slot lies inside the `2n + 3` by `n + 2` extents, and its slot is below `7n` |
| SegmentGeometry.SlotDecode | wled00/7segmdisp.cpp:101-102 | Every slot splits into segment `k / n` and position `k % n`, and rebuilding from those gives the slot back |
| SegmentGeometry.SlotDivMod | wled00/7segmdisp.cpp:101-102 | Dividing a slot by `n` recovers the segment and the position it was built from |
| SegmentGeometry.SlotRoundTrip | wled00/7segmdisp.cpp:97-125 | `internalIndex` maps the cell that `coordsOfIndex` decodes from a slot back to that slot |
| SegmentGeometry.CellRoundTrip | wled00/7segmdisp.cpp:52-125 | Decoding the slot of a cell gives that cell back, so `internalIndex` and the decode are inverse on the glyph |
| SegmentGeometry.InternalIndexInjective | wled00/7segmdisp.cpp:52-90 | No two cells share a slot |
| SegmentGeometry.ShapeIff | wled00/7segmdisp.cpp:52-90 | `internalIndex` is defined exactly on the three bars and the four side columns of the glyph, in both directions |
| SegmentGeometry.CellOfSlotOnShape | wled00/7segmdisp.cpp:101-120 | Every decoded slot lies on the glyph shape and inside the extents |
| SegmentGeometry.ExtentsTight | wled00/7segmdisp.cpp:44-50 | The extents are tight: the last row holds the bottom bar and the last column holds segment B |
| SegmentGeometry.ThreeLedGlyph | wled00/7segmdisp.cpp:52-90 | With 3 LEDs per segment the grid is 9 x 5. (0,2) is A1, (5,0) is E0 and (8,3) is D2. (4,0), on the middle row, and (2,2), inside the glyph, have no LED |
| Symbols.MaskNext | wled00/7segmdisp.cpp:148-161 | Shifting segment `seg`'s one-bit mask left gives segment `seg + 1`'s mask, so the walk tests bit `seg` for segment `seg` |
| Symbols.DigitSymbol | wled00/7segmdisp.cpp:184-203 | Digits 1..9, and 0 when zeros are shown, store exactly that digit's symbol; any digit symbol stored is the requested digit |
| Symbols.EmptyIsBlank | wled00/7segmdisp.cpp:25-36 | The blank symbol lights no segment |
| Symbols.ZeroBlanking | wled00/7segmdisp.cpp:184-203 | Zero is blank unless show-zero is set, 10..255 are always blank, and show-zero only affects digit 0; blank exactly when the digit is over 9 or is a hidden 0 |
| Symbols.CaseInsensitive | wled00/7segmdisp.cpp:205-238 | Lower- and upper-case forms of a letter select the same symbol |
| Symbols.UnknownCharacterIsBlank | wled00/7segmdisp.cpp:205-238 | A character is shown blank exactly when it is not a letter, '-' or '_' |
| Symbols.DigitOneSegments | wled00/7segmdisp.cpp:187-194 | Digit 1 lights exactly segments B and C |
| SegmentSpec.WithLedColor | wled00/7segmdisp.cpp:137-145 | A colour write keeps the buffers well-formed |
| SegmentSpec.Block | wled00/7segmdisp.cpp:154-158 | The inner loop of `update` pushes exactly `n` calls for one segment |
| SegmentSpec.RenderUpToNext | wled00/7segmdisp.cpp:150-162 | Segment `m`'s calls come right after those of segments `0..m-1` |
| SegmentSpec.BlockNext | wled00/7segmdisp.cpp:154-158 | Position `i` of a segment pushes the index and the colour held in slot `_7SEG_IDX(seg, i)`, in position order |
| SegmentSpec.GatedCount | wled00/7segmdisp.cpp:150-153 | At most `m` of the first `m` segments get through the mode gate |
| SegmentSpec.IndexOfCoordsSlots | wled00/7segmdisp.cpp:92-95 | Every slot's cell looks up the physical index stored in that slot |
| SegmentSpec.IndexOfCoordsUndefined | wled00/7segmdisp.cpp:92-95 | A cell has no index exactly when it is off the glyph shape |
| SegmentSpec.CoordsThenIndex | wled00/7segmdisp.cpp:97-125 | The cell found for an index looks the same index up again, and no slot before that cell's slot holds the index |
| SegmentSpec.CoordsOfIndexInvalid | wled00/7segmdisp.cpp:97-125 | The index search fails exactly when no slot holds the index |
| SegmentSpec.IndexThenCoords | wled00/7segmdisp.cpp:92-125 | When no other slot holds the index found at a cell, looking that index up gives the cell back |
| SegmentSpec.LedColorAfterSet | wled00/7segmdisp.cpp:127-145 | After a write, the written cell reads the new colour in the written state; every other cell and state reads what it read before |
| SegmentSpec.WithLedColorChangesOneSlot | wled00/7segmdisp.cpp:137-145 | A write on the glyph changes one entry of one colour buffer and leaves the indices and the other buffer alone |
| SegmentSpec.SameLayoutLookups | wled00/7segmdisp.cpp:92-125 | Colour changes leave both lookups unchanged |
| SegmentSpec.FilledGrid | wled00/7segmdisp.cpp:17-23 | If every cell of the grid reads `color` in one state and the other state is untouched, then every slot of that buffer holds `color` and the other buffer is unchanged |
| SegmentSpec.RenderUpToLength | wled00/7segmdisp.cpp:150-162 | Rendering the first `m` segments gives `n` calls for each gated segment |
| SegmentSpec.GatedLengthCount | wled00/7segmdisp.cpp:150-162 | That length is `n` times the number of gated segments |
| SegmentSpec.RenderUpToPrefix | wled00/7segmdisp.cpp:150-162 | The calls for fewer segments are a prefix of the calls for more; nothing is emitted out of order |
| SegmentSpec.RenderLength | wled00/7segmdisp.cpp:147-163 | `update` pushes exactly `n` calls per gated segment |
| SegmentSpec.RenderAt | wled00/7segmdisp.cpp:147-163 | Position `pos` of gated segment `seg` is pushed right after the calls of the earlier gated segments, with that slot's index and its colour in the segment's lit/unlit state |
| SegmentSpec.RenderFromGatedSlots | wled00/7segmdisp.cpp:147-163 | Every call that is pushed comes from a slot of a gated segment, with that slot's index and colour |
| SegmentSpec.DigitOneOnlyLit | wled00/7segmdisp.cpp:147-163 | Showing digit 1 in the lit-only mode pushes segment B's then segment C's LEDs and nothing else |
| SevenSegment.SevenSegmentDisplay.constructor | wled00/7segmdisp.cpp:25-36 | Fresh buffers of `7n` slots, the blank symbol, the render-everything mode and show-zero on |
| SevenSegment.SevenSegmentDisplay.IndexOfCoords | wled00/7segmdisp.cpp:92-95 | The stored index of the cell's slot, or none off the glyph (the value-level lookup) |
| SevenSegment.SevenSegmentDisplay.CoordsOfIndex | wled00/7segmdisp.cpp:97-125 | The loop finds the cell of the first slot holding the index, or Invalid |
| SevenSegment.SevenSegmentDisplay.GetLedColor | wled00/7segmdisp.cpp:127-135 | The colour of the cell's slot in the requested state, or the shared default off the glyph |
| SevenSegment.SevenSegmentDisplay.SetLedColor | wled00/7segmdisp.cpp:137-145 | The new state is the old one with the one-slot write (nothing changes off the glyph) |
| SevenSegment.SevenSegmentDisplay.Update | wled00/7segmdisp.cpp:147-163 | The mask loop pushes exactly the calls of `Render`, whose order and contents the lemmas above describe |
| SevenSegment.SevenSegmentDisplay.PushSegment | wled00/7segmdisp.cpp:154-158 | The inner loop pushes exactly the segment's block |
| SevenSegment.SevenSegmentDisplay.SetMode | wled00/7segmdisp.cpp:165-167 | Only the mode changes |
| SevenSegment.SevenSegmentDisplay.MapSegment | wled00/7segmdisp.cpp:169-178 | The segment's `n` slots hold the given `int` arguments in order, truncated to 8 bits; every other slot is unchanged |
| SevenSegment.SevenSegmentDisplay.SetSymbol | wled00/7segmdisp.cpp:180-182 | Only the segment mask changes |
| SevenSegment.SevenSegmentDisplay.SetDigit | wled00/7segmdisp.cpp:184-203 | The mask becomes that of the digit's symbol under the current show-zero flag |
| SevenSegment.SevenSegmentDisplay.SetCharacter | wled00/7segmdisp.cpp:205-238 | The mask becomes that of the character's symbol |
| SevenSegment.SevenSegmentDisplay.SetShowZero | wled00/7segmdisp.cpp:240-242 | Only the show-zero flag changes |
| Common.Low8 | wled00/7segmdisp.cpp:343-347 | An `int` stored into a `uint8_t` field keeps its value modulo 256 |
| SeparatorSpec.MaxOfIsMax | wled00/7segmdisp.cpp:255-263 | The left-to-right running maximum bounds every element and is one of them |
| SeparatorSpec.Extents | wled00/7segmdisp.cpp:255-273 | Every entry lies inside the row and column counts, and some entry sits on the last row and some on the last column |
| SeparatorSpec.WithLedColor | wled00/7segmdisp.cpp:307-317 | A recolouring keeps the table's length |
| SeparatorSpec.IndexOfCoordsInExtents | wled00/7segmdisp.cpp:275-282 | A cell with an index lies inside the extents |
| SeparatorSpec.IndexOfCoordsUndefined | wled00/7segmdisp.cpp:275-282 | The cell lookup fails exactly when no entry is at the cell |
| SeparatorSpec.CoordsOfIndexInvalid | wled00/7segmdisp.cpp:284-291 | The index lookup fails exactly when no entry has the index |
| SeparatorSpec.CoordsOfIndexFound | wled00/7segmdisp.cpp:284-291 | A cell found by index is the cell of an entry with that index, and it lies inside the extents |
| SeparatorSpec.IndexThenCoords | wled00/7segmdisp.cpp:275-291 | When no other entry has the index found at a cell, looking that index up gives the cell back |
| SeparatorSpec.CoordsThenIndex | wled00/7segmdisp.cpp:275-291 | With distinct cells, the cell found by an index looks that index up again |
| SeparatorSpec.WithLedColorEveryMatch | wled00/7segmdisp.cpp:307-317 | A write recolours every entry at the cell, in the written state only, and leaves every other entry and all rows, columns and indices unchanged |
| SeparatorSpec.SameLayoutLookups | wled00/7segmdisp.cpp:255-291 | Colour changes leave both lookups and the extents unchanged |
| SeparatorSpec.LedColorAfterSet | wled00/7segmdisp.cpp:293-317 | After a write, the written cell reads the new colour in the written state; every other read is unchanged |
| SeparatorSpec.RenderMatchesLookup | wled00/7segmdisp.cpp:319-326 | With the gate open and no shared cells, call `i` pushes entry `i`'s index with the colour `getLedColor` reads for its cell |
| SeparatorSpec.RenderAllOrNothing | wled00/7segmdisp.cpp:319-326 | The mode and the state decide for the whole table: every entry is pushed in table order, or nothing |
| SeparatorSpec.MappedLookups | wled00/7segmdisp.cpp:332-350 | After `map`, the cell of the first triple naming it (after truncation to 8 bits) looks up that triple's index |
| Separator.SeparatorDisplay.constructor | wled00/7segmdisp.cpp:244-249 | An empty table, off, in the render-everything mode |
| Separator.SeparatorDisplay.RowCount | wled00/7segmdisp.cpp:255-263 | The scan returns one past the largest row (tight by `Extents`) |
| Separator.SeparatorDisplay.ColumnCount | wled00/7segmdisp.cpp:265-273 | The scan returns one past the largest column (tight by `Extents`) |
| Separator.SeparatorDisplay.IndexOfCoords | wled00/7segmdisp.cpp:275-282 | The loop returns the index of the first entry at the cell, or none |
| Separator.SeparatorDisplay.CoordsOfIndex | wled00/7segmdisp.cpp:284-291 | The loop returns the cell of the first entry with the index, or Invalid |
| Separator.SeparatorDisplay.GetLedColor | wled00/7segmdisp.cpp:293-305 | The colour of the first entry at the cell in the requested state, or the default |
| Separator.SeparatorDisplay.SetLedColor | wled00/7segmdisp.cpp:307-317 | The loop recolours every matching entry: the new table is the specification's recolouring of the old |
| Separator.SeparatorDisplay.Update | wled00/7segmdisp.cpp:319-326 | The loop pushes exactly the gated render of the table |
| Separator.SeparatorDisplay.SetMode | wled00/7segmdisp.cpp:328-330 | Only the mode changes |
| Separator.SeparatorDisplay.Map | wled00/7segmdisp.cpp:332-350 | The table becomes the triples, in order, each field truncated to 8 bits; state and mode are kept |
| Separator.SeparatorDisplay.SetState | wled00/7segmdisp.cpp:352-354 | Only the logical state changes |
| RowSpec.LeafState.WithLedColor | wled00/7segmdisp.cpp:430-441 | A child write keeps the child's kind and layout |
| RowSpec.LeafState.WithMode | wled00/7segmdisp.cpp:449-453 | A child takes the requested mode |
| RowSpec.LeafDefinedInExtents | wled00/7segmdisp.cpp:390-401 | A child's cell with an index lies inside the child's extents |
| RowSpec.LeafCoordsThenIndex | wled00/7segmdisp.cpp:403-415 | A child's cell found by index lies inside its extents and, for a coherent child, looks the index up again |
| RowSpec.LeafIndexThenCoords | wled00/7segmdisp.cpp:403-415 | When nothing else in a child has the index found at a cell, that index finds the cell again |
| RowSpec.LeafLedColorAfterSet | wled00/7segmdisp.cpp:417-441 | Read-back after write, for either child kind |
| RowSpec.LeafSameLayout | wled00/7segmdisp.cpp:374-401 | Colour changes keep a child's extents and lookups |
| RowSpec.Locate | wled00/7segmdisp.cpp:390-401 | The column search yields a child and a column inside that child's width |
| RowSpec.LocateOwns | wled00/7segmdisp.cpp:390-401 | The child found owns the column (offset plus rebased column), and the search fails exactly past the total width |
| RowSpec.LocateAt | wled00/7segmdisp.cpp:390-401 | Column `off` of child `i` is found as child `i`, column `off` |
| RowSpec.LocateExample | wled00/7segmdisp.cpp:390-401 | Two children of width 3 give six columns; column 4 is column 1 of the second child, and column 6 has no owner |
| RowSpec.OffsetNext | wled00/7segmdisp.cpp:406-407 | The next child starts where this one ends |
| RowSpec.OffsetAll | wled00/7segmdisp.cpp:382-388 | The offset past the last child is the total width |
| RowSpec.OwnedBy | wled00/7segmdisp.cpp:390-441 | A column rebased into child `i` reads, looks up and writes through child `i` only |
| RowSpec.OwnedByNone | wled00/7segmdisp.cpp:390-441 | A column past every child has no index, reads the default and writes nothing |
| RowSpec.LocateNone | wled00/7segmdisp.cpp:397-400 | A column past every child has no owner |
| RowSpec.RowCountIsMax | wled00/7segmdisp.cpp:374-380 | The row count bounds every child's and is attained by one (0 with no children) |
| RowSpec.RowCountNext | wled00/7segmdisp.cpp:376-378 | One loop step takes the larger of the running row count and the next child's |
| RowSpec.WithLedColor | wled00/7segmdisp.cpp:430-441 | A write through the row keeps every child's layout |
| RowSpec.WithMode | wled00/7segmdisp.cpp:449-453 | Every child takes the mode, and nothing else changes |
| RowSpec.SameLayoutLookups | wled00/7segmdisp.cpp:374-401 | Colour changes keep the widths, the extents and the cell lookup |
| RowSpec.RowCountSame | wled00/7segmdisp.cpp:374-380 | Children of the same heights give the same row count |
| RowSpec.DefinedInExtents | wled00/7segmdisp.cpp:374-401 | A cell with an index lies inside the row's extents |
| RowSpec.LedColorAfterSet | wled00/7segmdisp.cpp:417-441 | Read-back after a write through the row: the written cell reads the new colour, every other cell and state is unchanged |
| RowSpec.CoordsOfIndexFrom | wled00/7segmdisp.cpp:403-415 | When children `0..i-1` do not know the index, the search is the search from child `i` on, shifted by their widths |
| RowSpec.SearchPast | wled00/7segmdisp.cpp:410-412 | Skipping a child that does not know the index adds its width to the shift |
| RowSpec.CoordsThenIndex | wled00/7segmdisp.cpp:390-415 | With coherent children, a cell found by index lies inside the row's columns and looks the index up again |
| RowSpec.CoordsThenIndexPastFirst | wled00/7segmdisp.cpp:390-415 | The same round trip when the first child does not know the index |
| RowSpec.CoordsOfIndexPastFirst | wled00/7segmdisp.cpp:403-415 | Skipping the first child shifts the search by its width |
| RowSpec.FirstChildLookup | wled00/7segmdisp.cpp:390-401 | A column inside the first child is looked up there |
| RowSpec.PastFirstChildLookup | wled00/7segmdisp.cpp:382-401 | A column past the first child is looked up in the rest, rebased by its width, and the total width splits the same way |
| RowSpec.IndexThenCoords | wled00/7segmdisp.cpp:390-415 | When nothing else in the whole row has the index found at a cell, that index finds the cell again |
| RowSpec.OnlyOwnerKnows | wled00/7segmdisp.cpp:403-415 | When at most one child knows an index, the children before that child do not know it |
| RowSpec.Owner | wled00/7segmdisp.cpp:390-401 | A cell with an index has an owning child and a rebased column that give the same index |
| RowSpec.CoordsOfIndexOwner | wled00/7segmdisp.cpp:406-409 | The search stops at the first child that knows the index |
| RowSpec.RenderAppend | wled00/7segmdisp.cpp:443-447 | Children are rendered in order, so rendering two runs of children concatenates their calls |
| RowDisplay.Leaf.RowCount | wled00/7segmdisp.cpp:374-380 | The virtual call returns the child's row count |
| RowDisplay.Leaf.ColumnCount | wled00/7segmdisp.cpp:382-388 | The virtual call returns the child's column count |
| RowDisplay.Leaf.IndexOfCoords | wled00/7segmdisp.cpp:390-401 | The virtual call returns the child's cell lookup |
| RowDisplay.Leaf.CoordsOfIndex | wled00/7segmdisp.cpp:403-415 | The virtual call returns the child's index lookup |
| RowDisplay.Leaf.GetLedColor | wled00/7segmdisp.cpp:417-428 | The virtual call returns the child's colour read |
| RowDisplay.Leaf.SetLedColor | wled00/7segmdisp.cpp:430-441 | The virtual call performs the child's write and nothing else |
| RowDisplay.Leaf.Update | wled00/7segmdisp.cpp:443-447 | The virtual call returns the child's render |
| RowDisplay.Leaf.SetMode | wled00/7segmdisp.cpp:449-453 | The virtual call sets the child's mode |
| RowDisplay.LedBasedRowDisplay.constructor | wled00/7segmdisp.cpp:356-368 | The row holds the given children, in order |
| RowDisplay.LedBasedRowDisplay.RowCount | wled00/7segmdisp.cpp:374-380 | The loop computes the tallest child's row count (see `RowCountIsMax`) |
| RowDisplay.LedBasedRowDisplay.ColumnCount | wled00/7segmdisp.cpp:382-388 | The loop adds up the children's widths |
| RowDisplay.LedBasedRowDisplay.IndexOfCoords | wled00/7segmdisp.cpp:390-401 | The loop asks the owning child at the rebased column, or returns none past the last child |
| RowDisplay.LedBasedRowDisplay.GetLedColor | wled00/7segmdisp.cpp:417-428 | The same walk, returning the owner's colour or the default |
| RowDisplay.LedBasedRowDisplay.SetLedColor | wled00/7segmdisp.cpp:430-441 | The same walk, writing through the owner only; nothing changes past the last child |
| RowDisplay.LedBasedRowDisplay.WriteChild | wled00/7segmdisp.cpp:437-438 | A write through child `i` leaves every other child's state unchanged |
| RowDisplay.LedBasedRowDisplay.CoordsOfIndex | wled00/7segmdisp.cpp:403-415 | The loop returns the first knowing child's cell, shifted by the widths before it, or Invalid |
| RowDisplay.LedBasedRowDisplay.Update | wled00/7segmdisp.cpp:443-447 | The children's calls, concatenated in order |
| RowDisplay.LedBasedRowDisplay.SetMode | wled00/7segmdisp.cpp:449-453 | Every child takes the mode |
| RowDisplay.LedBasedRowDisplay.SetChildMode | wled00/7segmdisp.cpp:450-452 | Setting one child's mode leaves the other children unchanged |
| DisplaySpec.DisplayState.WithLedColor | wled00/7segmdisp.cpp:5-23 | A write through any display keeps its layout |
| DisplaySpec.SameLayoutShape | wled00/7segmdisp.cpp:17-23 | Colour changes keep the extents and the set of cells that have an LED, so the fills' bounds do not move |
| DisplaySpec.DefinedInExtents | wled00/7segmdisp.cpp:17-23 | A cell with an LED lies inside the extents the fill loops walk |
| DisplaySpec.LedColorAfterSet | wled00/7segmdisp.cpp:5-23 | Read-back after one write, for any display |
| DisplaySpec.Fill | wled00/7segmdisp.cpp:5-23 | A sequence of writes keeps the layout |
| DisplaySpec.FillAppend | wled00/7segmdisp.cpp:6-8 | One more write extends the fill by one cell |
| DisplaySpec.FillConcat | wled00/7segmdisp.cpp:18-22 | Writing one list of cells then another is writing them concatenated: the rows of `setColor` compose |
| DisplaySpec.FillConcatNext | wled00/7segmdisp.cpp:18-22 | The inductive step of `FillConcat` |
| DisplaySpec.FillEffect | wled00/7segmdisp.cpp:5-23 | After a fill, a cell reads `color` in the written state exactly when it was visited and has an LED; every other read is unchanged |
| DisplaySpec.FillEffectNext | wled00/7segmdisp.cpp:5-23 | The inductive step of `FillEffect` |
| DisplaySpec.FillStep | wled00/7segmdisp.cpp:6-8 | One write grows the set of written cells by the written cell |
| DisplaySpec.RowColorEffect | wled00/7segmdisp.cpp:5-9 | `setRowColor` recolours exactly the cells of the row that have an LED, in the given state only |
| DisplaySpec.ColumnColorEffect | wled00/7segmdisp.cpp:11-15 | `setColumnColor` recolours exactly the cells of the column that have an LED, in the given state only |
| DisplaySpec.ColorEffect | wled00/7segmdisp.cpp:17-23 | `setColor` recolours every cell that has an LED, in the given state only |
| DisplaySpec.SegmentColorFillsBuffer | wled00/7segmdisp.cpp:17-23 | On a seven-segment glyph, `setColor` sets every slot of that state's buffer and leaves the other buffer unchanged |
| FillOrder.RowCells | wled00/7segmdisp.cpp:6-8 | The first `k` steps of a row fill visit `k` cells |
| FillOrder.ColumnCells | wled00/7segmdisp.cpp:12-14 | The first `k` steps of a column fill visit `k` cells |
| FillOrder.RowCellsIff | wled00/7segmdisp.cpp:5-9 | The row fill visits a cell exactly when it is on the row and left of `k` |
| FillOrder.ColumnCellsIff | wled00/7segmdisp.cpp:11-15 | The column fill visits a cell exactly when it is on the column and above `k` |
| FillOrder.GridCellsIff | wled00/7segmdisp.cpp:17-23 | The grid fill visits a cell exactly when it is inside the extents |
| FillOrder.GridCellsIffNext | wled00/7segmdisp.cpp:18-22 | The inductive step of `GridCellsIff` |
| LedDisplay.Display.RowCount | wled00/7segmdisp.cpp:12 | The virtual `rowCount` of any display, with no state change |
| LedDisplay.Display.ColumnCount | wled00/7segmdisp.cpp:6 | The virtual `columnCount` of any display, with no state change |
| LedDisplay.Display.SetLedColor | wled00/7segmdisp.cpp:7 | The virtual `setLedColor` of any display |
| LedDisplay.Display.SetRowColor | wled00/7segmdisp.cpp:5-9 | The new state is the fill of the row's cells across the column count; `RowColorEffect` states the effect cell by cell |
| LedDisplay.Display.SetColumnColor | wled00/7segmdisp.cpp:11-15 | The new state is the fill of the column's cells down the row count; `ColumnColorEffect` states the effect cell by cell |
| LedDisplay.Display.SetColor | wled00/7segmdisp.cpp:17-23 | The new state is the fill of the whole grid, row by row; `ColorEffect` states the effect cell by cell |
| LedDisplay.Display.WriteNextRow | wled00/7segmdisp.cpp:19-21 | One outer step of `setColor` adds one full row; the column count it asks for again is unchanged |
| LedDisplay.Display.WriteRow | wled00/7segmdisp.cpp:6-8 | The row loop fills columns `0..n-1` of the row, left to right |
| LedDisplay.Display.WriteColumn | wled00/7segmdisp.cpp:12-14 | The column loop fills rows `0..n-1` of the column, top to bottom |
| LedDisplay.Display.WriteNext | wled00/7segmdisp.cpp:7 | One loop body extends the fill by one cell |

## Left out

- The header `wled00/7segmdisp.h` is not part of this model. Its contents are modelled as follows:
  - The segment order A..G is taken as 0..6, and `_7SEG_IDX(seg, pos)` as `seg * n + pos`, which is the layout the decode in `coordsOfIndex` inverts.
  - `_7SEG_MODE(mode, on)` is read as three modes: push everything, only lit positions, or only unlit positions.
  - The `_7SEG_SYM_*` masks use the conventional segment font.
  - `_7SEG_INDEX_UNDEF` becomes `None`. The constructor requires `7n < 255`, so that no slot number can equal the marker.
  - `Coords` becomes the datatype `Coords`. Its default constructor, the not-found value, becomes `Invalid`. `isValid()` becomes the test `At?`, and a found cell is `At(row, col)`.
- The output callback becomes the returned sequence of `Emit` values. The callback's own effects are not modelled.
- `CRGB` is an opaque three-channel value. Colour arithmetic is not used by this code.
- `getLedColor` returns a pointer into the buffers, or to the shared static `dummy`. The model returns the colour by value, so writes through that pointer are not modelled.
- Memory is not modelled: `malloc`, `delete` and the destructors. The colour buffers start with arbitrary contents. After `map`, the separator entries' colours are arbitrary.
- The varargs of `mapSegment`, `map` and the row constructor become sequences. Their length is that of the sequence, not a trusted count argument.
- 8-bit arithmetic is not modelled. Coordinates are `nat`, and these are not truncated to `uint8_t`:
  - the grid size `2n + 3`
  - the separator's `max + 1`
  - the row's sum of widths
  - the fill loop counters

  `map` and `mapSegment` do model truncation, because they store `int` arguments into `uint8_t` fields.
- SeparatorSpec.RowCount, SeparatorSpec.ColumnCount: these require a non-empty table, because `rowCount` and `columnCount` read `_mappings[0]` even when the table is empty.
- A row display's children must be usable. A separator child must already have been mapped with at least one entry. The row constructor and every row method, including `update` and `setMode`, require this of all children. The source's constructor, `update` and `setMode` (wled00/7segmdisp.cpp:356-368, 443-453) place no such demand. Its other row operations call the child's `columnCount` or `rowCount`, which read `_mappings[0]` of an empty table. A row holding an unmapped separator is therefore not modelled.
- Row displays nested inside row displays are not modelled. A row's children are seven-segment or separator displays (`RowDisplay.Leaf`).
- Aliasing between children is ruled out. The row's `Valid` requires disjoint footprints; the source does not enforce this.
- SevenSegment.SevenSegmentDisplay.RowCount, SevenSegment.SevenSegmentDisplay.ColumnCount: plain functions without a contract of their own. Their tightness is `SegmentGeometry.ExtentsTight` and `SegmentGeometry.CellOfSlotOnShape`.
