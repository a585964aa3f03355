/** `SevenSegmentDisplay` (wled00/7segmdisp.cpp:25-242): one glyph whose
    three slot buffers are arrays of 7n entries updated in place. Every
    method is proved against the value-level functions of SegmentSpec. */
module SevenSegment {
  import opened Common
  import opened SegmentGeometry
  import opened Symbols
  import opened SegmentSpec

  class SevenSegmentDisplay {
    /** `_ledsPerSegment` and the three buffers, fixed at construction. */
    const n: nat
    const indices: array<byte>
    const onColors: array<Rgb>
    const offColors: array<Rgb>
    /** `_value`, `_mode`, `_showZero`. */
    var value: byte
    var mode: Mode
    var showZero: bool

    ghost predicate Valid()
    {
      SlotCount(n) < 255 &&
      indices.Length == SlotCount(n) &&
      onColors.Length == SlotCount(n) &&
      offColors.Length == SlotCount(n) &&
      onColors != offColors
    }

    /** The display's state as a value. */
    ghost function State(): (s: SegmentState)
      reads this, indices, onColors, offColors
      ensures Valid() ==> s.Valid()
    {
      SegmentState(n, indices[..], onColors[..], offColors[..], value, mode, showZero)
    }

    /** The buffers are allocated and left uninitialised; the glyph starts
        blank, in the render-everything mode, showing zeros. */
    constructor (ledsPerSegment: nat)
      requires SlotCount(ledsPerSegment) < 255
      ensures Valid() && fresh(indices) && fresh(onColors) && fresh(offColors)
      ensures n == ledsPerSegment
      ensures value == Bits(Empty) && mode == AllLeds && showZero
    {
      n := ledsPerSegment;
      offColors := new Rgb[SlotCount(ledsPerSegment)];
      onColors := new Rgb[SlotCount(ledsPerSegment)];
      indices := new byte[SlotCount(ledsPerSegment)];
      value := Bits(Empty);
      mode := AllLeds;
      showZero := true;
    }

    function RowCount(): nat
    {
      SegmentGeometry.RowCount(n)
    }

    function ColumnCount(): nat
    {
      SegmentGeometry.ColumnCount(n)
    }

    /** `indexOfCoords`: the physical index in the slot of a cell. */
    function IndexOfCoords(row: nat, col: nat): (r: Option<byte>)
      reads this, indices, onColors, offColors
      requires Valid()
      ensures r == SegmentSpec.IndexOfCoords(State(), row, col)
    {
      match InternalIndex(n, row, col)
      case Some(k) => Some(indices[k])
      case None => None
    }

    /** `coordsOfIndex`: scan the slots, decode the first one that holds
        the index. */
    method CoordsOfIndex(index: nat) returns (c: Coords)
      requires Valid()
      ensures c == SegmentSpec.CoordsOfIndex(State(), index)
    {
      var i := 0;
      while i < SlotCount(n)
        invariant 0 <= i <= SlotCount(n)
        invariant forall j :: 0 <= j < i ==> indices[j] as nat != index
      {
        if indices[i] as nat == index {
          var cell := CellOfSlot(n, i);
          FirstWhereAt(indices[..], Holds(index), i);
          return At(cell.0, cell.1);
        }
        i := i + 1;
      }
      c := Invalid;
    }

    /** `getLedColor`: the colour stored for a cell, or the default. */
    method GetLedColor(row: nat, col: nat, state: bool) returns (color: Rgb)
      requires Valid()
      ensures color == LedColor(State(), row, col, state)
    {
      var k := InternalIndex(n, row, col);
      if k.None? {
        return Dummy;
      }
      color := if state then onColors[k.value] else offColors[k.value];
    }

    /** `setLedColor`: overwrite one entry of one buffer, or do nothing for
        a cell no segment covers. */
    method SetLedColor(row: nat, col: nat, state: bool, color: Rgb)
      requires Valid()
      modifies onColors, offColors
      ensures State() == WithLedColor(old(State()), row, col, state, color)
    {
      var k := InternalIndex(n, row, col);
      if k.None? {
        return;
      }
      if state {
        onColors[k.value] := color;
      } else {
        offColors[k.value] := color;
      }
    }

    /** `update`: walk the segments A..G with a one-bit mask and push every
        LED of each segment the mode lets through. Returns the calls made
        to the output callback, in order. */
    method Update() returns (emits: seq<Emit>)
      requires Valid()
      ensures emits == Render(State())
    {
      ghost var s := State();
      emits := [];
      var mask: bv8 := 1;
      var seg := SegA;
      while seg < SegmentCount
        invariant seg <= SegmentCount
        invariant mask == (1 as bv8) << seg
        invariant s == State()
        invariant emits == RenderUpTo(s, seg)
      {
        var on := (value as bv8) & mask != 0;
        if Gate(mode, on) {
          var block := PushSegment(seg, on);
          emits := emits + block;
        }
        RenderUpToNext(s, seg);
        MaskNext(seg);
        mask := mask << 1;
        seg := seg + 1;
      }
    }

    /** The inner loop of `update`: the calls for the `n` LEDs of one
        segment, left to right, in the colours of state `on`. */
    method PushSegment(seg: nat, on: bool) returns (block: seq<Emit>)
      requires Valid() && seg < SegmentCount
      ensures block == Block(State(), seg, on)
    {
      ghost var s := State();
      block := [];
      var i := 0;
      while i < n
        invariant i <= n
        invariant block == Block(s, seg, on)[..i]
      {
        BlockNext(s, seg, on, i);
        var k := Slot(n, seg, i);
        var c := if on then onColors[k] else offColors[k];
        block := block + [Emit(indices[k], c)];
        i := i + 1;
      }
    }

    method SetMode(m: Mode)
      modifies this
      ensures State() == old(State()).(mode := m)
    {
      mode := m;
    }

    /** `mapSegment`: bind the `n` slots of one segment to physical indices,
        left to right, each `int` argument truncated to the `uint8_t` slot,
        leaving the other 6n slots as they were. */
    method MapSegment(seg: nat, values: seq<int>)
      requires Valid() && seg < SegmentCount && |values| == n
      modifies indices
      ensures forall i :: 0 <= i < n ==> indices[Slot(n, seg, i)] == Low8(values[i])
      ensures forall k :: 0 <= k < SlotCount(n) && (k < Slot(n, seg, 0) || Slot(n, seg, 0) + n <= k) ==>
        indices[k] == old(indices[k])
    {
      var i := 0;
      while i < n
        invariant i <= n
        invariant forall j :: 0 <= j < i ==> indices[Slot(n, seg, j)] == Low8(values[j])
        invariant forall k :: 0 <= k < SlotCount(n) && (k < Slot(n, seg, 0) || Slot(n, seg, 0) + i <= k) ==>
          indices[k] == old(indices[k])
      {
        indices[Slot(n, seg, i)] := Low8(values[i]);
        i := i + 1;
      }
    }

    /** `setSymbol`: store a raw segment mask. */
    method SetSymbol(symbol: byte)
      modifies this
      ensures State() == old(State()).(value := symbol)
    {
      value := symbol;
    }

    /** `setDigit`: store the mask of a digit, blanking 0 unless zeros are
        shown and blanking every digit above 9. */
    method SetDigit(digit: byte)
      modifies this
      ensures State() == old(State()).(value := Bits(DigitSymbol(digit, old(showZero))))
    {
      SetSymbol(Bits(DigitSymbol(digit, showZero)));
    }

    /** `setCharacter`: store the mask of a letter (either case), '-' or
        '_', and the blank mask for any other character. */
    method SetCharacter(ch: char)
      modifies this
      ensures State() == old(State()).(value := Bits(CharacterSymbol(ch)))
    {
      SetSymbol(Bits(CharacterSymbol(ch)));
    }

    method SetShowZero(show: bool)
      modifies this
      ensures State() == old(State()).(showZero := show)
    {
      showZero := show;
    }
  }
}
