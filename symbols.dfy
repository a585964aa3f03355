/** Glyph selection: the digit and character switches of `setDigit` and
    `setCharacter` (wled00/7segmdisp.cpp:184-238) and the segment masks they
    store. The masks themselves are defined in 7segmdisp.h, which is not part
    of this model: `Bits` gives the conventional seven-segment font, with bit
    s lighting segment s (A = bit 0 .. G = bit 6). */
module Symbols {
  import opened Common
  import opened SegmentGeometry

  type DigitValue = d: nat | d < 10
  type LetterValue = k: nat | k < 26

  /** The named `_7SEG_SYM_*` constants. */
  datatype Symbol = Empty | Digit(d: DigitValue) | Letter(k: LetterValue) | Dash | Underscore

  const DigitFont: seq<byte> :=
    [0x3F, 0x06, 0x5B, 0x4F, 0x66, 0x6D, 0x7D, 0x07, 0x7F, 0x6F]

  const LetterFont: seq<byte> :=
    [0x77, 0x7C, 0x39, 0x5E, 0x79, 0x71, 0x3D, 0x76, 0x30, 0x1E, 0x75, 0x38, 0x37,
     0x54, 0x5C, 0x73, 0x67, 0x50, 0x6D, 0x78, 0x3E, 0x1C, 0x2A, 0x49, 0x6E, 0x5B]

  /** The segment mask of a symbol. */
  function Bits(sym: Symbol): byte
  {
    match sym
    case Empty => 0
    case Digit(d) => DigitFont[d]
    case Letter(k) => LetterFont[k]
    case Dash => 0x40
    case Underscore => 0x08
  }

  /** `_value & mask` with `mask == 1 << seg`: is segment `seg` lit? */
  predicate Lit(value: byte, seg: nat)
    requires seg < SegmentCount
  {
    (value as bv8) & ((1 as bv8) << seg) != 0
  }

  /** Shifting the one-bit mask of segment `seg` left once gives the mask
      of the next segment. */
  lemma MaskNext(seg: nat)
    requires seg < SegmentCount
    ensures ((1 as bv8) << seg) << 1 == (1 as bv8) << (seg + 1)
  {
  }

  /** The symbol `setDigit` stores. */
  function DigitSymbol(digit: byte, showZero: bool): (sym: Symbol)
    ensures sym.Digit? ==> sym.d == digit as nat
    ensures 1 <= digit <= 9 || (digit == 0 && showZero) ==> sym == Digit(digit as nat)
  {
    if digit == 0 then (if showZero then Digit(0) else Empty)
    else if digit <= 9 then Digit(digit as nat)
    else Empty
  }

  /** The symbol `setCharacter` stores. */
  function CharacterSymbol(ch: char): (sym: Symbol)
  {
    if 'a' <= ch <= 'z' then Letter(ch as int - 'a' as int)
    else if 'A' <= ch <= 'Z' then Letter(ch as int - 'A' as int)
    else if ch == '-' then Dash
    else if ch == '_' then Underscore
    else Empty
  }

  /** The blank mask lights no segment. */
  lemma EmptyIsBlank(seg: nat)
    requires seg < SegmentCount
    ensures !Lit(Bits(Empty), seg)
  {
  }

  /** With `showZero` off, digit 0 is blanked exactly like an out-of-range
      digit; with it on, 0 is shown. Only 0 depends on `showZero`. */
  lemma ZeroBlanking(digit: byte, showZero: bool)
    ensures DigitSymbol(0, false) == Empty && DigitSymbol(0, true) == Digit(0)
    ensures digit > 9 ==> DigitSymbol(digit, showZero) == Empty
    ensures digit != 0 ==> DigitSymbol(digit, showZero) == DigitSymbol(digit, !showZero)
    ensures DigitSymbol(digit, showZero) == Empty <==> digit > 9 || (digit == 0 && !showZero)
  {
  }

  /** Upper and lower case of a letter select the same symbol, and a letter
      is told apart from every other letter. */
  lemma CaseInsensitive(k: LetterValue)
    ensures CharacterSymbol(('a' as int + k) as char) == Letter(k)
    ensures CharacterSymbol(('A' as int + k) as char) == Letter(k)
  {
  }

  /** Characters outside the letters, '-' and '_' store the blank symbol. */
  lemma UnknownCharacterIsBlank(ch: char)
    ensures CharacterSymbol(ch) == Empty <==>
      !('a' <= ch <= 'z' || 'A' <= ch <= 'Z' || ch == '-' || ch == '_')
  {
  }

  /** Digit 1 lights exactly segments B and C. */
  lemma DigitOneSegments(seg: nat)
    requires seg < SegmentCount
    ensures Lit(Bits(Digit(1)), seg) <==> seg == SegB || seg == SegC
  {
  }
}
