/** Types shared by every display kind: bytes, colours, render modes,
    coordinates, the calls made to the output callback, and a first-match
    search used by every linear lookup of wled00/7segmdisp.cpp. */
module Common {

  /** `uint8_t`. */
  newtype byte = x: int | 0 <= x < 256

  /** The value a C `int` takes when stored into a `uint8_t` field: reduced
      modulo 256. */
  function Low8(x: int): (b: byte)
    ensures b as int % 256 == x % 256
  {
    (x % 256) as byte
  }

  /** A `CRGB` colour, treated as an opaque value of three channels. */
  datatype Rgb = Rgb(red: byte, green: byte, blue: byte)

  /** The colour handed out for a position that does not exist (the static
      `dummy`, zero-initialised); returned by value here. */
  const Dummy: Rgb := Rgb(0, 0, 0)

  /** `LedBasedDisplayMode`: which logical states a render pass pushes. */
  datatype Mode = AllLeds | OnLeds | OffLeds

  /** `_7SEG_MODE(mode, on)`: may a position in logical state `on` be pushed? */
  predicate Gate(mode: Mode, on: bool)
  {
    match mode
    case AllLeds => true
    case OnLeds => on
    case OffLeds => !on
  }

  /** `Coords`: a grid position, or the invalid Coords of a failed lookup. */
  datatype Coords = Invalid | At(row: nat, col: nat)

  /** One call of the output callback: physical index and colour. */
  datatype Emit = Emit(index: byte, color: Rgb)

  datatype Option<T> = None | Some(value: T)

  /** Position of the first element of `s` satisfying `p`, if there is one:
      the result of every "scan and return on the first hit" loop. */
  function FirstWhere<T>(s: seq<T>, p: T -> bool): (r: Option<nat>)
    ensures r.Some? ==> r.value < |s| && p(s[r.value])
    ensures r.Some? ==> forall j :: 0 <= j < r.value ==> !p(s[j])
    ensures r.None? <==> forall j :: 0 <= j < |s| ==> !p(s[j])
  {
    if s == [] then None
    else if p(s[0]) then Some(0)
    else match FirstWhere(s[1..], p)
      case None => None
      case Some(i) => Some(i + 1)
  }

  /** The first hit is determined by any position that holds and has no
      earlier hit: what a forward scan loop establishes when it returns. */
  lemma FirstWhereAt<T>(s: seq<T>, p: T -> bool, i: nat)
    requires i < |s| && p(s[i])
    requires forall j :: 0 <= j < i ==> !p(s[j])
    ensures FirstWhere(s, p) == Some(i)
  {
  }

  /** Two sequences that agree on `p` position by position have the same
      first hit. */
  lemma {:induction false} FirstWhereSame<T>(s: seq<T>, t: seq<T>, p: T -> bool)
    requires |s| == |t|
    requires forall i :: 0 <= i < |s| ==> p(s[i]) == p(t[i])
    ensures FirstWhere(s, p) == FirstWhere(t, p)
  {
    if s != [] && !p(s[0]) {
      FirstWhereSame(s[1..], t[1..], p);
    }
  }
}
