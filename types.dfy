// Shared value types of the 3D model: fixed-width integers, IEEE bit patterns for
// the .NET `float`/`double` fields, packed ARGB colours, and the error taxonomy.

module Types {

  datatype Option<+T> = None | Some(value: T)

  /** The exceptions the model raises, by cause. */
  datatype Error =
    | InvalidCursor        // a cursor without a current point was dereferenced
    | NormalUnavailable    // the normal vector was read before it was computed
    | DuplicateId          // an explicit point ID is already in the ID map
    | MalformedCoordinate  // a NaN coordinate given to the NaN-checked overload
    | NotFound             // a label, feature or stored ID that does not resolve
    | DuplicateKey         // Dictionary.Add with a key that is already present
    | NullReference        // a null landmark binding was dereferenced
    | UnsupportedVersion   // a binary model version above the supported one
    | UnsupportedFormat    // no reader is registered for the file extension
    | MalformedHeader      // the version number of the header does not parse
    | EndOfStream          // the token stream ended before a field was read
    | WrongToken           // the next token is not of the kind being read
    | OutOfRange           // String.Substring with a negative length

  datatype Result<+T> = Ok(value: T) | Err(error: Error) {
    predicate IsFailure() { Err? }
    function PropagateFailure<U>(): Result<U> requires Err? { Err(error) }
    function Extract(): T requires Ok? { value }
  }

  const TWO32: int := 0x1_0000_0000
  const TWO31: int := 0x8000_0000
  const TWO64: int := 0x1_0000_0000_0000_0000

  type u32 = x: int | 0 <= x < TWO32
  type i32 = x: int | -TWO31 <= x < TWO31

  /** `x + 1` in unchecked .NET `uint` arithmetic. */
  function Inc32(x: u32): (r: u32)
    ensures r == (x + 1) % TWO32
  {
    if x == TWO32 - 1 then 0 else x + 1
  }

  /** `x - 1` in unchecked .NET `uint` arithmetic. */
  function Dec32(x: u32): (r: u32)
    ensures r == (x - 1) % TWO32
  {
    if x == 0 then TWO32 - 1 else x - 1
  }

  /** A .NET `float`, kept as its IEEE 754 binary32 bit pattern. */
  datatype Single = Single(bits: u32)

  /** A .NET `double`, kept as its IEEE 754 binary64 bit pattern. */
  datatype Double = Double(bits: int)

  const PositiveZero: Single := Single(0)

  /** float.IsNaN: all exponent bits set and a non-zero fraction. */
  predicate IsNaN(f: Single) {
    (f.bits / 0x80_0000) % 0x100 == 0xFF && f.bits % 0x80_0000 != 0
  }

  /** A System.Drawing.Color as Color.ToArgb() packs it: a signed 32-bit 0xAARRGGBB. */
  type Argb = i32

  /** Color.White.ToArgb() == 0xFFFFFFFF, which is -1 as a signed int. */
  const White: Argb := -1

  /** The unsigned view of a packed colour. */
  function Unsigned(c: Argb): (r: u32)
    ensures c >= 0 ==> r == c
    ensures c < 0 ==> r == c + TWO32
  {
    if c < 0 then c + TWO32 else c
  }

  function Alpha(c: Argb): nat { Unsigned(c) / 0x100_0000 }
  function Red(c: Argb): nat { (Unsigned(c) / 0x1_0000) % 0x100 }
  function Green(c: Argb): nat { (Unsigned(c) / 0x100) % 0x100 }
  function Blue(c: Argb): nat { Unsigned(c) % 0x100 }

  /** The four channels are bytes and re-pack to the colour they came from. */
  lemma ChannelsRepack(c: Argb)
    ensures Alpha(c) < 0x100 && Red(c) < 0x100 && Green(c) < 0x100 && Blue(c) < 0x100
    ensures Alpha(c) * 0x100_0000 + Red(c) * 0x1_0000 + Green(c) * 0x100 + Blue(c) == Unsigned(c)
  {
    var u := Unsigned(c);
    var q1 := u / 0x100;
    var q2 := q1 / 0x100;
    var q3 := q2 / 0x100;
    assert u == q1 * 0x100 + Blue(c);
    assert q1 == q2 * 0x100 + Green(c);
    assert q2 == q3 * 0x100 + Red(c);
    assert u / 0x1_0000 == q2;
    assert u / 0x100_0000 == q3;
  }
}
