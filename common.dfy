/** Machine integer types, .NET strings as UTF-16 code units, and the
    Option/Result wrappers the rest of the model uses. */
module Common {

  const TWO16: int := 0x1_0000
  const TWO32: int := 0x1_0000_0000

  type byte = x: int | 0 <= x < 0x100
  type u16 = x: int | 0 <= x < 0x1_0000
  type u32 = x: int | 0 <= x < 0x1_0000_0000

  /** One UTF-16 code unit: a .NET `char`. */
  type CodeUnit = u16

  /** A .NET `string`: a sequence of UTF-16 code units. */
  type Text = seq<CodeUnit>

  /** `None` stands for a null reference. */
  datatype Option<+T> = None | Some(value: T)

  /** `Err` stands for an exception escaping the operation. */
  datatype Result<+T, +E> = Ok(value: T) | Err(error: E)

  function Min(a: int, b: int): int
  {
    if a <= b then a else b
  }

  /** Reducing an operand first does not change a `uint` sum. */
  lemma ModAdd(a: int, b: int)
    ensures (a % TWO32 + b) % TWO32 == (a + b) % TWO32
  {
  }

  /** A `uint` value that does not overflow is its own remainder. */
  lemma ModSmall(x: int)
    requires 0 <= x < TWO32
    ensures x % TWO32 == x
  {
  }

  /** The number of whole ten-byte records in `x` bytes. */
  lemma WholeRecords(x: int, q: int)
    requires 10 * q <= x < 10 * q + 10
    ensures x / 10 == q
  {
  }

  /** Likewise for a `ushort`. */
  lemma ModSmall16(x: int)
    requires 0 <= x < TWO16
    ensures x % TWO16 == x
  {
  }
}
