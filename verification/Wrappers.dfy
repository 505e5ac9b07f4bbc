/** Result and option types, and the error kinds of `CoveError` that the modelled code returns.
    Error messages are not part of the model; error kinds are. */
module Wrappers {

  datatype Option<+T> = None | Some(value: T)

  datatype CoveError =
    | BadSection
    | BadSchema
    | BadDomain
    | BadFileCode
    | BadStats
    | ArithOverflow
    | BufferTooShort
    | OffsetRange
    | PageCorrupt
    | ChecksumMismatch
    | ReservedNotZero
    | UnsupportedEncoding
    | Io

  datatype Result<+T> = Ok(value: T) | Err(error: CoveError) {

    predicate IsFailure() {
      Err?
    }

    function PropagateFailure<U>(): Result<U>
      requires Err?
    {
      Err(error)
    }

    function Extract(): T
      requires Ok?
    {
      value
    }
  }

  // The target is a 64-bit platform: `usize` and `u64` have the same range.
  const TWO_16: int := 0x1_0000
  const TWO_31: int := 0x8000_0000
  const TWO_32: int := 0x1_0000_0000
  const TWO_63: int := 0x8000_0000_0000_0000
  const TWO_64: int := 0x1_0000_0000_0000_0000
  const TWO_127: int := 0x8000_0000_0000_0000_0000_0000_0000_0000
  const TWO_128: int := 0x1_0000_0000_0000_0000_0000_0000_0000_0000

  type byte = b: int | 0 <= b < 256
  type u32 = x: int | 0 <= x < TWO_32
  type u64 = x: int | 0 <= x < TWO_64
  type i32 = x: int | -TWO_31 <= x < TWO_31
  type i64 = x: int | -TWO_63 <= x < TWO_63
  type i128 = x: int | -TWO_127 <= x < TWO_127
}
