/** Column types and the readings of a NumCode (`constants.rs`, `types.rs`). */
module ColumnTypes {
  import opened Wrappers

  datatype LogicalType =
    | NullType | Bool | Int8 | Int16 | Int32 | Int64 | UInt8 | UInt16 | UInt32 | UInt64 | Float32 | Float64
    | Decimal64 | Decimal128 | DateDays | TimestampMicros | TimestampNanos | Utf8 | Binary | Uuid | Json
    | List | Struct | Map

  datatype PhysicalKind = FileCodeKind | NumCodeKind | BooleanKind | FixedBytesKind | VarBytesKind | ListKind
    | StructKind | MapKind

  datatype Encoding =
    | CanonicalEncoding | ValidityEncoding | ConstantEncoding | FileCodeEncoding | NumCodeEncoding | LocalCodebook
    | Rle | RunEnd | BitPacked | Delta | FrameOfReference | PatchedBase | Sparse | SequenceEncoding
    | PlainFixed | PlainVarint | VarBytesEncoding | Lz4Block | ZstdBlock

  /** `value as i64 as u64`, as the converter stores a signed value. */
  function Stored(v: i64): u64 {
    if v < 0 then v + TWO_64 else v
  }

  /** The low `bits` bits of a NumCode, read as two's complement. `half` is `2^(bits - 1)`. */
  function LowSigned(code: nat, half: int): (v: int)
    requires half > 0
    ensures -half <= v < half
  {
    var low := code % (2 * half);
    if low < half then low else low - 2 * half
  }

  /** `signed_numcode`. */
  function SignedNumcode(logical: LogicalType, code: u64): (v: i64) {
    match logical
    case Int8 => LowSigned(code, 0x80)
    case Int16 => LowSigned(code, 0x8000)
    case Int32 => LowSigned(code, TWO_31)
    case _ => LowSigned(code, TWO_63)
  }
}
