/** Reading the rows of an encoded array one by one (`array.rs`). */
module RowAccess {
  import opened Wrappers
  import opened Wire
  import opened Bits
  import opened ArrayPage
  import opened Validity
  import opened ColumnTypes
  import opened DictionaryFormat

  datatype CoveValue =
    | NullValue
    | Bytes(bytes: seq<byte>)
    | OwnedBytes(owned: seq<byte>)
    | Varint(varint: nat)
    | Int64Value(int64: i64)
    | FileCodeValue(code: nat)
    | DictValue(value: DictionaryValue)
    | NumCodeValue(number: nat)
    | BooleanValue(boolean: bool)
    | ValidityBit(bit: bool)

  datatype CodebookValue = CodebookFileCode(code: u32) | CodebookNumCode(number: u64) | CodebookBoolean(boolean: bool)
    | CodebookBytes(bytes: seq<byte>)

  /** The transform encodings decode a whole page; what they decode it to is a parameter. */
  datatype Decoders = Decoders(cascade: (Encoding, seq<byte>) -> Result<seq<i64>>,
    codebook: seq<byte> -> Result<seq<CodebookValue>>)

  datatype EncodedArray = EncodedArray(
    logical: LogicalType, physical: PhysicalKind, encoding: Encoding, page: Page, dictionary: Option<FileDictionary>)

  predicate IsCascade(e: Encoding) {
    e == Rle || e == RunEnd || e == BitPacked || e == Delta || e == FrameOfReference || e == PatchedBase || e == Sparse
  }

  predicate IsLengthPrefixed(logical: LogicalType) {
    logical == Utf8 || logical == Binary || logical == Json
  }

  /** `logical_type_fixed_width`. */
  function FixedWidthOf(logical: LogicalType): Option<nat> {
    match logical
    case Bool | Int8 | UInt8 => Some(1)
    case Int16 | UInt16 => Some(2)
    case Int32 | UInt32 | Float32 | DateDays => Some(4)
    case Int64 | UInt64 | Float64 | Decimal64 | TimestampMicros | TimestampNanos => Some(8)
    case Decimal128 | Uuid => Some(16)
    case _ => None
  }

  // ---- variable-width streams -----------------------------------------------------------------

  datatype StreamKind = VarintStream | U32Stream | LebStream

  function StreamOf(a: EncodedArray): Option<StreamKind> {
    if a.encoding == PlainVarint then Some(VarintStream)
    else if a.encoding == VarBytesEncoding then Some(U32Stream)
    else if a.encoding == CanonicalEncoding && IsLengthPrefixed(a.logical) then Some(LebStream)
    else None
  }

  /** The length and start of the record at `pos`. */
  function RecordAt(kind: StreamKind, data: seq<byte>, pos: nat): (r: Result<(nat, nat)>)
    requires pos <= |data|
    ensures r.Ok? ==> pos < r.value.0
  {
    match kind
    case VarintStream =>
      if pos >= |data| then Err(OffsetRange)
      else
        var decoded :- DecodeLeb(data[pos..]);
        Ok((pos + decoded.1, 0))
    case U32Stream =>
      var len :- ReadU32(data, pos);
      Ok((pos + 4, len))
    case LebStream =>
      var decoded :- DecodeLeb(data[pos..]);
      Ok((pos + decoded.1, decoded.0))
  }

  /** Over one record. */
  function Skip(kind: StreamKind, data: seq<byte>, pos: nat): (r: Result<nat>)
    requires pos <= |data|
    ensures r.Ok? ==> pos < r.value <= |data|
  {
    var record :- RecordAt(kind, data, pos);
    if record.0 + record.1 >= TWO_64 then Err(ArithOverflow)
    else if record.0 + record.1 > |data| then Err(OffsetRange)
    else Ok(record.0 + record.1)
  }

  /** The value of the record at `pos`. */
  function StreamValue(kind: StreamKind, data: seq<byte>, pos: nat): Result<CoveValue>
    requires pos <= |data|
  {
    if kind == VarintStream then
      if pos >= |data| then Err(OffsetRange)
      else
        var decoded :- DecodeLeb(data[pos..]);
        Ok(Varint(decoded.0))
    else
      var record :- RecordAt(kind, data, pos);
      var bytes :- ReadRangeChecked(data, record.0, record.1);
      Ok(Bytes(bytes))
  }

  /** Where the scan of the rows before `row` ends. */
  function SkipTo(kind: StreamKind, data: seq<byte>, row: nat): (r: Result<nat>)
    ensures r.Ok? ==> r.value <= |data|
  {
    if row == 0 then Ok(0)
    else
      var pos :- SkipTo(kind, data, row - 1);
      Skip(kind, data, pos)
  }

  lemma {:induction false} SkipToPrefix(kind: StreamKind, data: seq<byte>, row: nat, n: nat)
    requires row <= n
    ensures SkipTo(kind, data, row).Err? ==> SkipTo(kind, data, n) == SkipTo(kind, data, row)
    ensures SkipTo(kind, data, n).Ok? ==> SkipTo(kind, data, row).Ok?
    decreases n - row
  {
    hide Skip;
    if row < n {
      SkipToPrefix(kind, data, row, n - 1);
    }
  }

  /** A record that can be skipped can be read, and the other way round. */
  lemma SkipReads(kind: StreamKind, data: seq<byte>, pos: nat)
    requires pos <= |data| < TWO_64
    ensures Skip(kind, data, pos).Ok? <==> StreamValue(kind, data, pos).Ok?
  {
  }

  /** The scalar read: over the rows before, then the row. */
  function StreamRow(kind: StreamKind, data: seq<byte>, row: nat): Result<CoveValue> {
    var pos :- SkipTo(kind, data, row);
    StreamValue(kind, data, pos)
  }

  method ReadStreamRow(kind: StreamKind, data: seq<byte>, row: nat) returns (r: Result<CoveValue>)
    ensures r == StreamRow(kind, data, row)
  {
    hide Skip;
    var pos := 0;
    for i := 0 to row
      invariant SkipTo(kind, data, i) == Ok(pos) && pos <= |data|
    {
      var next := Skip(kind, data, pos);
      if next.Err? {
        SkipToPrefix(kind, data, i + 1, row);
        return Err(next.error);
      }
      pos := next.value;
    }
    r := StreamValue(kind, data, pos);
  }

  // ---- one row ----------------------------------------------------------------------------------

  function FromCode(a: EncodedArray, code: nat): Result<CoveValue> {
    match a.dictionary
    case Some(dictionary) =>
      var value :- DecodeValue(dictionary, code);
      Ok(DictValue(value))
    case None => Ok(FileCodeValue(code))
  }

  /** `value_from_i64`. */
  function FromInt(a: EncodedArray, v: i64): Result<CoveValue> {
    match a.physical
    case FileCodeKind => if 0 <= v < TWO_32 then FromCode(a, v) else Err(PageCorrupt)
    case NumCodeKind => if v >= 0 then Ok(NumCodeValue(v)) else Err(PageCorrupt)
    case BooleanKind =>
      if v == 0 then Ok(BooleanValue(false)) else if v == 1 then Ok(BooleanValue(true)) else Err(PageCorrupt)
    case _ => Ok(Int64Value(v))
  }

  /** `value_from_local_codebook`. */
  function FromCodebook(a: EncodedArray, v: CodebookValue): Result<CoveValue> {
    match v
    case CodebookFileCode(code) => FromCode(a, code)
    case CodebookNumCode(number) => Ok(NumCodeValue(number))
    case CodebookBoolean(b) => Ok(BooleanValue(b))
    case CodebookBytes(bytes) => Ok(OwnedBytes(bytes))
  }

  /** A fixed-width slot; nothing precedes a constant. */
  function FixedSlot(a: EncodedArray, offset: nat, width: nat): Result<CoveValue> {
    if offset >= TWO_64 then Err(ArithOverflow)
    else
      var bytes :- ReadRangeChecked(a.page.data, offset, width);
      Ok(Bytes(bytes))
  }

  function CodeSlot(data: seq<byte>, row: nat, width: nat): Result<nat> {
    if row * width >= TWO_64 then Err(ArithOverflow)
    else
      var bytes :- ReadRangeChecked(data, row * width, width);
      Ok(FromLE(bytes))
  }

  /** `decode_present_row`. */
  function PresentRow(d: Decoders, a: EncodedArray, row: nat): Result<CoveValue> {
    if StreamOf(a).Some? then StreamRow(StreamOf(a).value, a.page.data, row)
    else if IsCascade(a.encoding) then
      var values :- d.cascade(a.encoding, a.page.data);
      if |values| != a.page.rowCount || row >= |values| then Err(PageCorrupt) else FromInt(a, values[row])
    else match a.encoding
      case ValidityEncoding =>
        if row / 8 >= |a.page.data| then Err(OffsetRange) else Ok(ValidityBit(Bit(a.page.data[row / 8], row % 8)))
      case ConstantEncoding =>
        if FixedWidthOf(a.logical).None? then Err(UnsupportedEncoding)
        else FixedSlot(a, 0, FixedWidthOf(a.logical).value)
      case FileCodeEncoding =>
        var code :- CodeSlot(a.page.data, row, 4);
        FromCode(a, code)
      case NumCodeEncoding =>
        var code :- CodeSlot(a.page.data, row, 8);
        Ok(NumCodeValue(code))
      case PlainFixed =>
        if FixedWidthOf(a.logical).None? then Err(UnsupportedEncoding)
        else FixedSlot(a, row * FixedWidthOf(a.logical).value, FixedWidthOf(a.logical).value)
      case LocalCodebook =>
        var values :- d.codebook(a.page.data);
        if |values| != a.page.rowCount || row >= |values| then Err(PageCorrupt) else FromCodebook(a, values[row])
      case CanonicalEncoding =>
        if a.logical == NullType then Ok(NullValue)
        else if a.logical == Bool then Err(UnsupportedEncoding)
        else if FixedWidthOf(a.logical).None? then Err(UnsupportedEncoding)
        else FixedSlot(a, row * FixedWidthOf(a.logical).value, FixedWidthOf(a.logical).value)
      case _ => Err(UnsupportedEncoding)
  }

  /** `decode_row`. */
  function DecodeRow(d: Decoders, a: EncodedArray, row: nat): Result<CoveValue> {
    var isNull :- IsNullRow(a.page, row);
    if isNull then Ok(NullValue) else PresentRow(d, a, row)
  }

  /** `decode_row` as it runs: variable-width rows by scanning the rows before them. */
  method DecodeOneRow(d: Decoders, a: EncodedArray, row: nat) returns (r: Result<CoveValue>)
    ensures r == DecodeRow(d, a, row)
  {
    var isNull := IsNullRow(a.page, row);
    if isNull.Err? {
      return Err(isNull.error);
    }
    if isNull.value {
      return Ok(NullValue);
    }
    if StreamOf(a).Some? {
      r := ReadStreamRow(StreamOf(a).value, a.page.data, row);
      return;
    }
    r := PresentRow(d, a, row);
  }

  // ---- all rows -----------------------------------------------------------------------------------

  /** The value a bulk decode gives a row: a null row must still be there in the formats that lay rows end to end. */
  function BulkRow(d: Decoders, a: EncodedArray, row: nat): Result<CoveValue> {
    if a.encoding == CanonicalEncoding && a.logical == NullType then Ok(NullValue)
    else if StreamOf(a).Some? || (a.encoding == CanonicalEncoding && a.logical != Bool) then
      var value :- PresentRow(d, a, row);
      var isNull :- IsNullRow(a.page, row);
      Ok(if isNull then NullValue else value)
    else DecodeRow(d, a, row)
  }

  /** A transform page must hold one value per row, even if no row is read. */
  function PageCheck(d: Decoders, a: EncodedArray): Result<()> {
    if IsCascade(a.encoding) then
      var values :- d.cascade(a.encoding, a.page.data);
      if |values| != a.page.rowCount then Err(PageCorrupt) else Ok(())
    else if a.encoding == LocalCodebook then
      var values :- d.codebook(a.page.data);
      if |values| != a.page.rowCount then Err(PageCorrupt) else Ok(())
    else if a.encoding == CanonicalEncoding && StreamOf(a).None? && a.logical != NullType && a.logical != Bool
      && FixedWidthOf(a.logical).None? then
      Err(UnsupportedEncoding)
    else Ok(())
  }

  function BulkRows(d: Decoders, a: EncodedArray, n: nat): (r: Result<seq<CoveValue>>)
    ensures r.Ok? ==> |r.value| == n
  {
    if n == 0 then Ok([])
    else
      var done :- BulkRows(d, a, n - 1);
      var value :- BulkRow(d, a, n - 1);
      Ok(done + [value])
  }

  /** `decode_all_rows`. */
  function AllRows(d: Decoders, a: EncodedArray): (r: Result<seq<CoveValue>>)
    ensures r.Ok? ==> |r.value| == a.page.rowCount
  {
    var _ :- PageCheck(d, a);
    BulkRows(d, a, a.page.rowCount)
  }

  lemma {:induction false} BulkRowsFail(d: Decoders, a: EncodedArray, n: nat, m: nat)
    requires n <= m && BulkRows(d, a, n).Err?
    ensures BulkRows(d, a, m).Err?
    decreases m - n
  {
    hide BulkRow;
    if n < m {
      BulkRowsFail(d, a, n, m - 1);
    }
  }

  lemma {:induction false} BulkRowsEach(d: Decoders, a: EncodedArray, n: nat, i: nat)
    requires i < n && BulkRows(d, a, n).Ok?
    ensures BulkRow(d, a, i) == Ok(BulkRows(d, a, n).value[i])
  {
    hide BulkRow;
    if i < n - 1 {
      BulkRowsEach(d, a, n - 1, i);
    }
  }

  /** Bulk and scalar access agree on every row whose null flag can be read. */
  lemma BulkIsScalar(d: Decoders, a: EncodedArray, i: nat)
    requires AllRows(d, a).Ok? && i < a.page.rowCount
    ensures DecodeRow(d, a, i) == Ok(AllRows(d, a).value[i]) <==> IsNullRow(a.page, i).Ok?
    ensures !(a.encoding == CanonicalEncoding && a.logical == NullType) ==> IsNullRow(a.page, i).Ok?
  {
    BulkRowsEach(d, a, a.page.rowCount, i);
    hide BulkRows;
  }

  /** A canonical column of the null type decodes in bulk whatever its bitmap, but not row by row. */
  lemma NullColumnNeedsItsBitmap(d: Decoders)
    ensures var a := EncodedArray(NullType, VarBytesKind, CanonicalEncoding, Page(1, Some(Bitmap([], 1)), []), None);
      AllRows(d, a) == Ok([NullValue]) && DecodeRow(d, a, 0) == Err(OffsetRange)
  {
    var a := EncodedArray(NullType, VarBytesKind, CanonicalEncoding, Page(1, Some(Bitmap([], 1)), []), None);
    assert BulkRows(d, a, 0) == Ok([]);
    assert BulkRow(d, a, 0) == Ok(NullValue);
    var none: seq<CoveValue> := [];
    assert BulkRows(d, a, 1) == Ok(none + [NullValue]);
    assert none + [NullValue] == [NullValue];
    assert PageCheck(d, a) == Ok(());
  }

  // ---- the bulk loops -------------------------------------------------------------------------------

  /** `collect_rows`, and the loop over fixed-width canonical rows. */
  method CollectBulk(d: Decoders, a: EncodedArray) returns (r: Result<seq<CoveValue>>)
    ensures r.Ok? <==> BulkRows(d, a, a.page.rowCount).Ok?
    ensures r.Ok? ==> r == BulkRows(d, a, a.page.rowCount)
  {
    hide BulkRow;
    var out: seq<CoveValue> := [];
    for row := 0 to a.page.rowCount
      invariant BulkRows(d, a, row) == Ok(out)
    {
      var value := BulkRow(d, a, row);
      if value.Err? {
        BulkRowsFail(d, a, row + 1, a.page.rowCount);
        return Err(value.error);
      }
      out := out + [value.value];
    }
    return Ok(out);
  }

  /** A transform page decoded once: what the scalar read makes of row `row`. */
  lemma DecodedRow(d: Decoders, a: EncodedArray, row: nat)
    requires PageCheck(d, a).Ok? && row < a.page.rowCount
    ensures IsCascade(a.encoding) ==>
      d.cascade(a.encoding, a.page.data).Ok? && |d.cascade(a.encoding, a.page.data).value| > row
    ensures IsCascade(a.encoding) ==>
      BulkRow(d, a, row) == UnlessNull(a, row, FromInt(a, d.cascade(a.encoding, a.page.data).value[row]))
    ensures a.encoding == LocalCodebook ==> d.codebook(a.page.data).Ok? && |d.codebook(a.page.data).value| > row
    ensures a.encoding == LocalCodebook ==>
      BulkRow(d, a, row) == UnlessNull(a, row, FromCodebook(a, d.codebook(a.page.data).value[row]))
  {
  }

  function UnlessNull(a: EncodedArray, row: nat, value: Result<CoveValue>): Result<CoveValue> {
    var isNull :- IsNullRow(a.page, row);
    if isNull then Ok(NullValue) else value
  }

  /** A row of a variable-width page, the scan standing at it. */
  lemma StreamBulkRow(d: Decoders, a: EncodedArray, kind: StreamKind, row: nat, pos: nat)
    requires StreamOf(a) == Some(kind) && SkipTo(kind, a.page.data, row) == Ok(pos) && pos <= |a.page.data|
    ensures var value, isNull := StreamValue(kind, a.page.data, pos), IsNullRow(a.page, row);
      BulkRow(d, a, row) ==
        if value.Err? then Err(value.error) else if isNull.Err? then Err(isNull.error)
        else Ok(if isNull.value then NullValue else value.value)
  {
    hide StreamValue, SkipTo, IsNullRow;
  }

  /** `values_from_i64_values` and `values_from_local_codebook_values`: the page is decoded once. */
  method CollectDecoded(d: Decoders, a: EncodedArray) returns (r: Result<seq<CoveValue>>)
    requires IsCascade(a.encoding) || a.encoding == LocalCodebook
    ensures r.Ok? <==> AllRows(d, a).Ok?
    ensures r.Ok? ==> r == AllRows(d, a)
  {
    hide BulkRow, UnlessNull, FromInt, FromCodebook;
    var ints: seq<i64>, entries: seq<CodebookValue> := [], [];
    if IsCascade(a.encoding) {
      var decoded := d.cascade(a.encoding, a.page.data);
      if decoded.Err? {
        return Err(decoded.error);
      }
      ints := decoded.value;
    } else {
      var decoded := d.codebook(a.page.data);
      if decoded.Err? {
        return Err(decoded.error);
      }
      entries := decoded.value;
    }
    if |ints| + |entries| != a.page.rowCount {
      return Err(PageCorrupt);
    }
    var out: seq<CoveValue> := [];
    for row := 0 to a.page.rowCount
      invariant BulkRows(d, a, row) == Ok(out)
    {
      DecodedRow(d, a, row);
      var decoded := if IsCascade(a.encoding) then FromInt(a, ints[row]) else FromCodebook(a, entries[row]);
      var value := UnlessNull(a, row, decoded);
      if value.Err? {
        BulkRowsFail(d, a, row + 1, a.page.rowCount);
        return Err(value.error);
      }
      out := out + [value.value];
    }
    return Ok(out);
  }

  /** The loops over variable-width rows: one running position for the page. */
  method CollectStream(d: Decoders, a: EncodedArray, kind: StreamKind) returns (r: Result<seq<CoveValue>>)
    requires StreamOf(a) == Some(kind) && |a.page.data| < TWO_64
    ensures r.Ok? <==> BulkRows(d, a, a.page.rowCount).Ok?
    ensures r.Ok? ==> r == BulkRows(d, a, a.page.rowCount)
  {
    hide Skip, StreamValue, IsNullRow, BulkRow;
    var data := a.page.data;
    var out: seq<CoveValue> := [];
    var pos := 0;
    for row := 0 to a.page.rowCount
      invariant BulkRows(d, a, row) == Ok(out) && SkipTo(kind, data, row) == Ok(pos) && pos <= |data|
    {
      var value, next := StreamValue(kind, data, pos), Skip(kind, data, pos);
      SkipReads(kind, data, pos);
      StreamBulkRow(d, a, kind, row, pos);
      var isNull := IsNullRow(a.page, row);
      if value.Err? || isNull.Err? {
        BulkRowsFail(d, a, row + 1, a.page.rowCount);
        return Err(if value.Err? then value.error else isNull.error);
      }
      out := out + [if isNull.value then NullValue else value.value];
      pos := next.value;
    }
    return Ok(out);
  }

  method DecodeAllRows(d: Decoders, a: EncodedArray) returns (r: Result<seq<CoveValue>>)
    requires |a.page.data| < TWO_64
    ensures r.Ok? <==> AllRows(d, a).Ok?
    ensures r.Ok? ==> r == AllRows(d, a)
  {
    hide BulkRows;
    if IsCascade(a.encoding) || a.encoding == LocalCodebook {
      r := CollectDecoded(d, a);
      return;
    }
    var check := PageCheck(d, a);
    if check.Err? {
      return Err(check.error);
    }
    if StreamOf(a).Some? {
      r := CollectStream(d, a, StreamOf(a).value);
    } else {
      r := CollectBulk(d, a);
    }
  }
}
