/** Prepared access to the rows of a page (`PreparedEncodedArray`). */
module PreparedAccess {
  import opened Wrappers
  import opened ArrayPage
  import opened ColumnTypes
  import opened RowAccess

  /** What preparing leaves behind: nothing, the offset of every row, or every value. */
  datatype Prepared = Direct | RowOffsets(kind: StreamKind, offsets: seq<nat>) | DecodedValues(values: seq<CoveValue>)

  /** The offsets are where a scan from the start finds the rows. */
  predicate OffsetsOf(kind: StreamKind, data: seq<byte>, offsets: seq<nat>) {
    forall row :: 0 <= row < |offsets| ==> SkipTo(kind, data, row) == Ok(offsets[row]) && offsets[row] <= |data|
  }

  /** `VariableOffsets::plain_varint`, `varbytes` and `canonical_length_prefixed`. */
  method FindOffsets(kind: StreamKind, data: seq<byte>, rowCount: u64) returns (r: Result<seq<nat>>)
    ensures r.Ok? <==> SkipTo(kind, data, rowCount).Ok?
    ensures r.Ok? ==> |r.value| == rowCount && OffsetsOf(kind, data, r.value)
  {
    hide Skip;
    var offsets: seq<nat>, pos := [], 0;
    for row := 0 to rowCount
      invariant |offsets| == row && OffsetsOf(kind, data, offsets)
      invariant SkipTo(kind, data, row) == Ok(pos) && pos <= |data|
    {
      offsets := offsets + [pos];
      var next := Skip(kind, data, pos);
      if next.Err? {
        SkipToPrefix(kind, data, row + 1, rowCount);
        return Err(next.error);
      }
      pos := next.value;
    }
    return Ok(offsets);
  }

  predicate DecodesWhole(e: Encoding) {
    IsCascade(e) || e == LocalCodebook
  }

  /** `a` was prepared into `p`. */
  predicate PreparedFor(d: Decoders, a: EncodedArray, p: Prepared) {
    match p
    case Direct => StreamOf(a).None? && !DecodesWhole(a.encoding)
    case RowOffsets(kind, offsets) =>
      StreamOf(a) == Some(kind) && |offsets| == a.page.rowCount && OffsetsOf(kind, a.page.data, offsets)
    case DecodedValues(values) => DecodesWhole(a.encoding) && AllRows(d, a) == Ok(values)
  }

  /** `PreparedEncodedArray::new`: it fails exactly when the page cannot be walked or decoded to its end. */
  method Prepare(d: Decoders, a: EncodedArray) returns (r: Result<Prepared>)
    requires |a.page.data| < TWO_64
    ensures StreamOf(a).Some? ==> (r.Ok? <==> SkipTo(StreamOf(a).value, a.page.data, a.page.rowCount).Ok?)
    ensures DecodesWhole(a.encoding) ==> (r.Ok? <==> AllRows(d, a).Ok?)
    ensures StreamOf(a).None? && !DecodesWhole(a.encoding) ==> r.Ok?
    ensures r.Ok? ==> PreparedFor(d, a, r.value)
  {
    hide SkipTo, AllRows, OffsetsOf;
    if StreamOf(a).Some? {
      var offsets := FindOffsets(StreamOf(a).value, a.page.data, a.page.rowCount);
      if offsets.Err? {
        return Err(offsets.error);
      }
      return Ok(RowOffsets(StreamOf(a).value, offsets.value));
    }
    if DecodesWhole(a.encoding) {
      var values := DecodeAllRows(d, a);
      if values.Err? {
        return Err(values.error);
      }
      return Ok(DecodedValues(values.value));
    }
    return Ok(Direct);
  }

  /** `PreparedEncodedArray::decode_row`. */
  function PreparedRow(d: Decoders, a: EncodedArray, p: Prepared, row: nat): Result<CoveValue>
    requires PreparedFor(d, a, p)
  {
    if row >= a.page.rowCount then Err(OffsetRange)
    else match p
      case Direct => DecodeRow(d, a, row)
      case DecodedValues(values) => if row < |values| then Ok(values[row]) else Err(OffsetRange)
      case RowOffsets(kind, offsets) =>
        var isNull :- IsNullRow(a.page, row);
        if isNull then Ok(NullValue)
        else if row >= |offsets| then Err(OffsetRange)
        else StreamValue(kind, a.page.data, offsets[row])
  }

  /** Prepared access is scalar access, row for row and failure for failure. */
  lemma PreparedIsScalar(d: Decoders, a: EncodedArray, p: Prepared, row: nat)
    requires PreparedFor(d, a, p)
    ensures PreparedRow(d, a, p, row) == DecodeRow(d, a, row)
  {
    hide SkipTo, StreamValue, AllRows;
    if row < a.page.rowCount && p.DecodedValues? {
      BulkIsScalar(d, a, row);
    }
  }

  /** `decode_selected_rows`. */
  method PreparedSelected(d: Decoders, a: EncodedArray, p: Prepared, rows: seq<nat>) returns (r: Result<seq<CoveValue>>)
    requires PreparedFor(d, a, p)
    ensures r.Ok? <==> forall i :: 0 <= i < |rows| ==> DecodeRow(d, a, rows[i]).Ok?
    ensures r.Ok? ==> |r.value| == |rows| && forall i :: 0 <= i < |rows| ==> DecodeRow(d, a, rows[i]) == Ok(r.value[i])
  {
    hide PreparedFor, PreparedRow, DecodeRow;
    var out: seq<CoveValue> := [];
    for i := 0 to |rows|
      invariant |out| == i && forall k :: 0 <= k < i ==> DecodeRow(d, a, rows[k]) == Ok(out[k])
    {
      PreparedIsScalar(d, a, p, rows[i]);
      var value := PreparedRow(d, a, p, rows[i]);
      if value.Err? {
        return Err(value.error);
      }
      out := out + [value.value];
    }
    return Ok(out);
  }

  /** `PreparedEncodedArray::decode_all_rows`. */
  method PreparedAll(d: Decoders, a: EncodedArray, p: Prepared) returns (r: Result<seq<CoveValue>>)
    requires PreparedFor(d, a, p)
    ensures r.Ok? <==> forall row :: 0 <= row < a.page.rowCount ==> DecodeRow(d, a, row).Ok?
    ensures r.Ok? ==> |r.value| == a.page.rowCount
    ensures r.Ok? ==> forall row :: 0 <= row < a.page.rowCount ==> DecodeRow(d, a, row) == Ok(r.value[row])
  {
    hide PreparedRow, DecodeRow, AllRows;
    if p.DecodedValues? {
      forall row | 0 <= row < a.page.rowCount ensures DecodeRow(d, a, row) == Ok(p.values[row]) {
        BulkIsScalar(d, a, row);
      }
      return Ok(p.values);
    }
    var out: seq<CoveValue> := [];
    for row := 0 to a.page.rowCount
      invariant |out| == row && forall k :: 0 <= k < row ==> DecodeRow(d, a, k) == Ok(out[k])
    {
      PreparedIsScalar(d, a, p, row);
      var value := PreparedRow(d, a, p, row);
      if value.Err? {
        return Err(value.error);
      }
      out := out + [value.value];
    }
    return Ok(out);
  }
}
