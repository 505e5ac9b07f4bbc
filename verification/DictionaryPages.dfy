/** Reading back a column that dictionary synthesis rewrote: pages of FileCodes, with the file's dictionary, give the
    canonical bytes of the original rows. */
module DictionaryPages {
  import opened Wrappers
  import opened Wire
  import Canonical
  import CanonicalAcceptance
  import opened ArrayPage
  import opened Selection
  import opened ColumnTypes
  import opened ConvertedColumns
  import opened DictionaryFormat
  import opened Dictionary
  import opened Synthesis
  import opened RowAccess
  import opened PreparedAccess
  import opened Paging
  import PageRoundTrip
  import DenseRemap
  import CodeColumns
  import SignedColumns
  import opened SourceOrder
  import ClusterMeaning

  /** What a reader with the dictionary must see in a row of the original column. */
  function OriginalValue(before: Column, row: nat): CoveValue
    requires before.values.VarBytes? && row < |before.values.blobs|
  {
    if IsNull(before, row) then NullValue
    else DictValue(RawBytes(Canonical.LengthPrefixed(before.values.blobs[row])))
  }

  function OriginalValues(before: Column, start: nat, len: nat): (values: seq<CoveValue>)
    requires before.values.VarBytes? && start + len <= |before.values.blobs|
    ensures |values| == len && forall i :: 0 <= i < len ==> values[i] == OriginalValue(before, start + i)
  {
    seq(len, i requires 0 <= i < len => OriginalValue(before, start + i))
  }

  // ---- one code -----------------------------------------------------------------------------------------

  /** The code of a row of a rewritten column finds the row's canonical bytes, under the tag of its type. */
  lemma CodeMeansOriginal(before: Column, after: Column, d: FileDictionary, row: nat)
    requires before.values.VarBytes? && SameMeaning(before, after, d)
    requires row < |before.values.blobs| && !IsNull(before, row)
    ensures var code := after.values.codes[row];
      && DecodeValue(d, code) == Ok(RawBytes(Canonical.LengthPrefixed(before.values.blobs[row])))
      && code < |d.entries| && d.entries[code].valueTag == (if before.logical == Utf8 then 12 else 13)
  {
    assert RowMeans(before, row, d, after.values.codes[row]);
    KeyHoldsBytes(before.logical, before.values.blobs[row]);
    KeyTag(before.logical, before.values.blobs[row]);
    hide KeyFromLogicalBytes, DecodeValue, Canonical.LengthPrefixed;
  }

  lemma KeyTag(logical: LogicalType, blob: Canonical.Blob)
    requires KeyFromLogicalBytes(logical, blob).Ok?
    ensures logical == Utf8 || logical == Binary
    ensures KeyFromLogicalBytes(logical, blob).value.tag == (if logical == Utf8 then 12 else 13)
  {
  }

  /** Across the rewritten columns of a table, FileCodes order as the original bytes do behind their lengths, strings
      before binary values. */
  lemma CodesFollowBytes(json: JsonCheck, before: seq<Column>, after: seq<Column>, policy: DictionaryPolicy,
      d: FileDictionary, i: nat, row: nat, j: nat, other: nat)
    requires Synthesized(before, after, policy, d) && FromTaken(json, before, policy, d)
    requires i < |before| && Taken(before[i], policy) && j < |before| && Taken(before[j], policy)
    requires before[i].values.VarBytes? && row < |before[i].values.blobs| && !IsNull(before[i], row)
    requires before[j].values.VarBytes? && other < |before[j].values.blobs| && !IsNull(before[j], other)
    ensures after[i].values.FileCodes? && row < |after[i].values.codes|
    ensures after[j].values.FileCodes? && other < |after[j].values.codes|
    ensures var x := Canonical.LengthPrefixed(before[i].values.blobs[row]);
      var y := Canonical.LengthPrefixed(before[j].values.blobs[other]);
      after[i].values.codes[row] < after[j].values.codes[other] <==>
        || (before[i].logical == Utf8 && before[j].logical == Binary)
        || (before[i].logical == before[j].logical && OctetsBefore(x, y))
  {
    hide Synthesized, FromTaken, Taken, KeyFromLogicalBytes, Canonical.LengthPrefixed, OctetsBefore;
    TableCodesAreRanks(json, before, after, policy, d, i, row, j, other);
    var x, y := before[i].values.blobs[row], before[j].values.blobs[other];
    KeyTag(before[i].logical, x);
    KeyTag(before[j].logical, y);
    KeyHoldsBytes(before[i].logical, x);
    KeyHoldsBytes(before[j].logical, y);
    ClusterMeaning.BytesOrderExactly(Canonical.LengthPrefixed(x), Canonical.LengthPrefixed(y));
  }

  // ---- pages that hold codes ----------------------------------------------------------------------------

  /** The page holds these FileCodes, one per row: as slots, transformed, or in a local codebook. */
  predicate HoldsCodes(decoders: Decoders, a: EncodedArray, codes: seq<u32>) {
    a.page.rowCount == |codes| &&
    if IsCascade(a.encoding) then
      a.physical == FileCodeKind && var values := decoders.cascade(a.encoding, a.page.data);
      values.Ok? && |values.value| == |codes| && forall i :: 0 <= i < |codes| ==> values.value[i] == codes[i]
    else if a.encoding == LocalCodebook then
      var values := decoders.codebook(a.page.data);
      && values.Ok? && |values.value| == |codes|
      && forall i :: 0 <= i < |codes| ==> values.value[i] == CodebookFileCode(codes[i])
    else
      && a.encoding == FileCodeEncoding && |a.page.data| < TWO_64
      && forall i :: 0 <= i < |codes| ==> SlotIs(a.page.data, i, codes[i])
  }

  predicate SlotIs(data: seq<byte>, i: nat, code: u32) {
    4 * i + 4 <= |data| && data[4 * i..4 * i + 4] == ToLE(code, 4)
  }

  lemma SlotReads(data: seq<byte>, i: nat, code: u32)
    requires SlotIs(data, i, code) && |data| < TWO_64
    ensures CodeSlot(data, i, 4) == Ok(code as nat)
  {
    hide ToLE, FromLE;
    Pow256Values();
    FromToLE(code, 4);
  }

  /** A row of such a page is null, or what its code decodes to in the dictionary. */
  lemma CodeRowReads(decoders: Decoders, a: EncodedArray, codes: seq<u32>, d: FileDictionary, i: nat, isNull: bool,
      value: DictionaryValue)
    requires HoldsCodes(decoders, a, codes) && i < |codes| && a.dictionary == Some(d)
    requires IsNullRow(a.page, i) == Ok(isNull) && (!isNull ==> DecodeValue(d, codes[i]) == Ok(value))
    ensures DecodeRow(decoders, a, i) == Ok(if isNull then NullValue else DictValue(value))
    ensures BulkRow(decoders, a, i) == DecodeRow(decoders, a, i)
  {
    hide DecodeValue, IsNullRow, FromLE, ToLE;
    if a.encoding == FileCodeEncoding {
      SlotReads(a.page.data, i, codes[i]);
    }
    hide CodeSlot, SlotIs;
  }

  lemma {:induction false} CodeRowsRead(decoders: Decoders, a: EncodedArray, values: seq<CoveValue>, n: nat)
    requires n <= |values| && forall i :: 0 <= i < n ==> BulkRow(decoders, a, i) == Ok(values[i])
    ensures BulkRows(decoders, a, n) == Ok(values[..n])
  {
    hide BulkRow;
    if n > 0 {
      CodeRowsRead(decoders, a, values, n - 1);
      assert values[..n] == values[..n - 1] + [values[n - 1]];
    }
  }

  lemma CodePagePasses(decoders: Decoders, a: EncodedArray, codes: seq<u32>)
    requires HoldsCodes(decoders, a, codes)
    ensures PageCheck(decoders, a) == Ok(())
  {
  }

  // ---- pages of a rewritten column ----------------------------------------------------------------------

  function WithDictionary(a: EncodedArray, d: FileDictionary): EncodedArray {
    a.(dictionary := Some(d))
  }

  function CodesAt(c: Column, start: nat, len: nat): (codes: seq<u32>)
    requires c.values.FileCodes? && start + len <= |c.values.codes|
    ensures |codes| == len && forall i :: 0 <= i < len ==> codes[i] == c.values.codes[start + i]
  {
    c.values.codes[start..start + len]
  }

  lemma SlotOfCode(c: Column, start: nat, len: nat, data: seq<byte>, i: nat)
    requires c.values.FileCodes? && start + len <= |c.values.codes| && i < len
    requires EncodeRows(c.values, start, len) == Ok(data)
    ensures SlotIs(data, i, c.values.codes[start + i])
  {
    hide EncodeRows, ToLE;
    PageRoundTrip.SlotOfRow(c.values, start, len, i);
  }

  lemma CutPageHoldsCodes(decoders: Decoders, c: Column, d: FileDictionary, start: nat, len: u32, spec: PageSpec)
    requires c.values.FileCodes? && c.encoding == FileCodeEncoding && start + len <= |c.values.codes|
    requires CutPage(c, start, len) == Ok(spec) && |spec.payload| < TWO_63
    ensures PageRoundTrip.ArrayOf(c, spec).Ok?
    ensures var a := WithDictionary(PageRoundTrip.ArrayOf(c, spec).value, d);
      && HoldsCodes(decoders, a, CodesAt(c, start, len))
      && forall i :: 0 <= i < len ==> IsNullRow(a.page, i) == Ok(IsNull(c, start + i))
  {
    hide EncodeRows, PageRoundTrip.ArrayOf, IsNullRow, CutPage, SlotIs;
    PageRoundTrip.ArrayOfPage(c, start, len, spec);
    var a := PageRoundTrip.ArrayOf(c, spec).value;
    var codes := CodesAt(c, start, len);
    forall i | 0 <= i < |codes| ensures SlotIs(a.page.data, i, codes[i]) {
      SlotOfCode(c, start, len, a.page.data, i);
    }
  }

  lemma RewrittenRowReads(decoders: Decoders, before: Column, after: Column, d: FileDictionary, a: EncodedArray,
      start: nat, len: nat, i: nat)
    requires before.values.VarBytes? && SameMeaning(before, after, d) && start + len <= |after.values.codes| && i < len
    requires HoldsCodes(decoders, a, CodesAt(after, start, len)) && a.dictionary == Some(d)
    requires IsNullRow(a.page, i) == Ok(IsNull(after, start + i))
    ensures DecodeRow(decoders, a, i) == Ok(OriginalValue(before, start + i))
    ensures BulkRow(decoders, a, i) == Ok(OriginalValue(before, start + i))
  {
    hide HoldsCodes, DecodeRow, BulkRow, IsNullRow, DecodeValue, RowMeans, Canonical.LengthPrefixed;
    var row := start + i;
    var value := RawBytes(Canonical.LengthPrefixed(before.values.blobs[row]));
    if !IsNull(before, row) {
      CodeMeansOriginal(before, after, d, row);
    }
    CodeRowReads(decoders, a, CodesAt(after, start, len), d, i, IsNull(before, row), value);
  }

  /** Any page that holds the codes of a rewritten column, read with the dictionary: scalar, bulk and prepared access
      all give the canonical bytes of the original rows, and nulls for its null rows. */
  lemma RewrittenPageReads(decoders: Decoders, before: Column, after: Column, d: FileDictionary, a: EncodedArray,
      start: nat, len: nat, i: nat, p: Prepared)
    requires before.values.VarBytes? && SameMeaning(before, after, d) && start + len <= |after.values.codes| && i < len
    requires HoldsCodes(decoders, a, CodesAt(after, start, len)) && a.dictionary == Some(d)
    requires forall k :: 0 <= k < len ==> IsNullRow(a.page, k) == Ok(IsNull(after, start + k))
    requires PreparedFor(decoders, a, p)
    ensures DecodeRow(decoders, a, i) == Ok(OriginalValue(before, start + i))
    ensures AllRows(decoders, a) == Ok(OriginalValues(before, start, len))
    ensures PreparedRow(decoders, a, p, i) == Ok(OriginalValue(before, start + i))
  {
    RewrittenShape(before, after, d);
    hide DecodeRow, BulkRow, IsNullRow, SameMeaning, OriginalValue, PageCheck, PreparedFor, PreparedRow;
    CodePagePasses(decoders, a, CodesAt(after, start, len));
    var values := OriginalValues(before, start, len);
    assert a.page.rowCount == len;
    hide HoldsCodes;
    forall k | 0 <= k < len
      ensures DecodeRow(decoders, a, k) == Ok(values[k]) && BulkRow(decoders, a, k) == Ok(values[k])
    {
      RewrittenRowReads(decoders, before, after, d, a, start, len, k);
    }
    CodeRowsRead(decoders, a, values, len);
    assert values[..len] == values;
    PreparedIsScalar(decoders, a, p, i);
  }

  /** The pages the converter cuts from a rewritten column are such pages. */
  lemma SynthesizedPageReads(decoders: Decoders, before: Column, after: Column, d: FileDictionary, start: nat,
      len: u32, spec: PageSpec, i: nat, p: Prepared)
    requires before.values.VarBytes? && SameMeaning(before, after, d) && start + len <= |after.values.codes| && i < len
    requires CutPage(after, start, len) == Ok(spec) && |spec.payload| < TWO_63
    ensures PageRoundTrip.ArrayOf(after, spec).Ok?
    ensures var a := WithDictionary(PageRoundTrip.ArrayOf(after, spec).value, d);
      && DecodeRow(decoders, a, i) == Ok(OriginalValue(before, start + i))
      && AllRows(decoders, a) == Ok(OriginalValues(before, start, len))
      && (PreparedFor(decoders, a, p) ==> PreparedRow(decoders, a, p, i) == Ok(OriginalValue(before, start + i)))
  {
    hide DecodeRow, AllRows, IsNullRow, SameMeaning, OriginalValue, PreparedFor, PreparedRow, HoldsCodes,
      PageRoundTrip.ArrayOf, CutPage;
    RewrittenShape(before, after, d);
    CutPageHoldsCodes(decoders, after, d, start, len, spec);
    var a := WithDictionary(PageRoundTrip.ArrayOf(after, spec).value, d);
    CodesNeedNoPreparing(decoders, after, start, len, spec, d);
    var direct := Direct;
    RewrittenPageReads(decoders, before, after, d, a, start, len, i, direct);
    if PreparedFor(decoders, a, p) {
      RewrittenPageReads(decoders, before, after, d, a, start, len, i, p);
    }
  }

  lemma RewrittenShape(before: Column, after: Column, d: FileDictionary)
    requires before.values.VarBytes? && SameMeaning(before, after, d)
    ensures after.values.FileCodes? && after.encoding == FileCodeEncoding
    ensures |after.values.codes| == |before.values.blobs|
  {
  }

  lemma CodesNeedNoPreparing(decoders: Decoders, c: Column, start: nat, len: u32, spec: PageSpec, d: FileDictionary)
    requires c.values.FileCodes? && c.encoding == FileCodeEncoding && start + len <= |c.values.codes|
    requires CutPage(c, start, len) == Ok(spec) && |spec.payload| < TWO_63
    ensures PageRoundTrip.ArrayOf(c, spec).Ok?
    ensures PreparedFor(decoders, WithDictionary(PageRoundTrip.ArrayOf(c, spec).value, d), Direct)
  {
    hide CutPage, EncodeRows, PageRoundTrip.ArrayOf;
    PageRoundTrip.ArrayOfPage(c, start, len, spec);
  }

  /** What a reader finds in a row that is not null is a length and the original bytes. */
  lemma OriginalBytesRead(before: Column, row: nat)
    requires before.values.VarBytes? && row < |before.values.blobs| && !IsNull(before, row)
    requires |Canonical.LengthPrefixed(before.values.blobs[row])| < TWO_64
    ensures OriginalValue(before, row).DictValue? && OriginalValue(before, row).value.RawBytes?
    ensures var bytes := OriginalValue(before, row).value.bytes;
      Canonical.DecodeLengthPrefixed(bytes) == Ok((before.values.blobs[row], |bytes|))
  {
    hide Canonical.DecodeLengthPrefixed, Canonical.LengthPrefixed;
    var blob := before.values.blobs[row];
    CanonicalAcceptance.LengthPrefixedRoundTrip(blob, []);
    assert Canonical.LengthPrefixed(blob) + [] == Canonical.LengthPrefixed(blob);
  }

  // ---- Arrow export -------------------------------------------------------------------------------------

  /** A remapped export of a page of a rewritten column always succeeds on a good selection; the key of the `i`-th
      selected row finds the canonical bytes of that row of the original column, unless it is null. */
  lemma RemappedIsOriginal(before: Column, after: Column, d: FileDictionary, start: nat, len: u32, spec: PageSpec,
      selection: RowSelection, i: nat)
    requires before.values.VarBytes? && SameMeaning(before, after, d) && CodeColumns.IsCodePage(after, start, len, spec)
    requires SelectedRows(selection, len).Ok? && i < |SelectedRows(selection, len).value|
    ensures PageRoundTrip.ArrayOf(after, spec).Ok?
    ensures DenseRemap.SelectedCodes(SignedColumns.PageOf(after, spec), selection).Ok?
    ensures var codes := DenseRemap.SelectedCodes(SignedColumns.PageOf(after, spec), selection).value;
      var r := DenseRemap.RemapCodes((code: nat) => DecodeValue(d, code), codes);
      var row := start + SelectedRows(selection, len).value[i];
      && r.Ok? && |r.value.keys.keys| == |SelectedRows(selection, len).value| && row < |before.values.blobs|
      && (CodeColumns.ReadsNull(r.value.keys.nulls, i) <==> IsNull(before, row))
      && (!IsNull(before, row) ==>
            && r.value.keys.keys[i] < |r.value.values|
            && r.value.values[r.value.keys.keys[i]] == RawBytes(Canonical.LengthPrefixed(before.values.blobs[row])))
  {
    hide DenseRemap.SelectedCodes, DenseRemap.RemapCodes, SelectedRows, CutPage, PageRoundTrip.ArrayOf, DecodeValue,
      RowMeans, Canonical.LengthPrefixed, CodeColumns.ReadsNull;
    var entry := (code: nat) => DecodeValue(d, code);
    CodeColumns.SelectedCodesOfColumn(after, start, len, spec, selection);
    var codes := DenseRemap.SelectedCodes(SignedColumns.PageOf(after, spec), selection).value;
    var rows := SelectedRows(selection, len).value;
    forall k | 0 <= k < |codes| && codes[k].Some? ensures entry(codes[k].value).Ok? {
      CodeMeansOriginal(before, after, d, start + rows[k]);
    }
    CodeColumns.RemapFailsExactly(entry, codes);
    CodeColumns.DenseKeysOfColumn(entry, after, start, len, spec, selection, i);
    if !IsNull(before, start + rows[i]) {
      CodeMeansOriginal(before, after, d, start + rows[i]);
    }
  }
}
