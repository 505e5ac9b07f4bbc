/** Arrow dictionary keys of the pages the converter writes for FileCode columns: which row each key is of. */
module CodeColumns {
  import opened Wrappers
  import opened Wire
  import opened Bits
  import opened BitPacking
  import opened FieldCodec
  import opened ArrayPage
  import opened ConvertedColumns
  import opened Selection
  import opened DenseRemap
  import opened Paging
  import opened SignedColumns
  import PageRoundTrip
  import RowAccess

  /** What a row of a FileCode column holds. */
  function CodeOf(c: Column, row: nat): RowCode
    requires c.values.FileCodes? && row < RowCount(c.values)
  {
    if IsNull(c, row) then None else Some(c.values.codes[row])
  }

  predicate IsCodePage(c: Column, start: nat, len: u32, spec: PageSpec) {
    && c.values.FileCodes? && start + len <= RowCount(c.values)
    && CutPage(c, start, len) == Ok(spec) && |spec.payload| < TWO_63
  }

  predicate RowsWithin(c: Column, start: nat, rows: seq<nat>) {
    forall i :: 0 <= i < |rows| ==> start + rows[i] < RowCount(c.values)
  }

  predicate AreCodesOf(codes: seq<RowCode>, c: Column, start: nat, rows: seq<nat>)
    requires c.values.FileCodes? && RowsWithin(c, start, rows)
  {
    |codes| == |rows| && forall i :: 0 <= i < |rows| ==> codes[i] == CodeOf(c, start + rows[i])
  }

  // ---- one row --------------------------------------------------------------------------------------------

  lemma SlotHoldsCode(c: Column, start: nat, len: nat, a: RowAccess.EncodedArray, i: nat)
    requires PageRoundTrip.Reads(c, start, len, a) && c.values.FileCodes? && i < len
    ensures 4 * i + 4 <= |a.page.data| && U32At(a.page.data, 4 * i) == c.values.codes[start + i]
  {
    hide EncodeRows, ToLE, FromLE;
    PageRoundTrip.SlotOfRow(c.values, start, len, i);
    Pow256Values();
    FromToLE(c.values.codes[start + i], 4);
  }

  lemma PageHoldsCode(c: Column, start: nat, len: u32, spec: PageSpec, i: nat)
    requires IsCodePage(c, start, len, spec) && i < len
    ensures PageRoundTrip.ArrayOf(c, spec).Ok? && 4 * i + 4 <= |PageOf(c, spec).data|
    ensures U32At(PageOf(c, spec).data, 4 * i) == c.values.codes[start + i]
  {
    hide EncodeRows, PageRoundTrip.ArrayOf, PageRoundTrip.Reads, CutPage, FromLE, ToLE;
    PageRoundTrip.ArrayOfPage(c, start, len, spec);
    SlotHoldsCode(c, start, len, PageRoundTrip.ArrayOf(c, spec).value, i);
  }

  /** A row whose flag and slot can be read. */
  lemma CodeOfSlot(page: Page, hasNulls: bool, i: nat, isNull: bool, code: u32)
    requires CodesCovered(page) && i < page.rowCount
    requires NullFlag(page, hasNulls, i) == Ok(isNull) && U32At(page.data, 4 * i) == code
    ensures CodeAt(page, hasNulls, i) == Ok(if isNull then None else Some(code))
  {
    hide FromLE;
  }

  lemma CodePageReads(c: Column, start: nat, len: u32, spec: PageSpec)
    requires IsCodePage(c, start, len, spec)
    ensures PageRoundTrip.ArrayOf(c, spec).Ok? && HasNulls(PageOf(c, spec)).Ok?
    ensures PageOf(c, spec).rowCount == len && CodesCovered(PageOf(c, spec))
  {
    hide EncodeRows, CutPage, HasNulls, PageRoundTrip.ArrayOf;
    EmptyPage(c, start, len, spec);
    if len > 0 {
      PageHoldsCode(c, start, len, spec, len - 1);
    }
  }

  lemma PageRowCode(c: Column, start: nat, len: u32, spec: PageSpec, i: nat)
    requires IsCodePage(c, start, len, spec) && i < len
    ensures PageRoundTrip.ArrayOf(c, spec).Ok? && HasNulls(PageOf(c, spec)).Ok?
    ensures PageOf(c, spec).rowCount == len && CodesCovered(PageOf(c, spec))
    ensures CodeAt(PageOf(c, spec), HasNulls(PageOf(c, spec)).value, i) == Ok(CodeOf(c, start + i))
  {
    hide HasNulls, CutPage, PageRoundTrip.ArrayOf, NullFlag, IsNull, FromLE, CodeAt;
    CodePageReads(c, start, len, spec);
    PageFlag(c, start, len, spec, i);
    PageHoldsCode(c, start, len, spec, i);
    var page := PageOf(c, spec);
    CodeOfSlot(page, HasNulls(page).value, i, IsNull(c, start + i), c.values.codes[start + i]);
  }

  // ---- a selection ----------------------------------------------------------------------------------------

  lemma {:induction false} RowCodesGather(page: Page, hasNulls: bool, c: Column, start: nat, rows: seq<nat>)
    requires CodesCovered(page) && InRange(rows, page.rowCount)
    requires c.values.FileCodes? && RowsWithin(c, start, rows)
    requires forall i :: 0 <= i < |rows| ==> CodeAt(page, hasNulls, rows[i]) == Ok(CodeOf(c, start + rows[i]))
    ensures RowCodes(page, hasNulls, rows).Ok? && AreCodesOf(RowCodes(page, hasNulls, rows).value, c, start, rows)
  {
    hide CodeAt, CodeOf;
    if rows != [] {
      RowCodesGather(page, hasNulls, c, start, rows[..|rows| - 1]);
    }
  }

  /** What an export reads from a page of a FileCode column: it fails only on a bad selection, and reads in each
      selected row, in order, the FileCode of that row of the column, or its null. */
  lemma SelectedCodesOfColumn(c: Column, start: nat, len: u32, spec: PageSpec, selection: RowSelection)
    requires IsCodePage(c, start, len, spec)
    ensures PageRoundTrip.ArrayOf(c, spec).Ok?
    ensures var codes, rows := SelectedCodes(PageOf(c, spec), selection), SelectedRows(selection, len);
      && (codes.Ok? <==> rows.Ok?)
      && (rows.Ok? ==> RowsWithin(c, start, rows.value))
      && (codes.Ok? ==> AreCodesOf(codes.value, c, start, rows.value))
  {
    hide HasNulls, CutPage, PageRoundTrip.ArrayOf, CodeAt, RowCodes, SelectedRows, CodeOf;
    CodePageReads(c, start, len, spec);
    var page := PageOf(c, spec);
    if SelectedRows(selection, len).Ok? {
      var rows := SelectedRows(selection, len).value;
      SelectedInRange(selection, len);
      forall i | 0 <= i < |rows|
        ensures CodeAt(page, HasNulls(page).value, rows[i]) == Ok(CodeOf(c, start + rows[i]))
      {
        PageRowCode(c, start, len, spec, rows[i]);
      }
      RowCodesGather(page, HasNulls(page).value, c, start, rows);
    }
  }

  // ---- the keys -------------------------------------------------------------------------------------------

  /** How a reader of an Arrow array finds the nulls: the bit of a null is clear, and without a buffer there
      are none. */
  predicate ReadsNull(nulls: Option<NullBuffer>, i: nat) {
    match nulls
    case None => false
    case Some(buffer) => i / 8 < |buffer.bytes| && !Bit(buffer.bytes[i / 8], i % 8)
  }

  lemma NullsShown(codes: seq<RowCode>, i: nat)
    requires i < |codes|
    ensures ReadsNull(NullsOf(NotNull(codes)), i) <==> codes[i].None?
  {
    hide PackBits, Bit;
    NullsReadBack(NotNull(codes), i / 8, i % 8);
  }

  /** The raw keys of a page: key `i` is the FileCode of the `i`-th selected row of the column, and its validity
      bit is clear exactly when that row is null. */
  lemma RawKeysOfColumn(c: Column, start: nat, len: u32, spec: PageSpec, selection: RowSelection, i: nat)
    requires IsCodePage(c, start, len, spec)
    requires SelectedRows(selection, len).Ok? && i < |SelectedRows(selection, len).value|
    ensures PageRoundTrip.ArrayOf(c, spec).Ok? && SelectedCodes(PageOf(c, spec), selection).Ok?
    ensures var keys := RawCodes(SelectedCodes(PageOf(c, spec), selection).value);
      var row := start + SelectedRows(selection, len).value[i];
      && |keys.keys| == |SelectedRows(selection, len).value| && row < RowCount(c.values)
      && (ReadsNull(keys.nulls, i) <==> IsNull(c, row))
      && (!IsNull(c, row) ==> keys.keys[i] == c.values.codes[row])
  {
    hide CutPage, PageRoundTrip.ArrayOf, SelectedRows, SelectedCodes, IsNull, NullsOf, ReadsNull;
    SelectedCodesOfColumn(c, start, len, spec, selection);
    var codes := SelectedCodes(PageOf(c, spec), selection).value;
    NullsShown(codes, i);
  }

  /** The entries that a list of codes uses can all be read. */
  predicate EntriesRead<V>(entry: nat -> Result<V>, codes: seq<RowCode>) {
    forall i :: 0 <= i < |codes| && codes[i].Some? ==> entry(codes[i].value).Ok?
  }

  lemma {:induction false} EntriesExactly<V>(entry: nat -> Result<V>, used: seq<int>)
    requires forall i :: 0 <= i < |used| ==> used[i] >= 0
    ensures Entries(entry, used).Ok? <==> forall i :: 0 <= i < |used| ==> entry(used[i]).Ok?
  {
    if used != [] {
      EntriesExactly(entry, used[..|used| - 1]);
    }
  }

  /** A remapped export fails exactly when an entry that a selected row names cannot be read. */
  lemma RemapFailsExactly<V>(entry: nat -> Result<V>, codes: seq<RowCode>)
    ensures RemapCodes(entry, codes).Ok? <==> EntriesRead(entry, codes)
  {
    hide UsedCodes, Entries, NullsOf;
    var used := UsedCodes(codes);
    UsedExactly(codes, 0);
    UsedCovers(codes);
    EntriesExactly(entry, used);
    if EntriesRead(entry, codes) {
      forall i | 0 <= i < |used| ensures entry(used[i]).Ok? {
        UsedExactly(codes, used[i]);
        var j :| 0 <= j < |codes| && codes[j] == Some(used[i]);
      }
    }
  }

  /** The dense keys of a page: key `i` finds the dictionary entry that the `i`-th selected row of the column
      names, and its validity bit is clear exactly when that row is null. */
  lemma DenseKeysOfColumn<V>(entry: nat -> Result<V>, c: Column, start: nat, len: u32, spec: PageSpec,
      selection: RowSelection, i: nat)
    requires IsCodePage(c, start, len, spec)
    requires SelectedRows(selection, len).Ok? && i < |SelectedRows(selection, len).value|
    ensures PageRoundTrip.ArrayOf(c, spec).Ok? && SelectedCodes(PageOf(c, spec), selection).Ok?
    ensures var r := RemapCodes(entry, SelectedCodes(PageOf(c, spec), selection).value);
      var row := start + SelectedRows(selection, len).value[i];
      r.Ok? ==>
        && |r.value.keys.keys| == |SelectedRows(selection, len).value| && row < RowCount(c.values)
        && (ReadsNull(r.value.keys.nulls, i) <==> IsNull(c, row))
        && (!IsNull(c, row) ==>
              && r.value.keys.keys[i] < |r.value.values|
              && entry(c.values.codes[row]) == Ok(r.value.values[r.value.keys.keys[i]]))
  {
    hide CutPage, PageRoundTrip.ArrayOf, SelectedRows, SelectedCodes, IsNull, NullsOf, ReadsNull, RemapCodes;
    SelectedCodesOfColumn(c, start, len, spec, selection);
    var codes := SelectedCodes(PageOf(c, spec), selection).value;
    if RemapCodes(entry, codes).Ok? {
      RawKeysOfColumn(c, start, len, spec, selection, i);
      RemapPreservesColumn(entry, codes, i, i);
    }
  }
}
