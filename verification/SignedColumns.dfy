/** Signed export of the pages the converter writes for signed integer columns. */
module SignedColumns {
  import opened Wrappers
  import opened Wire
  import opened ArrayPage
  import opened ColumnTypes
  import opened ConvertedColumns
  import opened Selection
  import opened FixedWidthExport
  import opened Paging
  import PageRoundTrip
  import PageWriter
  import RowAccess
  import Validity
  import ZoneStats

  /** The signed value behind a stored number. */
  function Signed(number: u64): i64 {
    SignedNumcode(Int64, number)
  }

  lemma StoredReadsBack(v: i64)
    ensures Signed(Stored(v)) == v
    ensures Stored(v) >= TWO_63 <==> v < 0
  {
  }

  lemma SignedNumber(number: u64)
    ensures Signed(number) < 0 <==> number >= TWO_63
    ensures Signed(number) >= 0 ==> Signed(number) == number
  {
  }

  /** The page of a column range, as the exporter reads it. */
  function PageOf(c: Column, spec: PageSpec): Page
    requires PageRoundTrip.ArrayOf(c, spec).Ok?
  {
    PageRoundTrip.ArrayOf(c, spec).value.page
  }

  /** A page has a bitmap exactly when it has nulls, and the exporter counts some then. */
  lemma PageHasNulls(c: Column, start: nat, len: u32, spec: PageSpec)
    requires start + len <= RowCount(c.values) && CutPage(c, start, len) == Ok(spec) && |spec.payload| < TWO_63
    ensures PageRoundTrip.ArrayOf(c, spec).Ok?
    ensures HasNulls(PageOf(c, spec)) == Ok(spec.nullCount > 0)
  {
    hide EncodeRows, PageRoundTrip.Reads, IsNullRow, PageWriter.CheckBitmap;
    PageRoundTrip.ArrayOfPage(c, start, len, spec);
    PageWriter.FlagsCount(c, start, len);
    var page := PageOf(c, spec);
    if page.validity.Some? {
      BitmapCounts(page, NullFlags(c, start, len));
    }
  }

  lemma BitmapCounts(page: Page, flags: seq<bool>)
    requires page.validity.Some? && page.rowCount == |flags| < TWO_32 && page.validity.value.rowCount == |flags|
    requires |page.validity.value.bytes| >= (|flags| + 7) / 8
    requires forall i :: 0 <= i < |flags| ==> IsNullRow(page, i) == Ok(flags[i])
    ensures HasNulls(page).Ok? && (Validity.CountTrue(flags) > 0 ==> HasNulls(page).value)
  {
    var bitmap := page.validity.value;
    forall i | 0 <= i < |flags| ensures Validity.NullBit(bitmap.bytes, i) == flags[i] {
      assert IsNullRow(page, i) == Ok(flags[i]);
    }
    hide Validity.NullBit;
    assert Validity.NullBits(bitmap.bytes, |flags|) == flags;
    Validity.NullCountExact(bitmap);
  }

  /** A row's code is the stored number. */
  lemma PageCode(c: Column, start: nat, len: u32, spec: PageSpec, i: nat)
    requires start + len <= RowCount(c.values) && CutPage(c, start, len) == Ok(spec) && |spec.payload| < TWO_63
    requires c.values.NumCodes? && i < len
    ensures PageRoundTrip.ArrayOf(c, spec).Ok? && 8 * i + 8 <= |PageOf(c, spec).data|
    ensures ReadCode(PageOf(c, spec).data, i) == c.values.numbers[start + i]
  {
    hide EncodeRows, PageRoundTrip.ArrayOf, PageRoundTrip.Reads, CutPage, FromLE, ToLE;
    PageRoundTrip.ArrayOfPage(c, start, len, spec);
    SlotCode(c, start, len, PageRoundTrip.ArrayOf(c, spec).value, i);
  }

  lemma SlotCode(c: Column, start: nat, len: nat, a: RowAccess.EncodedArray, i: nat)
    requires PageRoundTrip.Reads(c, start, len, a) && c.values.NumCodes? && i < len
    ensures 8 * i + 8 <= |a.page.data| && ReadCode(a.page.data, i) == c.values.numbers[start + i]
  {
    hide EncodeRows, ToLE, FromLE;
    PageRoundTrip.SlotOfRow(c.values, start, len, i);
    Pow256Values();
    FromToLE(c.values.numbers[start + i], 8);
  }

  /** The exporter sees a row's null flag. */
  lemma PageFlag(c: Column, start: nat, len: u32, spec: PageSpec, i: nat)
    requires start + len <= RowCount(c.values) && CutPage(c, start, len) == Ok(spec) && |spec.payload| < TWO_63
    requires i < len
    ensures PageRoundTrip.ArrayOf(c, spec).Ok? && HasNulls(PageOf(c, spec)).Ok? && PageOf(c, spec).rowCount == len
    ensures NullFlag(PageOf(c, spec), HasNulls(PageOf(c, spec)).value, i) == Ok(IsNull(c, start + i))
  {
    PageRoundTrip.ArrayOfPage(c, start, len, spec);
    PageHasNulls(c, start, len, spec);
    hide HasNulls, IsNullRow, CutPage, PageRoundTrip.ArrayOf, PageRoundTrip.Reads;
    if spec.nullCount == 0 {
      NoRowNull(c, start, len, spec, i);
    }
  }

  lemma NoRowNull(c: Column, start: nat, len: u32, spec: PageSpec, i: nat)
    requires start + len <= RowCount(c.values) && CutPage(c, start, len) == Ok(spec) && i < len && spec.nullCount == 0
    ensures !IsNull(c, start + i)
  {
    hide EncodeRows;
    ZoneStats.NonNullRowsExact(c, start, len);
    PageRoundTrip.AllNonNull(c, start, len);
    assert start <= start + i < start + len;
  }

  lemma CellOfFlag(page: Page, hasNulls: bool, i: nat, isNull: bool, code: nat)
    requires Covered(UnsignedCode, page) && i < page.rowCount
    requires NullFlag(page, hasNulls, i) == Ok(isNull) && ReadCode(page.data, i) == code
    ensures CellAt(UnsignedCode, page, hasNulls, i) == Ok(if isNull then Cell(false, 0) else Cell(true, code))
    ensures Exceeds(page, hasNulls, i) <==> !isNull && code >= TWO_63
  {
    hide FromLE;
  }

  /** What the unsigned export makes of a row: its null flag and its stored number. */
  function StoredCell(c: Column, row: nat): Cell
    requires c.values.NumCodes? && row < RowCount(c.values)
  {
    if IsNull(c, row) then Cell(false, 0) else Cell(true, c.values.numbers[row])
  }

  predicate Negative(c: Column, row: nat)
    requires c.values.NumCodes? && row < RowCount(c.values)
  {
    !IsNull(c, row) && Signed(c.values.numbers[row]) < 0
  }

  predicate RowsOf(c: Column, start: nat, rows: seq<nat>) {
    c.values.NumCodes? && forall i :: 0 <= i < |rows| ==> start + rows[i] < RowCount(c.values)
  }

  /** The slots are the stored numbers of the rows. */
  predicate HoldsStored(cells: seq<Cell>, c: Column, start: nat, rows: seq<nat>)
    requires RowsOf(c, start, rows)
  {
    |cells| == |rows| && forall i :: 0 <= i < |rows| ==> cells[i] == StoredCell(c, start + rows[i])
  }

  /** The slots are the signed values of the rows. */
  predicate HoldsSigned(cells: seq<Cell>, c: Column, start: nat, rows: seq<nat>)
    requires RowsOf(c, start, rows)
  {
    |cells| == |rows| && forall i :: 0 <= i < |rows| ==> SlotIsSigned(cells[i], c, start + rows[i])
  }

  predicate SlotIsSigned(cell: Cell, c: Column, row: nat)
    requires c.values.NumCodes? && row < RowCount(c.values)
  {
    cell.valid == !IsNull(c, row) && (cell.valid ==> cell.value == Signed(c.values.numbers[row]))
  }

  lemma StoredIsSigned(c: Column, row: nat)
    requires c.values.NumCodes? && row < RowCount(c.values) && !Negative(c, row)
    ensures SlotIsSigned(StoredCell(c, row), c, row)
  {
    SignedNumber(c.values.numbers[row]);
  }

  lemma PageCell(c: Column, start: nat, len: u32, spec: PageSpec, i: nat)
    requires start + len <= RowCount(c.values) && CutPage(c, start, len) == Ok(spec) && |spec.payload| < TWO_63
    requires c.values.NumCodes? && i < len
    ensures PageRoundTrip.ArrayOf(c, spec).Ok? && HasNulls(PageOf(c, spec)).Ok?
    ensures PageOf(c, spec).rowCount == len && Covered(UnsignedCode, PageOf(c, spec))
    ensures var page := PageOf(c, spec);
      && CellAt(UnsignedCode, page, HasNulls(page).value, i) == Ok(StoredCell(c, start + i))
      && (Exceeds(page, HasNulls(page).value, i) <==> Negative(c, start + i))
  {
    hide HasNulls, IsNullRow, CutPage, PageRoundTrip.ArrayOf, ReadCode, CellAt, NullFlag, IsNull, Exceeds, Signed;
    PageFlag(c, start, len, spec, i);
    PageCode(c, start, len, spec, i);
    PageCode(c, start, len, spec, len - 1);
    var page := PageOf(c, spec);
    CellOfFlag(page, HasNulls(page).value, i, IsNull(c, start + i), c.values.numbers[start + i]);
    SignedNumber(c.values.numbers[start + i]);
  }

  lemma EmptyPage(c: Column, start: nat, len: u32, spec: PageSpec)
    requires start + len <= RowCount(c.values) && CutPage(c, start, len) == Ok(spec) && |spec.payload| < TWO_63
    ensures PageRoundTrip.ArrayOf(c, spec).Ok? && HasNulls(PageOf(c, spec)).Ok? && PageOf(c, spec).rowCount == len
    ensures c.values.NumCodes? ==> PayloadPrefix(UnsignedCode, PageOf(c, spec)) == Ok(())
    ensures c.values.NumCodes? ==> Covered(UnsignedCode, PageOf(c, spec))
  {
    hide EncodeRows;
    PageRoundTrip.ArrayOfPage(c, start, len, spec);
    PageHasNulls(c, start, len, spec);
    if c.values.NumCodes? && len > 0 {
      PageCode(c, start, len, spec, len - 1);
    }
  }

  /** The unsigned export of a converted page: it fails only on a bad selection, and gives each selected
      row's null flag and stored number. */
  lemma StoredNumbersExport(c: Column, start: nat, len: u32, spec: PageSpec, selection: RowSelection)
    requires start + len <= RowCount(c.values) && CutPage(c, start, len) == Ok(spec) && |spec.payload| < TWO_63
    requires c.values.NumCodes?
    ensures PageRoundTrip.ArrayOf(c, spec).Ok?
    ensures var r, rows := ExportSpec(UnsignedCode, PageOf(c, spec), selection), SelectedRows(selection, len);
      && (r.Ok? <==> rows.Ok?)
      && (rows.Ok? ==> InRange(rows.value, len))
      && (r.Ok? ==> HoldsStored(r.value, c, start, rows.value))
  {
    hide HasNulls, CutPage, PageRoundTrip.ArrayOf, CellAt, Gather, SelectedRows, StoredCell, PayloadPrefix;
    EmptyPage(c, start, len, spec);
    var page := PageOf(c, spec);
    if SelectedRows(selection, len).Ok? {
      var rows := SelectedRows(selection, len).value;
      SelectedInRange(selection, len);
      forall i | 0 <= i < |rows|
        ensures CellAt(UnsignedCode, page, HasNulls(page).value, rows[i]) == Ok(StoredCell(c, start + rows[i]))
      {
        PageCell(c, start, len, spec, rows[i]);
      }
      GatherCells(UnsignedCode, page, HasNulls(page).value, rows);
    }
  }

  /** The signed export of a converted page succeeds, on a good selection, exactly when no selected value
      that is not null is negative; it then gives the values. */
  lemma SignedValuesExport(c: Column, start: nat, len: u32, spec: PageSpec, selection: RowSelection)
    requires start + len <= RowCount(c.values) && CutPage(c, start, len) == Ok(spec) && |spec.payload| < TWO_63
    requires c.values.NumCodes?
    ensures PageRoundTrip.ArrayOf(c, spec).Ok?
    ensures SelectedRows(selection, len).Ok? ==> InRange(SelectedRows(selection, len).value, len)
    ensures var r, rows := ExportSpec(SignedCode, PageOf(c, spec), selection), SelectedRows(selection, len);
      && (r.Ok? <==> rows.Ok? && forall row :: row in rows.value ==> !Negative(c, start + row))
      && (r.Ok? ==> HoldsSigned(r.value, c, start, rows.value))
  {
    hide HasNulls, CutPage, PageRoundTrip.ArrayOf, SelectedRows, ExportSpec, Exceeds, Negative, SlotIsSigned,
      StoredCell;
    EmptyPage(c, start, len, spec);
    StoredNumbersExport(c, start, len, spec, selection);
    var page, rows := PageOf(c, spec), SelectedRows(selection, len);
    SignedExportExactly(page, selection);
    if rows.Ok? {
      SelectedInRange(selection, len);
      forall row | row in rows.value
        ensures Exceeds(page, HasNulls(page).value, row) <==> Negative(c, start + row)
      {
        PageCell(c, start, len, spec, row);
      }
      forall i | 0 <= i < |rows.value| && !Negative(c, start + rows.value[i])
        ensures SlotIsSigned(StoredCell(c, start + rows.value[i]), c, start + rows.value[i])
      {
        StoredIsSigned(c, start + rows.value[i]);
      }
      assert forall i :: 0 <= i < |rows.value| ==> rows.value[i] in rows.value;
    }
  }

  /** A column holding the one value -1: converted, paged, and then refused by the signed export. */
  lemma NegativeIsRefused() returns (c: Column, spec: PageSpec)
    ensures c.values == NumCodes([Stored(-1)]) && CutPage(c, 0, 1) == Ok(spec) && PageRoundTrip.ArrayOf(c, spec).Ok?
    ensures ExportSpec(UnsignedCode, PageOf(c, spec), All).Ok? && ExportSpec(SignedCode, PageOf(c, spec), All).Err?
  {
    c := Column("", Int64, NumCodeKind, NumCodeEncoding, false, NumCodes([Stored(-1)]), [false]);
    NegativePage(c);
    spec := CutPage(c, 0, 1).value;
    StoredReadsBack(-1);
    assert 0 in SelectedRows(All, 1).value by {
      assert FirstRows(1)[0] == 0;
    }
    assert Negative(c, 0);
    hide CutPage, Negative, PageRoundTrip.ArrayOf, ExportSpec;
    StoredNumbersExport(c, 0, 1, spec, All);
    SignedValuesExport(c, 0, 1, spec, All);
  }

  lemma NegativePage(c: Column)
    requires c.values.NumCodes? && |c.values.numbers| == 1 && c.nulls == [false]
    ensures CutPage(c, 0, 1).Ok? && |CutPage(c, 0, 1).value.payload| == 8
  {
    assert ZoneStats.NonNullRows(c, 0, 1) == [0];
    var pieces := SlotsOf(c.values, 0, 1);
    assert pieces == [ToLE(c.values.numbers[0], 8)];
    hide ToLE;
    assert pieces[..0] == [];
    assert Slots(pieces) == Slots([]) + pieces[0];
  }
}
