/** Boolean export of the pages the converter writes for boolean columns. */
module BooleanColumns {
  import opened Wrappers
  import opened ArrayPage
  import opened ConvertedColumns
  import opened Selection
  import opened FixedWidthExport
  import opened Paging
  import opened SignedColumns
  import PageRoundTrip
  import RowAccess

  predicate IsBooleanPage(c: Column, start: nat, len: u32, spec: PageSpec) {
    && c.values.Booleans? && start + len <= RowCount(c.values)
    && CutPage(c, start, len) == Ok(spec) && |spec.payload| < TWO_63
  }

  /** What the export makes of a row: its null flag and its stored byte. */
  function BooleanCell(c: Column, row: nat): Cell
    requires c.values.Booleans? && row < RowCount(c.values)
  {
    if IsNull(c, row) then Cell(false, 0) else Cell(true, c.values.booleans[row])
  }

  predicate IsBoolean(c: Column, row: nat)
    requires c.values.Booleans? && row < RowCount(c.values)
  {
    c.values.booleans[row] <= 1
  }

  lemma ByteOfRow(c: Column, start: nat, len: nat, a: RowAccess.EncodedArray)
    requires PageRoundTrip.Reads(c, start, len, a) && c.values.Booleans?
    ensures |a.page.data| == len && forall i :: 0 <= i < len ==> a.page.data[i] == c.values.booleans[start + i]
  {
  }

  lemma CellOfByte(page: Page, hasNulls: bool, i: nat, isNull: bool)
    requires Covered(BooleanByte, page) && i < page.rowCount && NullFlag(page, hasNulls, i) == Ok(isNull)
    ensures page.data[i] > 1 ==> CellAt(BooleanByte, page, hasNulls, i).Err?
    ensures page.data[i] <= 1 ==>
      CellAt(BooleanByte, page, hasNulls, i) == Ok(if isNull then Cell(false, 0) else Cell(true, page.data[i]))
  {
    hide NullFlag;
  }

  lemma BooleanPageReads(c: Column, start: nat, len: u32, spec: PageSpec)
    requires IsBooleanPage(c, start, len, spec)
    ensures PageRoundTrip.ArrayOf(c, spec).Ok? && HasNulls(PageOf(c, spec)).Ok?
    ensures PageOf(c, spec).rowCount == len && Covered(BooleanByte, PageOf(c, spec))
    ensures forall i :: 0 <= i < len ==> PageOf(c, spec).data[i] == c.values.booleans[start + i]
  {
    hide CutPage, HasNulls, PageRoundTrip.ArrayOf, PageRoundTrip.Reads;
    EmptyPage(c, start, len, spec);
    PageRoundTrip.ArrayOfPage(c, start, len, spec);
    ByteOfRow(c, start, len, PageRoundTrip.ArrayOf(c, spec).value);
  }

  lemma BooleanRow(c: Column, start: nat, len: u32, spec: PageSpec, i: nat)
    requires IsBooleanPage(c, start, len, spec) && i < len
    ensures PageRoundTrip.ArrayOf(c, spec).Ok? && HasNulls(PageOf(c, spec)).Ok?
    ensures PageOf(c, spec).rowCount == len && Covered(BooleanByte, PageOf(c, spec))
    ensures var r := CellAt(BooleanByte, PageOf(c, spec), HasNulls(PageOf(c, spec)).value, i);
      if IsBoolean(c, start + i) then r == Ok(BooleanCell(c, start + i)) else r.Err?
  {
    hide HasNulls, CutPage, PageRoundTrip.ArrayOf, NullFlag, IsNull, CellAt;
    BooleanPageReads(c, start, len, spec);
    PageFlag(c, start, len, spec, i);
    CellOfByte(PageOf(c, spec), HasNulls(PageOf(c, spec)).value, i, IsNull(c, start + i));
  }

  predicate CellsOf(cells: seq<Cell>, c: Column, start: nat, rows: seq<nat>)
    requires c.values.Booleans? && InColumn(c, start, rows)
  {
    |cells| == |rows| && forall i :: 0 <= i < |rows| ==> cells[i] == BooleanCell(c, start + rows[i])
  }

  predicate InColumn(c: Column, start: nat, rows: seq<nat>) {
    forall i :: 0 <= i < |rows| ==> start + rows[i] < RowCount(c.values)
  }

  /** The export of a boolean page fails only on a bad selection or on a selected row, null or not, that stores neither
      0 nor 1; it gives each selected row's null flag and its byte. */
  lemma BooleansExport(c: Column, start: nat, len: u32, spec: PageSpec, selection: RowSelection)
    requires IsBooleanPage(c, start, len, spec)
    ensures PageRoundTrip.ArrayOf(c, spec).Ok?
    ensures SelectedRows(selection, len).Ok? ==> InColumn(c, start, SelectedRows(selection, len).value)
    ensures var r, rows := ExportSpec(BooleanByte, PageOf(c, spec), selection), SelectedRows(selection, len);
      && (r.Ok? <==> rows.Ok? && forall i :: 0 <= i < |rows.value| ==> IsBoolean(c, start + rows.value[i]))
      && (r.Ok? ==> CellsOf(r.value, c, start, rows.value))
  {
    hide HasNulls, CutPage, PageRoundTrip.ArrayOf, CellAt, Gather, SelectedRows, BooleanCell, IsBoolean;
    BooleanPageReads(c, start, len, spec);
    var page := PageOf(c, spec);
    if SelectedRows(selection, len).Ok? {
      var rows := SelectedRows(selection, len).value;
      SelectedInRange(selection, len);
      forall i | 0 <= i < |rows|
        ensures var r := CellAt(BooleanByte, page, HasNulls(page).value, rows[i]);
          if IsBoolean(c, start + rows[i]) then r == Ok(BooleanCell(c, start + rows[i])) else r.Err?
      {
        BooleanRow(c, start, len, spec, rows[i]);
      }
      GatherCells(BooleanByte, page, HasNulls(page).value, rows);
    }
  }
}
