/** From source arrays to pages and back: whatever batches a column was filled from, its pages decode to the source's
    rows. */
module SourceRoundTrip {
  import opened Wrappers
  import opened Sequences
  import opened Wire
  import opened ConvertedColumns
  import opened RowAccess
  import opened SourceColumns
  import opened Paging
  import opened PageRoundTrip

  predicate BatchesFit(kind: SourceKind, batches: seq<seq<SourceCell>>) {
    forall i :: 0 <= i < |batches| ==> AllFit(kind, batches[i])
  }

  /** A column filled batch by batch. */
  function FromBatches(name: string, kind: SourceKind, batches: seq<seq<SourceCell>>): (r: Result<Column>)
    requires BatchesFit(kind, batches)
    ensures r.Ok? ==> LaidOut(r.value.values, kind)
  {
    if batches == [] then
      EmptyHolds(name, kind);
      Ok(EmptyColumn(name, kind))
    else
      var before :- FromBatches(name, kind, batches[..|batches| - 1]);
      WithRows(before, kind, batches[|batches| - 1])
  }

  /** The page reader knows the layout of a column of this kind. */
  predicate Readable(c: Column, kind: SourceKind) {
    LaidOut(c.values, kind) && c.logical == LogicalOf(kind) && c.encoding == EmptyColumn("", kind).encoding
  }

  lemma ReadableIsWellTyped(c: Column, kind: SourceKind)
    requires Readable(c, kind)
    ensures WellTyped(c)
  {
  }

  lemma RowKeepsLayout(c: Column, kind: SourceKind, cell: SourceCell)
    requires Readable(c, kind) && (cell.Some? ==> Fits(kind, cell.value)) && WithRow(c, kind, cell).Ok?
    ensures Readable(WithRow(c, kind, cell).value, kind)
  {
    hide Store, Fits, Placeholder, EmptyColumn;
    SlotsFitLayout(c.values, kind);
  }

  lemma {:induction false} RowsKeepLayout(c: Column, kind: SourceKind, cells: seq<SourceCell>)
    requires LaidOut(c.values, kind) && AllFit(kind, cells) && WithRows(c, kind, cells).Ok? && Readable(c, kind)
    ensures Readable(WithRows(c, kind, cells).value, kind)
  {
    hide WithRow, Readable;
    if cells != [] {
      RowsKeepLayout(c, kind, cells[..|cells| - 1]);
      RowKeepsLayout(WithRows(c, kind, cells[..|cells| - 1]).value, kind, cells[|cells| - 1]);
    }
  }

  lemma EmptyIsReadable(name: string, kind: SourceKind)
    ensures Readable(EmptyColumn(name, kind), kind)
  {
  }

  /** After any batches the column holds all their rows, in order. */
  lemma {:induction false} BatchesHeld(name: string, kind: SourceKind, batches: seq<seq<SourceCell>>)
    requires BatchesFit(kind, batches) && FromBatches(name, kind, batches).Ok?
    ensures var c := FromBatches(name, kind, batches).value;
      Holds(c, kind, Flatten(batches)) && Readable(c, kind)
  {
    hide WithRows, Holds, Readable, LaidOut, Flatten, EmptyColumn;
    if batches == [] {
      EmptyHolds(name, kind);
      EmptyIsReadable(name, kind);
      NothingFlat();
    } else {
      var init, last := batches[..|batches| - 1], batches[|batches| - 1];
      BatchesHeld(name, kind, init);
      var before := FromBatches(name, kind, init).value;
      RowsAppended(before, kind, Flatten(init), last);
      RowsKeepLayout(before, kind, last);
      assert batches == init + [last];
      FlattenSnoc(init, last);
    }
  }

  lemma NothingFlat()
    ensures Flatten<SourceCell>([]) == []
  {
  }

  /** What a page reader must return for a source row. */
  predicate ReadsAs(kind: SourceKind, cell: SourceCell, value: CoveValue) {
    match cell
    case None => value == NullValue
    case Some(Truth(b)) => value == Bytes([if b then 1 else 0])
    case Some(Whole(n)) =>
      if kind == FromDecimal128 then
        value.Bytes? && |value.bytes| == 16 && StandsFor(FromLE(value.bytes), n, TWO_128)
      else value.NumCodeValue? && value.number < TWO_64 && NumberHeld(value.number, kind, n)
    case Some(Float(bits)) => value == NumCodeValue(bits)
    case Some(Octets(bytes)) => value == Bytes(bytes)
    case Some(Code(_)) => false
  }

  lemma CellReads(c: Column, kind: SourceKind, row: nat, cell: SourceCell)
    requires LaidOut(c.values, kind) && row < RowCount(c.values) && CellHeld(c, kind, row, cell)
    ensures ReadsAs(kind, cell, ValueOf(c, row))
  {
    hide StandsFor, NumberHeld, FromLE, Scale;
  }

  /** The values read are those of the source's rows from `start` on. */
  predicate RowsRead(kind: SourceKind, rows: seq<SourceCell>, start: nat, values: seq<CoveValue>) {
    start + |values| <= |rows| && forall i :: 0 <= i < |values| ==> ReadsAs(kind, rows[start + i], values[i])
  }

  lemma RangeReads(c: Column, kind: SourceKind, rows: seq<SourceCell>, start: nat, len: nat)
    requires LaidOut(c.values, kind) && Holds(c, kind, rows) && start + len <= |rows|
    ensures RowsRead(kind, rows, start, ValuesOf(c, start, len))
  {
    hide ReadsAs, ValueOf, CellHeld, LaidOut;
    var values := ValuesOf(c, start, len);
    forall i | 0 <= i < |values| ensures ReadsAs(kind, rows[start + i], values[i]) {
      CellReads(c, kind, start + i, rows[start + i]);
    }
  }

  /** The pages of a column filled from any batches decode, in bulk, to the source's rows of their range. */
  lemma SourcePagesRead(d: Decoders, name: string, kind: SourceKind, batches: seq<seq<SourceCell>>, c: Column,
      start: nat, len: u32, spec: PageSpec)
    requires BatchesFit(kind, batches) && FromBatches(name, kind, batches) == Ok(c)
    requires start + len <= RowCount(c.values) && CutPage(c, start, len) == Ok(spec) && |spec.payload| < TWO_63
    ensures |Flatten(batches)| == RowCount(c.values) && ArrayOf(c, spec).Ok?
    ensures var values := AllRows(d, ArrayOf(c, spec).value);
      values.Ok? && |values.value| == len && RowsRead(kind, Flatten(batches), start, values.value)
  {
    hide ArrayOf, AllRows, CutPage, RowsRead, ValueOf, Flatten, WellTyped, FromBatches, NullFlags;
    BatchesHeld(name, kind, batches);
    HeldRows(c, kind, Flatten(batches));
    ReadableIsWellTyped(c, kind);
    hide Holds, Readable;
    PageDecodesRows(d, c, start, len, spec);
    RangeReads(c, kind, Flatten(batches), start, len);
  }

  lemma HeldRows(c: Column, kind: SourceKind, rows: seq<SourceCell>)
    requires Holds(c, kind, rows)
    ensures |rows| == RowCount(c.values)
  {
  }
}
