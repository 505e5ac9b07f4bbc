/** Pages written in either layout of length prefixes, and what an Arrow export makes of their rows. */
module StringPages {
  import opened Wrappers
  import opened Sequences
  import opened Wire
  import opened ArrayPage
  import opened Selection
  import opened VarBytes
  import VarBytesStrings
  import Converted = ConvertedColumns
  import Paging
  import PageRoundTrip
  import SignedColumns

  // ---- LEB128-prefixed pages ----------------------------------------------------------------------------

  /** A page of rows behind LEB128 lengths. */
  function LebPage(rows: seq<seq<byte>>): seq<byte> {
    if rows == [] then [] else LebPage(rows[..|rows| - 1]) + LebRecord(rows[|rows| - 1])
  }

  function LebRecord(row: seq<byte>): seq<byte> {
    EncodeLeb(|row|) + row
  }

  lemma LebRecordRead(before: seq<byte>, row: seq<byte>, after: seq<byte>)
    requires InMemory(before + LebRecord(row) + after)
    ensures var data, start := before + LebRecord(row) + after, |before| + |EncodeLeb(|row|)|;
      LebRangeAt(data, |before|) == Ok(Range(start, start + |row|)) && data[start..start + |row|] == row
  {
    hide EncodeLeb, DecodeLeb;
    var prefix := EncodeLeb(|row|);
    var data := before + LebRecord(row) + after;
    assert data == before + (prefix + (row + after)) == before + prefix + row + after;
    LebRoundTrip(|row|, row + after);
    assert data[|before|..] == prefix + (row + after);
    assert |before + prefix| == |before| + |prefix|;
  }

  lemma LebPageSplit(rows: seq<seq<byte>>, after: seq<byte>)
    requires rows != []
    ensures var init, record := LebPage(rows[..|rows| - 1]), LebRecord(rows[|rows| - 1]);
      && LebPage(rows) + after == init + (record + after) == init + record + after
      && |LebPage(rows)| == |init| + |EncodeLeb(|rows[|rows| - 1]|)| + |rows[|rows| - 1]|
  {
    var init, record := LebPage(rows[..|rows| - 1]), LebRecord(rows[|rows| - 1]);
    assert LebPage(rows) == init + record;
  }

  /** The first records of a page are these rows, and end at `end`. */
  predicate Framed(data: seq<byte>, rows: seq<seq<byte>>, end: nat) {
    var r := FramesUpTo(Leb128Prefixed, data, |rows|);
    r.Ok? && r.value.end == end && RowsOf(data, r.value.ranges) == rows
  }

  /** Reading back a LEB128 page gives the records it was written from, whatever follows them. */
  lemma {:induction false} FramesOfLebPage(rows: seq<seq<byte>>, after: seq<byte>)
    requires InMemory(LebPage(rows) + after)
    ensures Framed(LebPage(rows) + after, rows, |LebPage(rows)|)
  {
    hide LebPage, LebRecord, Framed, LebRangeAt, EncodeLeb;
    if rows != [] {
      var init, last := rows[..|rows| - 1], rows[|rows| - 1];
      var data, pos := LebPage(rows) + after, |LebPage(init)|;
      LebPageSplit(rows, after);
      FramesOfLebPage(init, LebRecord(last) + after);
      assert Framed(data, init, pos);
      LebRecordRead(LebPage(init), last, after);
      OneMoreFramed(data, init, pos, last, pos + |EncodeLeb(|last|)|);
      assert rows == init + [last];
    } else {
      NoFrames(after);
      assert LebPage(rows) + after == after;
    }
  }

  lemma OneMoreFramed(data: seq<byte>, rows: seq<seq<byte>>, end: nat, row: seq<byte>, start: nat)
    requires Framed(data, rows, end) && LebRangeAt(data, end) == Ok(Range(start, start + |row|))
    requires data[start..start + |row|] == row
    ensures Framed(data, rows + [row], start + |row|)
  {
    hide LebRangeAt, RowsOf;
    var before, range := FramesUpTo(Leb128Prefixed, data, |rows|).value, Range(start, start + |row|);
    FramesStep(data, |rows|, before, range);
    RowsSnoc(data, before.ranges, range);
  }

  lemma FramesStep(data: seq<byte>, n: nat, before: Frames, range: Range)
    requires FramesUpTo(Leb128Prefixed, data, n) == Ok(before) && LebRangeAt(data, before.end) == Ok(range)
    ensures FramesUpTo(Leb128Prefixed, data, n + 1) == Ok(Frames(before.ranges + [range], range.end))
  {
    hide LebRangeAt;
  }

  lemma NoFrames(data: seq<byte>)
    ensures LebPage([]) == []
    ensures Framed(data, [], 0)
  {
  }

  // ---- either layout ------------------------------------------------------------------------------------

  predicate Writable(layout: Layout, rows: seq<seq<byte>>) {
    layout == U32Prefixed ==> PrefixesFit(rows)
  }

  function Written(layout: Layout, rows: seq<seq<byte>>): seq<byte> {
    if layout == U32Prefixed then U32Page(rows) else LebPage(rows)
  }

  lemma RangesOfWritten(layout: Layout, rows: seq<seq<byte>>)
    requires Writable(layout, rows) && InMemory(Written(layout, rows))
    ensures var data := Written(layout, rows); var ranges := RangesOf(layout, data, |rows|);
      ranges.Ok? && RowsOf(data, ranges.value) == rows
  {
    hide FramesUpTo, RowsOf;
    assert Written(layout, rows) + [] == Written(layout, rows);
    if layout == U32Prefixed {
      FramesOfPage(rows, []);
    } else {
      FramesOfLebPage(rows, []);
    }
  }

  /** The page holds these rows, with these null flags. */
  predicate PageHolds(layout: Layout, page: Page, rows: seq<seq<byte>>, flags: seq<bool>) {
    && |rows| == |flags| == page.rowCount && Writable(layout, rows)
    && page.data == Written(layout, rows) && InMemory(page.data) && HasNulls(page).Ok?
    && forall i :: 0 <= i < |flags| ==> NullFlag(page, HasNulls(page).value, i) == Ok(flags[i])
  }

  /** What row `row` exports: nothing under a null, otherwise its bytes. */
  function RowSlot(rows: seq<seq<byte>>, flags: seq<bool>, row: nat): Slot
    requires row < |rows| == |flags|
  {
    if flags[row] then None else Some(rows[row])
  }

  function PickedSlots(rows: seq<seq<byte>>, flags: seq<bool>, picked: seq<nat>): (slots: seq<Slot>)
    requires |rows| == |flags| && InRange(picked, |rows|)
    ensures |slots| == |picked| && forall i :: 0 <= i < |picked| ==> slots[i] == RowSlot(rows, flags, picked[i])
  {
    seq(|picked|, i requires 0 <= i < |picked| => RowSlot(rows, flags, picked[i]))
  }

  lemma {:induction false} SlotsOfPage(page: Page, hasNulls: bool, ranges: seq<Range>, rows: seq<seq<byte>>,
      flags: seq<bool>, picked: seq<nat>)
    requires RangesWithin(page.data, ranges) && RowsOf(page.data, ranges) == rows && |rows| == |flags|
    requires InRange(picked, |ranges|)
    requires forall i :: 0 <= i < |flags| ==> NullFlag(page, hasNulls, i) == Ok(flags[i])
    ensures Slots(page, hasNulls, ranges, picked) == Ok(PickedSlots(rows, flags, picked))
  {
    hide NullFlag;
    if picked != [] {
      var init, last := picked[..|picked| - 1], picked[|picked| - 1];
      SlotsOfPage(page, hasNulls, ranges, rows, flags, init);
      assert rows[last] == page.data[ranges[last].start..ranges[last].end];
      assert PickedSlots(rows, flags, picked) == PickedSlots(rows, flags, init) + [RowSlot(rows, flags, last)];
    }
  }

  /** The bytes a selection copies. */
  function PickedSize(rows: seq<seq<byte>>, flags: seq<bool>, picked: seq<nat>): nat
    requires |rows| == |flags|
  {
    if picked == [] then 0
    else
      var last := picked[|picked| - 1];
      PickedSize(rows, flags, picked[..|picked| - 1]) + (if last < |rows| && !flags[last] then |rows[last]| else 0)
  }

  lemma {:induction false} PickedTotal(rows: seq<seq<byte>>, flags: seq<bool>, picked: seq<nat>)
    requires |rows| == |flags| && InRange(picked, |rows|)
    ensures |Flatten(Contents(PickedSlots(rows, flags, picked)))| == PickedSize(rows, flags, picked)
  {
    hide Flatten;
    if picked == [] {
      assert Contents(PickedSlots(rows, flags, picked)) == [];
      assert Flatten<byte>([]) == [] by {
        NothingFlat();
      }
    } else {
      var init, last := picked[..|picked| - 1], picked[|picked| - 1];
      PickedTotal(rows, flags, init);
      var slot := RowSlot(rows, flags, last);
      assert PickedSlots(rows, flags, picked) == PickedSlots(rows, flags, init) + [slot];
      ContentsSnoc(PickedSlots(rows, flags, init), slot);
      FlattenSnoc(Contents(PickedSlots(rows, flags, init)), if slot.Some? then slot.value else []);
    }
  }

  lemma NothingFlat()
    ensures Flatten<byte>([]) == []
  {
  }

  lemma SpecOfPage(layout: Layout, page: Page, rows: seq<seq<byte>>, flags: seq<bool>, selection: RowSelection)
    requires PageHolds(layout, page, rows, flags) && SelectedRows(selection, page.rowCount).Ok?
    ensures InRange(SelectedRows(selection, page.rowCount).value, |rows|)
    ensures SelectedSpec(layout, page, selection) ==
      ToColumn(PickedSlots(rows, flags, SelectedRows(selection, page.rowCount).value))
  {
    hide HasNulls, NullFlag, RangesOf, RowsOf, SelectedRows, Slots, ToColumn, Written;
    SelectedInRange(selection, page.rowCount);
    RangesOfWritten(layout, rows);
    var ranges := RangesOf(layout, page.data, page.rowCount).value;
    SlotsOfPage(page, HasNulls(page).value, ranges, rows, flags, SelectedRows(selection, page.rowCount).value);
  }

  lemma BadSelectionFails(layout: Layout, page: Page, selection: RowSelection)
    requires SelectedRows(selection, page.rowCount).Err?
    ensures SelectedSpec(layout, page, selection).Err?
  {
    hide HasNulls, SelectedRows;
  }

  /** An export of a written page succeeds exactly on a good selection whose bytes fit 32-bit offsets; slot `i` of
      the exported column is then the `i`-th selected row: null under its flag, its own bytes otherwise. */
  lemma ExportHoldsRows(layout: Layout, page: Page, rows: seq<seq<byte>>, flags: seq<bool>, selection: RowSelection)
    requires PageHolds(layout, page, rows, flags)
    ensures var r, picked := SelectedSpec(layout, page, selection), SelectedRows(selection, page.rowCount);
      && (r.Ok? <==> picked.Ok? && PickedSize(rows, flags, picked.value) <= I32_MAX)
      && (r.Ok? ==> InRange(picked.value, |rows|) && ColumnHolds(r.value, rows, flags, picked.value)
                    && VarBytesStrings.Exported(layout, page, selection) == r)
  {
    hide SelectedSpec, HasNulls, NullFlag, SelectedRows, PageHolds, ColumnHolds, VarBytesStrings.Exported, Flatten;
    if SelectedRows(selection, page.rowCount).Err? {
      BadSelectionFails(layout, page, selection);
    } else {
      var picked := SelectedRows(selection, page.rowCount).value;
      PageShape(layout, page, rows, flags);
      SpecOfPage(layout, page, rows, flags, selection);
      PickedTotal(rows, flags, picked);
      if SelectedSpec(layout, page, selection).Ok? {
        ColumnOfPicked(rows, flags, picked);
        VarBytesStrings.ExportedIsSelected(layout, page, selection);
      }
    }
  }

  lemma PageShape(layout: Layout, page: Page, rows: seq<seq<byte>>, flags: seq<bool>)
    requires PageHolds(layout, page, rows, flags)
    ensures |rows| == |flags| == page.rowCount
  {
  }

  /** Slot `i` of the column holds row `picked[i]`. */
  predicate ColumnHolds(column: Column, rows: seq<seq<byte>>, flags: seq<bool>, picked: seq<nat>)
    requires |rows| == |flags| && InRange(picked, |rows|)
  {
    |column.offsets| == |picked| + 1 && forall i :: 0 <= i < |picked| ==> SlotHolds(column, i, rows, flags, picked[i])
  }

  predicate SlotHolds(column: Column, i: nat, rows: seq<seq<byte>>, flags: seq<bool>, row: nat)
    requires row < |rows| == |flags|
  {
    && i + 1 < |column.offsets| && column.offsets[i] <= column.offsets[i + 1] <= |column.values|
    && ColumnSlot(column, i) == RowSlot(rows, flags, row)
  }

  lemma ColumnOfPicked(rows: seq<seq<byte>>, flags: seq<bool>, picked: seq<nat>)
    requires |rows| == |flags| && InRange(picked, |rows|) && ToColumn(PickedSlots(rows, flags, picked)).Ok?
    ensures ColumnHolds(ToColumn(PickedSlots(rows, flags, picked)).value, rows, flags, picked)
  {
    hide ColumnSlot;
    var slots := PickedSlots(rows, flags, picked);
    var column := ToColumn(slots).value;
    forall i | 0 <= i < |picked| ensures SlotHolds(column, i, rows, flags, picked[i]) {
      ColumnReadsBack(slots, i);
    }
  }

  // ---- the converter's pages ----------------------------------------------------------------------------

  /** The rows of a range of a column of bytes. */
  function BlobsAt(c: Converted.Column, start: nat, len: nat): (rows: seq<seq<byte>>)
    requires c.values.VarBytes? && start + len <= |c.values.blobs|
    ensures |rows| == len && forall i :: 0 <= i < len ==> rows[i] == c.values.blobs[start + i]
  {
    seq(len, i requires 0 <= i < len => c.values.blobs[start + i])
  }

  /** A page cut from a column of bytes holds its rows and its null flags. */
  lemma CutPageHolds(c: Converted.Column, start: nat, len: u32, spec: Paging.PageSpec)
    requires c.values.VarBytes? && start + len <= |c.values.blobs|
    requires Paging.CutPage(c, start, len) == Ok(spec) && |spec.payload| < TWO_63
    ensures PageRoundTrip.ArrayOf(c, spec).Ok?
    ensures PageHolds(U32Prefixed, SignedColumns.PageOf(c, spec), BlobsAt(c, start, len),
      Paging.NullFlags(c, start, len))
  {
    hide PageRoundTrip.ArrayOf, Paging.CutPage, HasNulls, NullFlag, U32Page, Converted.IsNull;
    PageRoundTrip.ArrayOfPage(c, start, len, spec);
    SignedColumns.EmptyPage(c, start, len, spec);
    var page, flags := SignedColumns.PageOf(c, spec), Paging.NullFlags(c, start, len);
    forall i | 0 <= i < |flags| ensures NullFlag(page, HasNulls(page).value, i) == Ok(flags[i]) {
      SignedColumns.PageFlag(c, start, len, spec, i);
    }
    RowsAreSlots(c, start, len);
  }

  lemma RowsAreSlots(c: Converted.Column, start: nat, len: nat)
    requires c.values.VarBytes? && start + len <= |c.values.blobs|
    ensures Paging.SlotsOf(c.values, start, len) == BlobsAt(c, start, len)
  {
  }
}
