/** Variable-width pages: how they frame into records, and the simple form of their Arrow export. */
module VarBytes {
  import opened Wrappers
  import opened Sequences
  import Bits
  import opened Wire
  import opened BitPacking
  import opened ArrayPage
  import opened Selection

  datatype Layout = U32Prefixed | Leb128Prefixed

  /** The bytes of one record, without its length prefix. */
  datatype Range = Range(start: nat, end: nat)

  /** The records read so far and the position behind them. */
  datatype Frames = Frames(ranges: seq<Range>, end: nat)

  /** A slice never exceeds `isize::MAX` bytes. */
  predicate InMemory(data: seq<byte>) {
    |data| < TWO_63
  }

  // ---- framing ----------------------------------------------------------------------------------

  /** `read_u32_len_prefixed_range`. */
  function U32RangeAt(data: seq<byte>, pos: nat): (r: Result<Range>)
    ensures r.Ok? ==> r.value.start == pos + 4 && r.value.start <= r.value.end <= |data|
  {
    if pos + 4 >= TWO_64 then Err(ArithOverflow)
    else if pos + 4 > |data| then Err(OffsetRange)
    else
      var end := pos + 4 + FromLE(data[pos..pos + 4]);
      if end >= TWO_64 then Err(ArithOverflow)
      else if end > |data| then Err(OffsetRange)
      else Ok(Range(pos + 4, end))
  }

  /** `read_leb128_len_prefixed_range`. */
  function LebRangeAt(data: seq<byte>, pos: nat): (r: Result<Range>)
    ensures r.Ok? ==> pos < r.value.start <= r.value.end <= |data|
  {
    if pos > |data| then Err(OffsetRange)
    else
      var decoded :- DecodeLeb(data[pos..]);
      var start := pos + decoded.1;
      if start + decoded.0 >= TWO_64 then Err(ArithOverflow)
      else if start + decoded.0 > |data| then Err(OffsetRange)
      else Ok(Range(start, start + decoded.0))
  }

  function RangeAt(layout: Layout, data: seq<byte>, pos: nat): (r: Result<Range>)
    ensures r.Ok? ==> pos < r.value.start <= r.value.end <= |data|
  {
    if layout == U32Prefixed then U32RangeAt(data, pos) else LebRangeAt(data, pos)
  }

  predicate RangesWithin(data: seq<byte>, ranges: seq<Range>) {
    forall i :: 0 <= i < |ranges| ==> ranges[i].start <= ranges[i].end <= |data|
  }

  /** The first `n` records of a page. */
  function FramesUpTo(layout: Layout, data: seq<byte>, n: nat): (r: Result<Frames>)
    ensures r.Ok? ==> |r.value.ranges| == n && r.value.end <= |data| && RangesWithin(data, r.value.ranges)
  {
    if n == 0 then Ok(Frames([], 0))
    else
      var before :- FramesUpTo(layout, data, n - 1);
      var range :- RangeAt(layout, data, before.end);
      Ok(Frames(before.ranges + [range], range.end))
  }

  lemma {:induction false} FramesPrefix(layout: Layout, data: seq<byte>, n: nat, m: nat)
    requires n <= m
    ensures FramesUpTo(layout, data, n).Err? ==> FramesUpTo(layout, data, m) == FramesUpTo(layout, data, n)
    ensures FramesUpTo(layout, data, m).Ok? ==>
      && FramesUpTo(layout, data, n).Ok?
      && FramesUpTo(layout, data, n).value.ranges == FramesUpTo(layout, data, m).value.ranges[..n]
      && FramesUpTo(layout, data, n).value.end <= FramesUpTo(layout, data, m).value.end
    decreases m - n
  {
    hide RangeAt;
    if n < m {
      FramesPrefix(layout, data, n, m - 1);
    }
  }

  /** `parse_ranges`: every record, and nothing behind the last one. */
  function RangesOf(layout: Layout, data: seq<byte>, n: nat): (r: Result<seq<Range>>)
    ensures r.Ok? ==> |r.value| == n && RangesWithin(data, r.value)
  {
    var frames :- FramesUpTo(layout, data, n);
    if frames.end != |data| then Err(PageCorrupt) else Ok(frames.ranges)
  }

  method ParseRanges(layout: Layout, data: seq<byte>, rowCount: u64) returns (r: Result<seq<Range>>)
    ensures r == RangesOf(layout, data, rowCount)
  {
    var ranges: seq<Range> := [];
    var pos := 0;
    for row := 0 to rowCount
      invariant FramesUpTo(layout, data, row) == Ok(Frames(ranges, pos))
    {
      var range := RangeAt(layout, data, pos);
      if range.Err? {
        FramesPrefix(layout, data, row + 1, rowCount);
        return Err(range.error);
      }
      ranges, pos := ranges + [range.value], range.value.end;
    }
    if pos != |data| {
      return Err(PageCorrupt);
    }
    return Ok(ranges);
  }

  /** The bytes of the records. */
  function RowsOf(data: seq<byte>, ranges: seq<Range>): (rows: seq<seq<byte>>)
    requires RangesWithin(data, ranges)
    ensures |rows| == |ranges| && forall i :: 0 <= i < |ranges| ==> rows[i] == data[ranges[i].start..ranges[i].end]
  {
    seq(|ranges|, i requires 0 <= i < |ranges| => data[ranges[i].start..ranges[i].end])
  }

  // ---- framing undoes the page writer -----------------------------------------------------------

  function U32Record(row: seq<byte>): seq<byte> {
    ToLE(|row|, 4) + row
  }

  /** A u32-prefixed page with these records. */
  function U32Page(rows: seq<seq<byte>>): seq<byte> {
    if rows == [] then [] else U32Page(rows[..|rows| - 1]) + U32Record(rows[|rows| - 1])
  }

  predicate PrefixesFit(rows: seq<seq<byte>>) {
    forall i :: 0 <= i < |rows| ==> |rows[i]| < TWO_32
  }

  lemma U32RecordRead(before: seq<byte>, row: seq<byte>, after: seq<byte>)
    requires |row| < TWO_32 && InMemory(before + U32Record(row) + after)
    ensures var data := before + U32Record(row) + after;
      && U32RangeAt(data, |before|) == Ok(Range(|before| + 4, |before| + 4 + |row|))
      && data[|before| + 4..|before| + 4 + |row|] == row
  {
    var data := before + U32Record(row) + after;
    Pow256Values();
    FromToLE(|row|, 4);
    hide ToLE, FromLE;
    var head := before + ToLE(|row|, 4);
    assert data == before + ToLE(|row|, 4) + (row + after) == head + row + after;
    assert data[|before|..|before| + 4] == ToLE(|row|, 4);
    assert data[|head|..|head| + |row|] == row;
  }

  lemma PageSplit(rows: seq<seq<byte>>, after: seq<byte>)
    requires rows != []
    ensures var init, record := U32Page(rows[..|rows| - 1]), U32Record(rows[|rows| - 1]);
      && U32Page(rows) + after == init + (record + after) == init + record + after
      && |U32Page(rows)| == |init| + 4 + |rows[|rows| - 1]|
  {
    var init, record := U32Page(rows[..|rows| - 1]), U32Record(rows[|rows| - 1]);
    assert U32Page(rows) == init + record;
  }

  /** Reading back a page gives the records it was written from, whatever follows them. */
  lemma {:induction false} FramesOfPage(rows: seq<seq<byte>>, after: seq<byte>)
    requires PrefixesFit(rows) && InMemory(U32Page(rows) + after)
    ensures var data := U32Page(rows) + after; var r := FramesUpTo(U32Prefixed, data, |rows|);
      r.Ok? && r.value.end == |U32Page(rows)| && RowsOf(data, r.value.ranges) == rows
  {
    if rows == [] {
    } else {
      var init, last := rows[..|rows| - 1], rows[|rows| - 1];
      var data := U32Page(rows) + after;
      PageSplit(rows, after);
      hide U32Page, U32Record, RowsOf, U32RangeAt;
      FramesOfPage(init, U32Record(last) + after);
      U32RecordRead(U32Page(init), last, after);
      var before := FramesUpTo(U32Prefixed, data, |init|).value;
      RowsSnoc(data, before.ranges, Range(before.end + 4, before.end + 4 + |last|));
      assert rows == init + [last];
    }
  }

  lemma RowsSnoc(data: seq<byte>, ranges: seq<Range>, range: Range)
    requires RangesWithin(data, ranges) && range.start <= range.end <= |data|
    ensures RangesWithin(data, ranges + [range])
    ensures RowsOf(data, ranges + [range]) == RowsOf(data, ranges) + [data[range.start..range.end]]
  {
  }

  /** A page that frames is the page written from its records: a u32 prefix has one spelling. */
  lemma {:induction false} PageOfFrames(data: seq<byte>, n: nat)
    requires FramesUpTo(U32Prefixed, data, n).Ok?
    ensures var frames := FramesUpTo(U32Prefixed, data, n).value;
      && U32Page(RowsOf(data, frames.ranges)) == data[..frames.end]
      && PrefixesFit(RowsOf(data, frames.ranges))
  {
    var frames := FramesUpTo(U32Prefixed, data, n).value;
    if n == 0 {
      assert RowsOf(data, frames.ranges) == [];
    } else {
      PageOfFrames(data, n - 1);
      var before := FramesUpTo(U32Prefixed, data, n - 1).value;
      var range := U32RangeAt(data, before.end).value;
      assert frames == Frames(before.ranges + [range], range.end);
      hide RowsOf, U32RangeAt, U32Record, FramesUpTo;
      RowsSnoc(data, before.ranges, range);
      RecordWritten(data, before.end);
      var rows := RowsOf(data, frames.ranges);
      assert rows[..n - 1] == RowsOf(data, before.ranges);
      assert data[..frames.end] == data[..before.end] + data[before.end..frames.end];
    }
  }

  lemma RecordWritten(data: seq<byte>, pos: nat)
    requires U32RangeAt(data, pos).Ok?
    ensures var range := U32RangeAt(data, pos).value; var row := data[range.start..range.end];
      |row| < TWO_32 && data[pos..range.end] == U32Record(row)
  {
    var range := U32RangeAt(data, pos).value;
    var prefix := data[pos..pos + 4];
    Pow256Values();
    ToFromLE(prefix);
    hide FromLE, ToLE;
    assert data[pos..range.end] == prefix + data[range.start..range.end];
  }

  /** `rows` are the records of the page `data`, with nothing left over. */
  ghost predicate Holds(data: seq<byte>, rows: seq<seq<byte>>) {
    PrefixesFit(rows) && data == U32Page(rows)
  }

  /** A page frames exactly when it is written from that many records, and then these are its records. */
  lemma FramesExactly(data: seq<byte>, n: nat)
    requires InMemory(data)
    ensures RangesOf(U32Prefixed, data, n).Ok? <==> exists rows :: |rows| == n && Holds(data, rows)
    ensures RangesOf(U32Prefixed, data, n).Ok? ==> Holds(data, RowsOf(data, RangesOf(U32Prefixed, data, n).value))
    ensures forall rows :: |rows| == n && Holds(data, rows) ==>
      RangesOf(U32Prefixed, data, n).Ok? && rows == RowsOf(data, RangesOf(U32Prefixed, data, n).value)
  {
    if RangesOf(U32Prefixed, data, n).Ok? {
      PageOfFrames(data, n);
      assert data[..|data|] == data;
    }
    forall rows | |rows| == n && Holds(data, rows)
      ensures RangesOf(U32Prefixed, data, n).Ok? && rows == RowsOf(data, RangesOf(U32Prefixed, data, n).value)
    {
      assert data + [] == data;
      FramesOfPage(rows, []);
    }
  }

  // ---- exported columns ---------------------------------------------------------------------------

  datatype Column = Column(offsets: seq<nat>, values: seq<byte>, nulls: Option<NullBuffer>)

  const I32_MAX: nat := TWO_31 - 1

  /** A slot of a variable-width column: null, or its bytes. */
  type Slot = Option<seq<byte>>

  function Contents(slots: seq<Slot>): (rows: seq<seq<byte>>)
    ensures |rows| == |slots|
    ensures forall i :: 0 <= i < |slots| ==> rows[i] == if slots[i].Some? then slots[i].value else []
  {
    seq(|slots|, i requires 0 <= i < |slots| => if slots[i].Some? then slots[i].value else [])
  }

  function Present(slots: seq<Slot>): (valid: seq<bool>)
    ensures |valid| == |slots| && forall i :: 0 <= i < |slots| ==> valid[i] == slots[i].Some?
  {
    seq(|slots|, i requires 0 <= i < |slots| => slots[i].Some?)
  }

  /** Offsets are running totals of the row lengths, values the rows end to end, null rows empty. */
  function ToColumn(slots: seq<Slot>): Result<Column> {
    var rows := Contents(slots);
    if |Flatten(rows)| > I32_MAX then Err(ArithOverflow)
    else Ok(Column(Offsets(rows), Flatten(rows), NullsOf(Present(slots))))
  }

  function SlotAt(page: Page, hasNulls: bool, ranges: seq<Range>, row: nat): Result<Slot>
    requires RangesWithin(page.data, ranges) && row < |ranges|
  {
    var isNull :- NullFlag(page, hasNulls, row);
    Ok(if isNull then None else Some(page.data[ranges[row].start..ranges[row].end]))
  }

  /** The slots of a list of rows; the first failing row decides the error. */
  function Slots(page: Page, hasNulls: bool, ranges: seq<Range>, rows: seq<nat>): (r: Result<seq<Slot>>)
    requires RangesWithin(page.data, ranges) && InRange(rows, |ranges|)
    ensures r.Ok? ==> |r.value| == |rows|
  {
    if rows == [] then Ok([])
    else
      var done :- Slots(page, hasNulls, ranges, rows[..|rows| - 1]);
      var slot :- SlotAt(page, hasNulls, ranges, rows[|rows| - 1]);
      Ok(done + [slot])
  }

  /** These rows of a page that frames, as a column. */
  function ColumnSpec(layout: Layout, page: Page, hasNulls: bool, rows: seq<nat>): Result<Column>
    requires InRange(rows, page.rowCount)
  {
    var ranges :- RangesOf(layout, page.data, page.rowCount);
    var slots :- Slots(page, hasNulls, ranges, rows);
    ToColumn(slots)
  }

  /** The simple form of an export: frame the whole page, then copy the selected rows one by one. */
  function SelectedSpec(layout: Layout, page: Page, selection: RowSelection): Result<Column> {
    var hasNulls :- HasNulls(page);
    var rows :- SelectedRows(selection, page.rowCount);
    SelectedInRange(selection, page.rowCount);
    ColumnSpec(layout, page, hasNulls, rows)
  }

  /** What an exporter owes a simple form: it succeeds on the same pages, with the same column. */
  predicate SameSuccess<T(==)>(r: Result<T>, spec: Result<T>) {
    r.Ok? == spec.Ok? && (r.Ok? ==> r == spec)
  }

  // ---- facts about slots --------------------------------------------------------------------------

  lemma SlotsSnoc(page: Page, hasNulls: bool, ranges: seq<Range>, rows: seq<nat>, row: nat)
    requires RangesWithin(page.data, ranges) && InRange(rows, |ranges|) && row < |ranges|
    ensures InRange(rows + [row], |ranges|)
    ensures var done, slot := Slots(page, hasNulls, ranges, rows), SlotAt(page, hasNulls, ranges, row);
      Slots(page, hasNulls, ranges, rows + [row]) ==
        if done.Err? then done else if slot.Err? then Err(slot.error) else Ok(done.value + [slot.value])
  {
    assert (rows + [row])[..|rows|] == rows;
  }

  /** Slots only look at the ranges of their own rows. */
  lemma {:induction false} SlotsLocal(page: Page, hasNulls: bool, a: seq<Range>, b: seq<Range>, rows: seq<nat>)
    requires RangesWithin(page.data, a) && RangesWithin(page.data, b)
    requires |a| <= |b| && a == b[..|a|] && InRange(rows, |a|)
    ensures InRange(rows, |b|) && Slots(page, hasNulls, a, rows) == Slots(page, hasNulls, b, rows)
  {
    if rows != [] {
      SlotsLocal(page, hasNulls, a, b, rows[..|rows| - 1]);
    }
  }

  /** The slots of a prefix of the rows are a prefix of the slots. */
  lemma {:induction false} SlotsPrefix(page: Page, hasNulls: bool, ranges: seq<Range>, rows: seq<nat>, n: nat)
    requires RangesWithin(page.data, ranges) && InRange(rows, |ranges|) && n <= |rows|
    requires Slots(page, hasNulls, ranges, rows).Ok?
    ensures InRange(rows[..n], |ranges|) && Slots(page, hasNulls, ranges, rows[..n]).Ok?
    ensures Slots(page, hasNulls, ranges, rows[..n]).value == Slots(page, hasNulls, ranges, rows).value[..n]
    decreases |rows|
  {
    hide SlotAt;
    if n == |rows| {
      assert rows[..n] == rows;
    } else {
      var init := rows[..|rows| - 1];
      SlotsPrefix(page, hasNulls, ranges, init, n);
      assert init[..n] == rows[..n];
    }
  }

  lemma ContentsSnoc(slots: seq<Slot>, slot: Slot)
    ensures Contents(slots + [slot]) == Contents(slots) + [if slot.Some? then slot.value else []]
    ensures Present(slots + [slot]) == Present(slots) + [slot.Some?]
  {
  }

  lemma OffsetsSnoc(rows: seq<seq<byte>>, row: seq<byte>)
    ensures Flatten(rows + [row]) == Flatten(rows) + row
    ensures Offsets(rows + [row]) == Offsets(rows) + [|Flatten(rows)| + |row|]
  {
    FlattenSnoc(rows, row);
    assert (rows + [row])[..|rows|] == rows;
  }

  lemma PrefixTotal(slots: seq<Slot>, n: nat)
    requires n <= |slots|
    ensures |Flatten(Contents(slots[..n]))| <= |Flatten(Contents(slots))|
  {
    assert Contents(slots[..n]) == Contents(slots)[..n];
    OffsetAt(Contents(slots), n);
    OffsetsMonotone(Contents(slots), n, n);
  }

  // ---- a selection is a gather of the whole column ------------------------------------------------

  /** Slot `i` of an exported column, read back through its offsets and null buffer. */
  function ColumnSlot(column: Column, i: nat): Slot
    requires i + 1 < |column.offsets| && column.offsets[i] <= column.offsets[i + 1] <= |column.values|
  {
    if column.nulls.Some? && i / 8 < |column.nulls.value.bytes|
      && !Bits.Bit(column.nulls.value.bytes[i / 8], i % 8) then None
    else Some(column.values[column.offsets[i]..column.offsets[i + 1]])
  }

  /** Reading a column back gives the slots it was built from. */
  lemma ColumnReadsBack(slots: seq<Slot>, i: nat)
    requires ToColumn(slots).Ok? && i < |slots|
    ensures var c := ToColumn(slots).value;
      && |c.offsets| == |slots| + 1 && c.offsets[i] <= c.offsets[i + 1] <= |c.values|
      && ColumnSlot(c, i) == slots[i]
  {
    RowSlice(Contents(slots), i);
    NullsReadBack(Present(slots), i / 8, i % 8);
    hide NullsOf, Bits.Bit, Offsets, Flatten;
  }

  lemma {:induction false} SlotsEach(page: Page, hasNulls: bool, ranges: seq<Range>, rows: seq<nat>, i: nat)
    requires RangesWithin(page.data, ranges) && InRange(rows, |ranges|) && i < |rows|
    requires Slots(page, hasNulls, ranges, rows).Ok?
    ensures SlotAt(page, hasNulls, ranges, rows[i]) == Ok(Slots(page, hasNulls, ranges, rows).value[i])
  {
    hide SlotAt;
    if i < |rows| - 1 {
      SlotsEach(page, hasNulls, ranges, rows[..|rows| - 1], i);
    }
  }

  /** Slot `i` of one column holds what slot `j` of another holds. */
  predicate SameSlot(a: Column, i: nat, b: Column, j: nat) {
    && i + 1 < |a.offsets| && a.offsets[i] <= a.offsets[i + 1] <= |a.values|
    && j + 1 < |b.offsets| && b.offsets[j] <= b.offsets[j + 1] <= |b.values|
    && ColumnSlot(a, i) == ColumnSlot(b, j)
  }

  lemma SameRowSameSlot(page: Page, hasNulls: bool, ranges: seq<Range>, a: seq<nat>, b: seq<nat>, i: nat, j: nat)
    requires RangesWithin(page.data, ranges) && InRange(a, |ranges|) && InRange(b, |ranges|)
    requires i < |a| && j < |b| && a[i] == b[j]
    requires Slots(page, hasNulls, ranges, a).Ok? && ToColumn(Slots(page, hasNulls, ranges, a).value).Ok?
    requires Slots(page, hasNulls, ranges, b).Ok? && ToColumn(Slots(page, hasNulls, ranges, b).value).Ok?
    ensures SameSlot(ToColumn(Slots(page, hasNulls, ranges, a).value).value, i,
      ToColumn(Slots(page, hasNulls, ranges, b).value).value, j)
    ensures |ToColumn(Slots(page, hasNulls, ranges, a).value).value.offsets| == |a| + 1
  {
    hide Slots, SlotAt, ToColumn, ColumnSlot;
    SlotsEach(page, hasNulls, ranges, a, i);
    SlotsEach(page, hasNulls, ranges, b, j);
    ColumnReadsBack(Slots(page, hasNulls, ranges, a).value, i);
    ColumnReadsBack(Slots(page, hasNulls, ranges, b).value, j);
  }

  /** A selected export is a gather of the export of the whole page: slot `i` holds slot `rows[i]`. */
  lemma SelectionGathersColumn(layout: Layout, page: Page, selection: RowSelection, whole: Column, part: Column,
      rows: seq<nat>, i: nat)
    requires SelectedSpec(layout, page, All) == Ok(whole) && SelectedSpec(layout, page, selection) == Ok(part)
    requires SelectedRows(selection, page.rowCount) == Ok(rows) && i < |rows|
    ensures |part.offsets| == |rows| + 1 && SameSlot(part, i, whole, rows[i])
  {
    var ranges := RangesOf(layout, page.data, page.rowCount).value;
    var hasNulls := HasNulls(page).value;
    SelectedInRange(selection, page.rowCount);
    SelectedInRange(All, page.rowCount);
    hide Slots, RangesOf, HasNulls, ToColumn, SameSlot;
    SameRowSameSlot(page, hasNulls, ranges, rows, FirstRows(page.rowCount), i, rows[i]);
  }
}
