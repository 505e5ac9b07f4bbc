/** Whole-page export of variable-width columns: the generic loop, the one-pass copy and the fixed-length copy. */
module VarBytesExport {
  import opened Wrappers
  import Bits
  import opened Sequences
  import opened Wire
  import opened Utf8
  import opened RawCopy
  import opened BitPacking
  import opened ArrayPage
  import opened Selection
  import opened VarBytes

  // ---- the generic loop -------------------------------------------------------------------------

  /** Reading one more record. */
  lemma NextRecord(layout: Layout, page: Page, hasNulls: bool, row: nat, before: Frames, range: Range)
    requires FramesUpTo(layout, page.data, row) == Ok(before) && RangeAt(layout, page.data, before.end) == Ok(range)
    ensures var after := Frames(before.ranges + [range], range.end);
      && FramesUpTo(layout, page.data, row + 1) == Ok(after)
      && InRange(FirstRows(row), row) && InRange(FirstRows(row + 1), row + 1)
      && var done := Slots(page, hasNulls, before.ranges, FirstRows(row));
         var slot := SlotAt(page, hasNulls, after.ranges, row);
         Slots(page, hasNulls, after.ranges, FirstRows(row + 1)) ==
           if done.Err? then done else if slot.Err? then Err(slot.error) else Ok(done.value + [slot.value])
  {
    var after := before.ranges + [range];
    hide Slots, SlotAt, RangeAt;
    FirstSnoc(row);
    hide FirstRows;
    assert after[..row] == before.ranges;
    SlotsLocal(page, hasNulls, before.ranges, after, FirstRows(row));
    SlotsSnoc(page, hasNulls, after, FirstRows(row), row);
  }

  /** What every prefix of an exportable page satisfies. */
  lemma PrefixExports(layout: Layout, page: Page, hasNulls: bool, n: nat)
    requires InRange(FirstRows(page.rowCount), page.rowCount) && n <= page.rowCount
    requires ColumnSpec(layout, page, hasNulls, FirstRows(page.rowCount)).Ok?
    ensures FramesUpTo(layout, page.data, n).Ok? && InRange(FirstRows(n), n)
    ensures var slots := Slots(page, hasNulls, FramesUpTo(layout, page.data, n).value.ranges, FirstRows(n));
      slots.Ok? && |Flatten(Contents(slots.value))| <= I32_MAX
  {
    FramesPrefix(layout, page.data, n, page.rowCount);
    var ranges := RangesOf(layout, page.data, page.rowCount).value;
    var all := Slots(page, hasNulls, ranges, FirstRows(page.rowCount)).value;
    SlotsPrefix(page, hasNulls, ranges, FirstRows(page.rowCount), n);
    assert FirstRows(page.rowCount)[..n] == FirstRows(n);
    SlotsLocal(page, hasNulls, FramesUpTo(layout, page.data, n).value.ranges, ranges, FirstRows(n));
    hide Slots, FramesUpTo, RangesOf, FirstRows;
    PrefixTotal(all, n);
  }

  /** One turn: the null flag is looked up, and a non-null record's bytes are appended. */
  method AppendSlot(page: Page, hasNulls: bool, ghost ranges: seq<Range>, range: Range, row: nat,
      builder: ArrowValidityBuilder?,
      offsets: seq<nat>, values: seq<byte>, ghost slots: seq<Slot>)
    returns (r: Result<(seq<nat>, seq<byte>)>, ghost slot: Slot)
    requires RangesWithin(page.data, ranges) && row < |ranges| && ranges[row] == range
    requires builder == null <==> !hasNulls
    requires builder != null ==> builder.Valid() && builder.pos < builder.len && builder.contents == Present(slots)
    requires offsets == Offsets(Contents(slots)) && values == Flatten(Contents(slots))
    modifies builder
    ensures SlotAt(page, hasNulls, ranges, row).Err? ==> r == Err(SlotAt(page, hasNulls, ranges, row).error)
    ensures SlotAt(page, hasNulls, ranges, row).Ok? ==> slot == SlotAt(page, hasNulls, ranges, row).value
    ensures SlotAt(page, hasNulls, ranges, row).Ok? ==> (r.Ok? <==> |Flatten(Contents(slots + [slot]))| <= I32_MAX)
    ensures r.Ok? ==> r.value == (Offsets(Contents(slots + [slot])), Flatten(Contents(slots + [slot])))
    ensures builder != null ==> builder.Valid() && builder.len == old(builder.len)
    ensures builder != null && r.Ok? ==> builder.contents == Present(slots + [slot])
  {
    hide PackBits, Falses, Offsets, Flatten, Present, Contents, CountFalse;
    slot := None;
    var isNull := NullFlag(page, hasNulls, row);
    if isNull.Err? {
      r := Err(isNull.error);
      return;
    }
    if builder != null {
      builder.Append(!isNull.value);
    }
    var bytes: seq<byte> := if isNull.value then [] else page.data[range.start..range.end];
    slot := if isNull.value then None else Some(bytes);
    ContentsSnoc(slots, slot);
    OffsetsSnoc(Contents(slots), bytes);
    var next := values + bytes;
    if |next| > I32_MAX {
      r := Err(ArithOverflow);
      return;
    }
    r := Ok((offsets + [|next|], next));
  }

  /** The loop of `materialize_all_rows`. */
  method MaterializeGeneric(layout: Layout, page: Page, hasNulls: bool) returns (r: Result<Column>)
    ensures InRange(FirstRows(page.rowCount), page.rowCount)
    ensures SameSuccess(r, ColumnSpec(layout, page, hasNulls, FirstRows(page.rowCount)))
  {
    hide RangeAt, PackBits, Falses, FramesUpTo, Slots, SlotAt, Contents, Present, Offsets, Flatten, FirstRows, NullsOf;
    var offsets: seq<nat>, values: seq<byte> := [0], [];
    var builder := NewBuilder(hasNulls, page.rowCount);
    ghost var ranges: seq<Range>, slots: seq<Slot> := [], [];
    NoRecords(layout, page, hasNulls);
    var pos := 0;
    for row := 0 to page.rowCount
      invariant builder == null <==> !hasNulls
      invariant builder != null ==>
        fresh(builder) && builder.Valid() && builder.len == page.rowCount && builder.contents == Present(slots)
      invariant |slots| == |ranges| == row
      invariant FramesUpTo(layout, page.data, row) == Ok(Frames(ranges, pos))
      invariant InRange(FirstRows(row), row) && Slots(page, hasNulls, ranges, FirstRows(row)) == Ok(slots)
      invariant offsets == Offsets(Contents(slots)) && values == Flatten(Contents(slots))
      invariant |values| <= I32_MAX
    {
      var range := RangeAt(layout, page.data, pos);
      if range.Err? {
        RecordFails(layout, page, hasNulls, row);
        return Err(range.error);
      }
      NextRecord(layout, page, hasNulls, row, Frames(ranges, pos), range.value);
      ranges := ranges + [range.value];
      pos := range.value.end;
      ghost var slot;
      var next;
      next, slot := AppendSlot(page, hasNulls, ranges, range.value, row, builder, offsets, values, slots);
      if next.Err? {
        if ColumnSpec(layout, page, hasNulls, FirstRows(page.rowCount)).Ok? {
          PrefixExports(layout, page, hasNulls, row + 1);
        }
        return Err(next.error);
      }
      slots := slots + [slot];
      offsets, values := next.value.0, next.value.1;
    }
    if pos != |page.data| {
      return Err(PageCorrupt);
    }
    var nulls := FinishBuilder(builder, page, ranges, FirstRows(page.rowCount), slots);
    r := Ok(Column(offsets, values, nulls));
  }

  lemma NoRecords(layout: Layout, page: Page, hasNulls: bool)
    ensures FramesUpTo(layout, page.data, 0) == Ok(Frames([], 0))
    ensures InRange(FirstRows(0), 0) && Slots(page, hasNulls, [], FirstRows(0)) == Ok([])
    ensures Offsets(Contents([])) == [0] && Flatten(Contents([])) == [] && Present([]) == []
  {
    assert FirstRows(0) == [];
  }

  lemma RecordFails(layout: Layout, page: Page, hasNulls: bool, row: nat)
    requires row < page.rowCount && FramesUpTo(layout, page.data, row).Ok?
    requires RangeAt(layout, page.data, FramesUpTo(layout, page.data, row).value.end).Err?
    ensures InRange(FirstRows(page.rowCount), page.rowCount)
    ensures ColumnSpec(layout, page, hasNulls, FirstRows(page.rowCount)).Err?
  {
    hide RangeAt, Slots;
    FramesPrefix(layout, page.data, row + 1, page.rowCount);
  }

  /** Without nulls there is no buffer and every slot is present; with nulls the builder has them all. */
  method FinishBuilder(builder: ArrowValidityBuilder?, ghost page: Page, ghost ranges: seq<Range>,
      ghost rows: seq<nat>, ghost slots: seq<Slot>)
    returns (nulls: Option<NullBuffer>)
    requires RangesWithin(page.data, ranges) && InRange(rows, |ranges|)
    requires Slots(page, builder != null, ranges, rows) == Ok(slots)
    requires builder != null ==> builder.Valid() && builder.len == |slots| && builder.contents == Present(slots)
    ensures nulls == NullsOf(Present(slots))
  {
    hide Slots, NullsOf, PackBits, Falses;
    if builder == null {
      AllPresent(page, ranges, rows);
      return None;
    }
    nulls := builder.Finish();
  }

  lemma {:induction false} AllPresent(page: Page, ranges: seq<Range>, rows: seq<nat>)
    requires RangesWithin(page.data, ranges) && InRange(rows, |ranges|)
    ensures Slots(page, false, ranges, rows).Ok?
    ensures NullsOf(Present(Slots(page, false, ranges, rows).value)) == None
    ensures forall i :: 0 <= i < |rows| ==>
      Slots(page, false, ranges, rows).value[i] == Some(page.data[ranges[rows[i]].start..ranges[rows[i]].end])
  {
    if rows != [] {
      AllPresent(page, ranges, rows[..|rows| - 1]);
      var slots := Slots(page, false, ranges, rows).value;
      assert Present(slots)[..|slots| - 1] == Present(slots[..|slots| - 1]);
    }
  }

  // ---- pages without nulls --------------------------------------------------------------------------

  /** The records of a u32-prefixed page, all of them present. */
  function NoNullsSpec(data: seq<byte>, n: nat): Result<Column> {
    var ranges :- RangesOf(U32Prefixed, data, n);
    var rows := RowsOf(data, ranges);
    if |Flatten(rows)| > I32_MAX then Err(ArithOverflow)
    else Ok(Column(Offsets(rows), Flatten(rows), None))
  }

  lemma NoNullsIsSpec(page: Page)
    ensures InRange(FirstRows(page.rowCount), page.rowCount)
    ensures ColumnSpec(U32Prefixed, page, false, FirstRows(page.rowCount)) == NoNullsSpec(page.data, page.rowCount)
  {
    var ranges := RangesOf(U32Prefixed, page.data, page.rowCount);
    hide RangesOf, Slots, NullsOf, Offsets, Flatten;
    if ranges.Ok? {
      AllPresent(page, ranges.value, FirstRows(page.rowCount));
      var slots := Slots(page, false, ranges.value, FirstRows(page.rowCount)).value;
      assert Contents(slots) == RowsOf(page.data, ranges.value);
    }
  }

  predicate RowsAreUtf8(rows: seq<seq<byte>>) {
    forall i :: 0 <= i < |rows| ==> Utf8Valid(rows[i])
  }

  /** The strict export: the column, provided every row is valid UTF-8. */
  function StrictSpec(data: seq<byte>, n: nat): Result<Column> {
    var ranges :- RangesOf(U32Prefixed, data, n);
    var column :- NoNullsSpec(data, n);
    if RowsAreUtf8(RowsOf(data, ranges)) then Ok(column) else Err(BadSection)
  }

  function NoNulls(validate: bool, data: seq<byte>, n: nat): Result<Column> {
    if validate then StrictSpec(data, n) else NoNullsSpec(data, n)
  }

  /** The records of a strict page, spelled out: `data` holds `n` valid UTF-8 rows whose bytes fit 32-bit
      offsets, and nothing else. */
  lemma StrictAcceptsExactly(data: seq<byte>, n: nat)
    requires InMemory(data)
    ensures StrictSpec(data, n).Ok? <==>
      exists rows :: |rows| == n && Holds(data, rows) && |Flatten(rows)| <= I32_MAX && RowsAreUtf8(rows)
    ensures forall rows :: |rows| == n && Holds(data, rows) && StrictSpec(data, n).Ok? ==>
      StrictSpec(data, n).value == Column(Offsets(rows), Flatten(rows), None)
  {
    FramesExactly(data, n);
    hide Offsets, Flatten, Utf8Valid, RangesOf, U32Page;
  }

  // ---- the state of the copying loops ---------------------------------------------------------------

  /** After the first `row` records: where the reader and the writer are and what has been written. */
  ghost predicate Copied(data: seq<byte>, row: nat, pos: nat, write: nat, offsets: seq<int>, values: seq<byte>) {
    var frames := FramesUpTo(U32Prefixed, data, row);
    && frames.Ok? && frames.value.end == pos && |offsets| > row && write <= |values|
    && var rows := RowsOf(data, frames.value.ranges);
       write == |Flatten(rows)| && values[..write] == Flatten(rows) && offsets[..row + 1] == Offsets(rows)
  }

  /** Every record costs its four prefix bytes. */
  lemma {:induction false} FrameTotal(data: seq<byte>, n: nat)
    requires FramesUpTo(U32Prefixed, data, n).Ok?
    ensures var frames := FramesUpTo(U32Prefixed, data, n).value;
      frames.end == 4 * n + |Flatten(RowsOf(data, frames.ranges))|
  {
    var frames := FramesUpTo(U32Prefixed, data, n).value;
    if n == 0 {
      assert RowsOf(data, frames.ranges) == [];
    } else {
      FrameTotal(data, n - 1);
      var before := FramesUpTo(U32Prefixed, data, n - 1).value;
      var range := U32RangeAt(data, before.end).value;
      hide Flatten, RowsOf;
      RowsSnoc(data, before.ranges, range);
      FlattenSnoc(RowsOf(data, before.ranges), data[range.start..range.end]);
    }
  }

  lemma {:induction false} RemainingPrefixes(data: seq<byte>, n: nat, m: nat)
    requires n <= m && FramesUpTo(U32Prefixed, data, m).Ok?
    ensures FramesUpTo(U32Prefixed, data, n).Ok?
    ensures FramesUpTo(U32Prefixed, data, n).value.end + 4 * (m - n) <= FramesUpTo(U32Prefixed, data, m).value.end
    decreases m - n
  {
    if n < m {
      RemainingPrefixes(data, n, m - 1);
    }
  }

  /** A page with fewer bytes than its prefixes, or less room than its records, does not frame. */
  lemma TooSmall(data: seq<byte>, row: nat, n: nat)
    requires row <= n && FramesUpTo(U32Prefixed, data, row).Ok?
    requires FramesUpTo(U32Prefixed, data, row).value.end + 4 * (n - row) > |data|
    ensures FramesUpTo(U32Prefixed, data, n).Err?
  {
    if FramesUpTo(U32Prefixed, data, n).Ok? {
      RemainingPrefixes(data, row, n);
    }
  }

  lemma SplicePrefix(dst: seq<byte>, at: nat, bytes: seq<byte>)
    requires at + |bytes| <= |dst|
    ensures Spliced(dst, at, bytes)[..at + |bytes|] == dst[..at] + bytes
  {
  }

  /** Copying the record at `pos` behind the records before it. */
  lemma CopyStep(data: seq<byte>, row: nat, pos: nat, write: nat, len: nat, offsets: seq<int>, values: seq<byte>)
    requires Copied(data, row, pos, write, offsets, values) && row + 1 < |offsets|
    requires U32RangeAt(data, pos) == Ok(Range(pos + 4, pos + 4 + len)) && write + len <= |values|
    ensures Copied(data, row + 1, pos + 4 + len, write + len, offsets[row + 1 := write + len],
                   Spliced(values, write, data[pos + 4..pos + 4 + len]))
  {
    var before := FramesUpTo(U32Prefixed, data, row).value;
    var bytes := data[pos + 4..pos + 4 + len];
    assert FramesUpTo(U32Prefixed, data, row + 1) ==
      Ok(Frames(before.ranges + [Range(pos + 4, pos + 4 + len)], pos + 4 + len));
    hide FramesUpTo, U32RangeAt, Offsets, Flatten, Spliced, RowsOf;
    var rows := RowsOf(data, before.ranges);
    RowsSnoc(data, before.ranges, Range(pos + 4, pos + 4 + len));
    OffsetsSnoc(rows, bytes);
    SplicePrefix(values, write, bytes);
    var next := offsets[row + 1 := write + len];
    assert next[..row + 2] == offsets[..row + 1] + [write + len];
  }

  lemma AsciiAppend(a: seq<byte>, b: seq<byte>)
    ensures IsAscii(a + b) <==> IsAscii(a) && IsAscii(b)
  {
    var all := a + b;
    assert forall i :: 0 <= i < |a| ==> a[i] == all[i];
    assert forall i :: 0 <= i < |b| ==> b[i] == all[i + |a|];
    assert forall i :: |a| <= i < |all| ==> all[i] == b[i - |a|];
  }

  /** One record: copied into place, with the ASCII test on the strict path. */
  method CopyRecord(validate: bool, data: seq<byte>, from: nat, len: nat, values: array<byte>, write: nat, seen: bool)
    returns (sawNonAscii: bool)
    requires from + len <= |data| && write + len <= values.Length
    modifies values
    ensures values[..] == Spliced(old(values[..]), write, data[from..from + len])
    ensures validate ==> sawNonAscii == (seen || !IsAscii(data[from..from + len]))
  {
    sawNonAscii := seen;
    if validate {
      var mask := CopyValueMask(data, from, values, write, len);
      sawNonAscii := seen || mask != 0;
    } else {
      CopyValue(data, from, values, write, len);
    }
  }

  lemma AsciiSlice(values: seq<byte>, start: nat, end: nat)
    requires IsAscii(values) && start <= end <= |values|
    ensures Utf8Valid(values[start..end])
  {
    hide Utf8Valid;
    AsciiIsValid(values[start..end]);
  }

  lemma RowAsSlice(rows: seq<seq<byte>>, i: nat)
    requires i < |rows|
    ensures Offsets(rows)[i] <= Offsets(rows)[i + 1]
    ensures RowValid(Offsets(rows), Flatten(rows), i) <==> Utf8Valid(rows[i])
    ensures IsAscii(Flatten(rows)) ==> Utf8Valid(rows[i])
  {
    hide Offsets, Flatten, Utf8Valid, IsAscii;
    RowSlice(rows, i);
    if IsAscii(Flatten(rows)) {
      AsciiSlice(Flatten(rows), Offsets(rows)[i], Offsets(rows)[i + 1]);
    }
  }

  lemma OffsetEnds(rows: seq<seq<byte>>)
    ensures Offsets(rows)[0] == 0 && Offsets(rows)[|rows|] == |Flatten(rows)|
  {
    OffsetAt(rows, 0);
    OffsetAt(rows, |rows|);
    assert rows[..|rows|] == rows && rows[..0] == [];
  }

  /** Checking the column is checking its rows; an ASCII column needs no check. */
  lemma RowsUtf8Columnwise(rows: seq<seq<byte>>)
    ensures WellFormedOffsets(Offsets(rows), |Flatten(rows)|)
    ensures RowsValid(Offsets(rows), Flatten(rows)) <==> RowsAreUtf8(rows)
    ensures IsAscii(Flatten(rows)) ==> RowsAreUtf8(rows)
  {
    OffsetEnds(rows);
    hide Offsets, Flatten, Utf8Valid, IsAscii, RowValid;
    var offsets, values := Offsets(rows), Flatten(rows);
    forall i | 0 < i < |offsets| ensures offsets[i - 1] <= offsets[i] {
      RowAsSlice(rows, i - 1);
    }
    forall i | 0 <= i < |rows| ensures RowValid(offsets, values, i) <==> Utf8Valid(rows[i]) {
      RowAsSlice(rows, i);
    }
    forall i | 0 <= i < |rows| ensures IsAscii(values) ==> Utf8Valid(rows[i]) {
      RowAsSlice(rows, i);
    }
  }

  /** The end of both loops: the UTF-8 check, skipped when every byte was ASCII. */
  method FinishStrict(validate: bool, data: seq<byte>, n: nat, offsets: seq<int>, values: seq<byte>, sawNonAscii: bool)
    returns (r: Result<Column>)
    requires Copied(data, n, |data|, |values|, offsets, values) && |offsets| == n + 1 && |values| <= I32_MAX
    requires validate ==> sawNonAscii == !IsAscii(values)
    ensures SameSuccess(r, NoNulls(validate, data, n))
  {
    hide FramesUpTo, Offsets, Flatten, Utf8Valid, IsAscii;
    ghost var rows := RowsOf(data, FramesUpTo(U32Prefixed, data, n).value.ranges);
    assert values[..|values|] == values && offsets[..n + 1] == offsets;
    RowsUtf8Columnwise(rows);
    if validate && sawNonAscii {
      var check := ValidateUtf8OffsetsSlice(offsets, values);
      if check.Err? {
        return Err(check.error);
      }
    }
    return Ok(Column(offsets, values, None));
  }

  // ---- the fixed-length path ------------------------------------------------------------------------

  /** Where record `row` starts when records are `step` bytes apart. */
  function RowOffset(row: nat, step: nat): nat {
    row * step
  }

  predicate FixedRow(data: seq<byte>, row: nat, len: nat) {
    var pos := RowOffset(row, len + 4);
    pos + 4 <= |data| && FromLE(data[pos..pos + 4]) == len
  }

  /** A page of `n` records that all carry the same length prefix. */
  predicate FixedLength(data: seq<byte>, n: nat, len: nat) {
    |data| == RowOffset(n, len + 4) && forall row :: 0 <= row < n ==> FixedRow(data, row, len)
  }

  lemma RowOffsetNext(row: nat, n: nat, step: nat)
    requires row < n
    ensures RowOffset(row + 1, step) == RowOffset(row, step) + step <= RowOffset(n, step)
  {
    if row + 1 < n {
      Bits.MulGap(n, row + 1, step);
    }
  }

  lemma RowOffsetStart(step: nat)
    ensures RowOffset(0, step) == 0
  {
  }

  lemma RowOffsetSplit(n: nat, len: nat)
    ensures RowOffset(n, len + 4) == RowOffset(n, len) + 4 * n
  {
  }

  /** `fixed_u32_no_nulls_len`: a length exactly for a page of records that all have it. It fails on a page
      too short for one prefix, or when the records would not fit the address space. */
  method FixedU32NoNullsLen(data: seq<byte>, rowCount: u64) returns (r: Result<Option<nat>>)
    ensures r.Err? ==> rowCount > 0 && (|data| < 4 || RowOffset(rowCount, FromLE(data[0..4]) + 4) >= TWO_64)
    ensures r.Ok? && r.value.Some? ==> rowCount > 0 && FixedLength(data, rowCount, r.value.value)
    ensures r.Ok? && r.value.None? ==> rowCount == 0 || forall len: nat :: !FixedLength(data, rowCount, len)
  {
    hide FromLE, RowOffset;
    if rowCount == 0 {
      return Ok(None);
    }
    if |data| < 4 {
      return Err(OffsetRange);
    }
    var fixedLen := FromLE(data[0..4]);
    var stride := fixedLen + 4;
    FirstLengthDecides(data, rowCount);
    if RowOffset(rowCount, stride) >= TWO_64 {
      return Err(ArithOverflow);
    }
    if RowOffset(rowCount, stride) != |data| {
      return Ok(None);
    }
    RowOffsetStart(stride);
    assert FixedRow(data, 0, fixedLen);
    for row := 1 to rowCount
      invariant forall k :: 0 <= k < row ==> FixedRow(data, k, fixedLen)
    {
      RowOffsetNext(row, rowCount, stride);
      var pos := RowOffset(row, stride);
      if FromLE(data[pos..pos + 4]) != fixedLen {
        assert !FixedRow(data, row, fixedLen);
        return Ok(None);
      }
    }
    return Ok(Some(fixedLen));
  }

  /** Only the first record's length can be everyone's. */
  lemma FirstLengthDecides(data: seq<byte>, n: nat)
    requires n > 0 && |data| >= 4
    ensures forall len: nat :: FixedLength(data, n, len) ==> len == FromLE(data[0..4])
  {
    forall len: nat | FixedLength(data, n, len) ensures len == FromLE(data[0..4]) {
      assert FixedRow(data, 0, len);
      RowOffsetStart(len + 4);
    }
  }

  /** On the small pages it is tried on, nothing overflows. */
  lemma SmallOffset(n: nat, len: nat)
    requires n <= FIXED_U32_NO_NULLS_MAX_ROWS && len < TWO_32
    ensures RowOffset(n, len + 4) < TWO_64
  {
    var step := len + 4;
    assert 16 * step < TWO_64;
    if n < 16 {
      Bits.MulGap(16, n, step);
    }
  }

  lemma ShortPage(data: seq<byte>)
    requires |data| < 4
    ensures FramesUpTo(U32Prefixed, data, 1).Err?
  {
  }

  lemma FirstLengthSmall(data: seq<byte>)
    requires |data| >= 4
    ensures FromLE(data[0..4]) < TWO_32
  {
    ToFromLE(data[0..4]);
    Pow256Values();
  }

  lemma NothingCopied(data: seq<byte>, offsets: seq<int>, values: seq<byte>)
    requires |offsets| > 0 && offsets[0] == 0
    ensures Copied(data, 0, 0, 0, offsets, values)
  {
    assert RowsOf(data, []) == [] && offsets[..1] == [0];
  }

  lemma FixedRange(data: seq<byte>, n: nat, len: nat, row: nat)
    requires InMemory(data) && FixedLength(data, n, len) && row < n
    ensures var pos := RowOffset(row, len + 4);
      && RowOffset(row + 1, len + 4) == pos + 4 + len <= |data|
      && U32RangeAt(data, pos) == Ok(Range(pos + 4, pos + 4 + len))
  {
    hide FromLE, RowOffset;
    RowOffsetNext(row, n, len + 4);
    assert FixedRow(data, row, len);
  }

  /** `materialize_all_u32_no_nulls_fixed_impl`: record `row` goes from `row * (len + 4) + 4` to `row * len`. */
  method MaterializeFixed(validate: bool, data: seq<byte>, rowCount: u64, fixedLen: nat) returns (r: Result<Column>)
    requires InMemory(data) && FixedLength(data, rowCount, fixedLen)
    ensures SameSuccess(r, NoNulls(validate, data, rowCount))
  {
    hide FixedLength, FixedRow, RowOffset, Copied, Spliced, FramesUpTo, U32RangeAt, NoNulls, IsAscii;
    var valueLen := RowOffset(rowCount, fixedLen);
    FixedTotal(data, rowCount, fixedLen);
    if valueLen > I32_MAX {
      TotalTooLong(validate, data, rowCount);
      return Err(ArithOverflow);
    }
    var offsets := new int[rowCount + 1];
    var values := new byte[valueLen];
    var sawNonAscii := false;
    offsets[0] := 0;
    var stride := fixedLen + 4;
    NothingCopied(data, offsets[..], values[..]);
    EmptyIsAscii(values[..]);
    RowOffsetStart(stride);
    RowOffsetStart(fixedLen);
    for row := 0 to rowCount
      invariant RowOffset(row, fixedLen) <= valueLen
      invariant Copied(data, row, RowOffset(row, stride), RowOffset(row, fixedLen), offsets[..], values[..])
      invariant validate ==> sawNonAscii == !IsAscii(values[..RowOffset(row, fixedLen)])
    {
      var dataStart := RowOffset(row, stride) + 4;
      var write := RowOffset(row, fixedLen);
      FixedRange(data, rowCount, fixedLen, row);
      RowOffsetNext(row, rowCount, fixedLen);
      CopyStep(data, row, RowOffset(row, stride), write, fixedLen, offsets[..], values[..]);
      SplicePrefix(values[..], write, data[dataStart..dataStart + fixedLen]);
      AsciiAppend(values[..write], data[dataStart..dataStart + fixedLen]);
      sawNonAscii := CopyRecord(validate, data, dataStart, fixedLen, values, write, sawNonAscii);
      offsets[row + 1] := write + fixedLen;
    }
    assert values[..valueLen] == values[..];
    FixedSize(data, rowCount, fixedLen);
    r := FinishStrict(validate, data, rowCount, offsets[..], values[..], sawNonAscii);
  }

  lemma FixedSize(data: seq<byte>, n: nat, len: nat)
    requires FixedLength(data, n, len)
    ensures |data| == RowOffset(n, len + 4)
  {
  }

  lemma EmptyIsAscii(values: seq<byte>)
    ensures IsAscii(values[..0])
  {
  }

  lemma {:induction false} FixedFrames(data: seq<byte>, n: nat, len: nat, row: nat)
    requires InMemory(data) && FixedLength(data, n, len) && row <= n
    ensures FramesUpTo(U32Prefixed, data, row).Ok?
    ensures FramesUpTo(U32Prefixed, data, row).value.end == RowOffset(row, len + 4)
  {
    hide FixedLength, U32RangeAt;
    if row == 0 {
      RowOffsetStart(len + 4);
    } else {
      hide RowOffset;
      FixedFrames(data, n, len, row - 1);
      FixedRange(data, n, len, row - 1);
    }
  }

  /** The records of a fixed-length page. */
  lemma FixedTotal(data: seq<byte>, n: nat, len: nat)
    requires InMemory(data) && FixedLength(data, n, len)
    ensures FramesUpTo(U32Prefixed, data, n).Ok? && FramesUpTo(U32Prefixed, data, n).value.end == |data|
    ensures |Flatten(RowsOf(data, FramesUpTo(U32Prefixed, data, n).value.ranges))| == RowOffset(n, len)
  {
    hide Flatten, FixedLength, FramesUpTo, RowOffset, RowsOf;
    FixedSize(data, n, len);
    FixedFrames(data, n, len, n);
    FrameTotal(data, n);
    RowOffsetSplit(n, len);
  }

  lemma TotalTooLong(validate: bool, data: seq<byte>, n: nat)
    requires FramesUpTo(U32Prefixed, data, n).Ok?
    requires |Flatten(RowsOf(data, FramesUpTo(U32Prefixed, data, n).value.ranges))| > I32_MAX
    ensures NoNulls(validate, data, n).Err?
  {
  }

  // ---- the one-pass copy ----------------------------------------------------------------------------

  const FIXED_U32_NO_NULLS_MAX_ROWS := 16
  const FIXED_U32_NO_NULLS_MAX_DATA_BYTES := 1024

  /** `materialize_all_u32_no_nulls_impl`, plain or strict. */
  method MaterializeNoNulls(validate: bool, data: seq<byte>, rowCount: u64) returns (r: Result<Column>)
    requires InMemory(data)
    ensures SameSuccess(r, NoNulls(validate, data, rowCount))
  {
    hide FixedLength, FramesUpTo, NoNullsSpec;
    if rowCount <= FIXED_U32_NO_NULLS_MAX_ROWS && |data| <= FIXED_U32_NO_NULLS_MAX_DATA_BYTES {
      if |data| >= 4 {
        FirstLengthSmall(data);
        SmallOffset(rowCount, FromLE(data[0..4]));
      }
      var fixedLen := FixedU32NoNullsLen(data, rowCount);
      if fixedLen.Err? {
        FramesPrefix(U32Prefixed, data, 1, rowCount);
        ShortPage(data);
        NoFramesNoColumn(validate, data, rowCount);
        return Err(fixedLen.error);
      }
      if fixedLen.value.Some? {
        r := MaterializeFixed(validate, data, rowCount, fixedLen.value.value);
        return;
      }
    }
    r := MaterializeOnePass(validate, data, rowCount);
  }

  lemma NoFramesNoColumn(validate: bool, data: seq<byte>, n: nat)
    requires FramesUpTo(U32Prefixed, data, n).Err?
    ensures NoNulls(validate, data, n).Err?
  {
  }

  lemma NoFrames(data: seq<byte>)
    ensures FramesUpTo(U32Prefixed, data, 0) == Ok(Frames([], 0))
  {
  }

  /** Too many value bytes for 32-bit offsets. */
  lemma ValuesOverflow(validate: bool, data: seq<byte>, n: nat)
    requires 4 * n <= |data| && |data| - 4 * n > I32_MAX
    ensures NoNulls(validate, data, n).Err?
  {
    hide FramesUpTo, Flatten, Offsets;
    if FramesUpTo(U32Prefixed, data, n).Ok? {
      FrameTotal(data, n);
    }
  }

  /** A record whose length prefix has been read. */
  lemma FrameWithLength(data: seq<byte>, row: nat, pos: nat, len: nat)
    requires FramesUpTo(U32Prefixed, data, row).Ok? && FramesUpTo(U32Prefixed, data, row).value.end == pos
    requires pos + 4 <= |data| < TWO_63 && FromLE(data[pos..pos + 4]) == len
    ensures FramesUpTo(U32Prefixed, data, row + 1).Ok? <==> pos + 4 + len <= |data|
    ensures pos + 4 + len <= |data| ==> FramesUpTo(U32Prefixed, data, row + 1).value.end == pos + 4 + len
  {
    hide FromLE;
  }

  /** A record that does not fit behind the ones before it: the page does not frame. */
  lemma RecordTooLong(validate: bool, data: seq<byte>, row: nat, n: nat, pos: nat, len: nat)
    requires row < n && FramesUpTo(U32Prefixed, data, row).Ok? && FramesUpTo(U32Prefixed, data, row).value.end == pos
    requires pos + 4 <= |data| < TWO_63 && FromLE(data[pos..pos + 4]) == len
    requires pos + 4 + len + 4 * (n - row - 1) > |data|
    ensures NoNulls(validate, data, n).Err?
  {
    hide FromLE, FramesUpTo, NoNulls;
    FrameWithLength(data, row, pos, len);
    if pos + 4 + len <= |data| {
      TooSmall(data, row + 1, n);
    } else {
      FramesPrefix(U32Prefixed, data, row + 1, n);
    }
    NoFramesNoColumn(validate, data, n);
  }

  /** The loop that copies each record as it frames it. */
  method MaterializeOnePass(validate: bool, data: seq<byte>, rowCount: u64) returns (r: Result<Column>)
    requires InMemory(data)
    ensures SameSuccess(r, NoNulls(validate, data, rowCount))
  {
    hide Copied, Spliced, FramesUpTo, U32RangeAt, Flatten, Offsets, RowsAreUtf8, IsAscii, NoNulls, FromLE;
    NoFrames(data);
    if rowCount * 4 >= TWO_64 {
      TooSmall(data, 0, rowCount);
      NoFramesNoColumn(validate, data, rowCount);
      return Err(ArithOverflow);
    }
    var prefixBytes := rowCount * 4;
    if prefixBytes > |data| {
      TooSmall(data, 0, rowCount);
      NoFramesNoColumn(validate, data, rowCount);
      return Err(OffsetRange);
    }
    var valueLen := |data| - prefixBytes;
    if valueLen > I32_MAX {
      ValuesOverflow(validate, data, rowCount);
      return Err(ArithOverflow);
    }
    var offsets := new int[rowCount + 1];
    var values := new byte[valueLen];
    var pos: nat, write: nat, sawNonAscii := 0, 0, false;
    offsets[0] := 0;
    NothingCopied(data, offsets[..], values[..]);
    EmptyIsAscii(values[..]);
    for row := 0 to rowCount
      invariant pos == 4 * row + write && write <= valueLen
      invariant Copied(data, row, pos, write, offsets[..], values[..])
      invariant validate ==> sawNonAscii == !IsAscii(values[..write])
    {
      CopiedFrames(data, row, pos, write, offsets[..], values[..]);
      if pos > (if |data| < 4 then 0 else |data| - 4) {
        return Err(OffsetRange);
      }
      var len := FromLE(data[pos..pos + 4]);
      if len > |data| - (pos + 4) {
        RecordTooLong(validate, data, row, rowCount, pos, len);
        return Err(OffsetRange);
      }
      if len > valueLen - write {
        RecordTooLong(validate, data, row, rowCount, pos, len);
        return Err(PageCorrupt);
      }
      RangeHere(data, pos, len);
      CopyStep(data, row, pos, write, len, offsets[..], values[..]);
      SplicePrefix(values[..], write, data[pos + 4..pos + 4 + len]);
      AsciiAppend(values[..write], data[pos + 4..pos + 4 + len]);
      sawNonAscii := CopyRecord(validate, data, pos + 4, len, values, write, sawNonAscii);
      pos, write := pos + 4 + len, write + len;
      offsets[row + 1] := write;
    }
    if pos != |data| || write != valueLen {
      CopiedFrames(data, rowCount, pos, write, offsets[..], values[..]);
      LeftOver(validate, data, rowCount);
      return Err(PageCorrupt);
    }
    assert values[..valueLen] == values[..];
    r := FinishStrict(validate, data, rowCount, offsets[..], values[..], sawNonAscii);
  }

  lemma CopiedFrames(data: seq<byte>, row: nat, pos: nat, write: nat, offsets: seq<int>, values: seq<byte>)
    requires Copied(data, row, pos, write, offsets, values)
    ensures FramesUpTo(U32Prefixed, data, row).Ok? && FramesUpTo(U32Prefixed, data, row).value.end == pos
  {
  }

  lemma RangeHere(data: seq<byte>, pos: nat, len: nat)
    requires pos + 4 + len <= |data| < TWO_63 && FromLE(data[pos..pos + 4]) == len
    ensures U32RangeAt(data, pos) == Ok(Range(pos + 4, pos + 4 + len))
  {
  }

  lemma LeftOver(validate: bool, data: seq<byte>, n: nat)
    requires FramesUpTo(U32Prefixed, data, n).Ok? && FramesUpTo(U32Prefixed, data, n).value.end != |data|
    ensures NoNulls(validate, data, n).Err?
  {
  }

  // ---- the whole page -----------------------------------------------------------------------------

  /** `materialize_all_rows`: whichever path it takes, the column of the simple form. */
  method MaterializeAllRows(layout: Layout, page: Page) returns (r: Result<Column>)
    requires InMemory(page.data)
    ensures SameSuccess(r, SelectedSpec(layout, page, All))
  {
    hide ColumnSpec, NoNullsSpec, FirstRows;
    var hasNulls := ArrayHasNulls(page);
    if hasNulls.Err? {
      return Err(hasNulls.error);
    }
    if !hasNulls.value && layout == U32Prefixed {
      NoNullsIsSpec(page);
      r := MaterializeNoNulls(false, page.data, page.rowCount);
      return;
    }
    r := MaterializeGeneric(layout, page, hasNulls.value);
  }
}
