/** Export of selected rows of variable-width pages: the two-pass copy and the forward scan. */
module VarBytesSelection {
  import opened Wrappers
  import opened Sequences
  import opened BitPacking
  import opened ArrayPage
  import opened Selection
  import opened RawCopy
  import opened Wire
  import opened VarBytes
  import opened VarBytesExport

  // ---- parse, then gather -----------------------------------------------------------------------

  /** One pass over the selected rows: their slots, or the failure of the first bad row. */
  lemma {:induction false} SlotsFail(page: Page, hasNulls: bool, ranges: seq<Range>, rows: seq<nat>, n: nat)
    requires RangesWithin(page.data, ranges) && InRange(rows, |ranges|) && n < |rows|
    requires SlotAt(page, hasNulls, ranges, rows[n]).Err?
    ensures Slots(page, hasNulls, ranges, rows).Err?
  {
    hide SlotAt;
    if Slots(page, hasNulls, ranges, rows).Ok? {
      SlotsEach(page, hasNulls, ranges, rows, n);
    }
  }

  /** The first pass of `materialize_selected`: total bytes and whether any selected row is null. */
  method MeasureSelected(page: Page, hasNulls: bool, ranges: seq<Range>, rows: seq<nat>)
    returns (r: Result<(nat, bool)>, ghost slots: seq<Slot>)
    requires RangesWithin(page.data, ranges) && InRange(rows, |ranges|)
    ensures r.Ok? <==> Slots(page, hasNulls, ranges, rows).Ok?
    ensures r.Ok? ==> Slots(page, hasNulls, ranges, rows) == Ok(slots)
    ensures r.Ok? ==> r.value == (|Flatten(Contents(slots))|, exists i :: 0 <= i < |slots| && slots[i].None?)
  {
    hide Slots, Flatten, Contents;
    var total, anyNull := 0, false;
    slots := [];
    NothingSelected(page, hasNulls, ranges);
    for i := 0 to |rows|
      invariant Slots(page, hasNulls, ranges, rows[..i]) == Ok(slots) && |slots| == i
      invariant total == |Flatten(Contents(slots))|
      invariant anyNull <==> exists k :: 0 <= k < |slots| && slots[k].None?
    {
      var row := rows[i];
      var isNull := NullFlag(page, hasNulls, row);
      if isNull.Err? {
        SlotsFail(page, hasNulls, ranges, rows, i);
        return Err(isNull.error), [];
      }
      ghost var slot: Slot := if isNull.value then None else Some(page.data[ranges[row].start..ranges[row].end]);
      assert rows[..i + 1] == rows[..i] + [row];
      SlotsSnoc(page, hasNulls, ranges, rows[..i], row);
      ContentsSnoc(slots, slot);
      FlattenSnoc(Contents(slots), if slot.Some? then slot.value else []);
      AnyNullSnoc(slots, slot);
      anyNull := anyNull || isNull.value;
      if !isNull.value {
        total := total + (ranges[row].end - ranges[row].start);
      }
      slots := slots + [slot];
    }
    assert rows[..|rows|] == rows;
    return Ok((total, anyNull)), slots;
  }

  lemma NothingSelected(page: Page, hasNulls: bool, ranges: seq<Range>)
    requires RangesWithin(page.data, ranges)
    ensures Slots(page, hasNulls, ranges, []) == Ok([])
    ensures Flatten(Contents([])) == [] && Offsets(Contents([])) == [0] && Present([]) == []
  {
  }

  lemma AnyNullSnoc(slots: seq<Slot>, slot: Slot)
    ensures (exists k :: 0 <= k < |slots + [slot]| && (slots + [slot])[k].None?) <==>
            slot.None? || exists k :: 0 <= k < |slots| && slots[k].None?
  {
    var all := slots + [slot];
    assert all[|slots|] == slot;
    assert forall k :: 0 <= k < |slots| ==> all[k] == slots[k];
  }

  lemma {:induction false} NoNullBuffer(slots: seq<Slot>)
    requires forall k :: 0 <= k < |slots| ==> slots[k].Some?
    ensures NullsOf(Present(slots)) == None
  {
    if slots != [] {
      var init := slots[..|slots| - 1];
      NoNullBuffer(init);
      assert Present(slots)[..|slots| - 1] == Present(init);
    }
  }

  /** What the second pass writes for the first `n` slots. */
  ghost predicate Gathered(slots: seq<Slot>, n: nat, write: nat, offsets: seq<nat>, values: seq<byte>) {
    && n <= |slots| && write <= |values|
    && var rows := Contents(slots[..n]);
       offsets == Offsets(rows) && write == |Flatten(rows)| && values[..write] == Flatten(rows)
  }

  lemma GatherStep(slots: seq<Slot>, n: nat, write: nat, offsets: seq<nat>, values: seq<byte>, bytes: seq<byte>)
    requires Gathered(slots, n, write, offsets, values) && n < |slots| && |values| == |Flatten(Contents(slots))|
    requires bytes == if slots[n].Some? then slots[n].value else []
    ensures write + |bytes| <= |values|
    ensures Gathered(slots, n + 1, write + |bytes|, offsets + [write + |bytes|], Spliced(values, write, bytes))
  {
    hide Flatten, Offsets, Contents, Spliced;
    assert slots[..n + 1] == slots[..n] + [slots[n]];
    var rows := Contents(slots[..n]);
    ContentsSnoc(slots[..n], slots[n]);
    OffsetsSnoc(rows, bytes);
    PrefixTotal(slots, n + 1);
    SplicePrefix(values, write, bytes);
  }

  lemma NothingGathered(slots: seq<Slot>, values: seq<byte>)
    ensures Gathered(slots, 0, 0, [0], values)
  {
    assert slots[..0] == [] && Contents([]) == [];
  }

  /** `materialize_selected`: room for the measured bytes, then one raw copy per selected row. */
  method MaterializeSelected(page: Page, selection: RowSelection, ranges: seq<Range>, hasNulls: bool)
    returns (r: Result<Column>)
    requires RangesWithin(page.data, ranges) && |ranges| == page.rowCount
    ensures SelectedRows(selection, page.rowCount).Err? ==> r.Err?
    ensures SelectedRows(selection, page.rowCount).Ok? ==>
      var rows := SelectedRows(selection, page.rowCount).value;
      InRange(rows, |ranges|) && SameSuccess(r, GatherSpec(page, hasNulls, ranges, rows))
  {
    hide Slots, Flatten, Contents, Offsets, NullsOf, Present, Gathered, BitRows;
    var chosen := ToRows(selection, page.rowCount);
    if chosen.Err? {
      return Err(chosen.error);
    }
    var rows := chosen.value;
    SelectedInRange(selection, page.rowCount);
    ghost var slots;
    var measured;
    measured, slots := MeasureSelected(page, hasNulls, ranges, rows);
    if measured.Err? {
      return Err(measured.error);
    }
    if measured.value.0 > I32_MAX {
      return Err(ArithOverflow);
    }
    r := CopySelected(page, hasNulls, ranges, rows, measured.value.0, measured.value.1, slots);
  }

  function GatherSpec(page: Page, hasNulls: bool, ranges: seq<Range>, rows: seq<nat>): Result<Column>
    requires RangesWithin(page.data, ranges) && InRange(rows, |ranges|)
  {
    var slots :- Slots(page, hasNulls, ranges, rows);
    ToColumn(slots)
  }

  method CopySelected(page: Page, hasNulls: bool, ranges: seq<Range>, rows: seq<nat>, valueLen: nat, anyNull: bool,
      ghost slots: seq<Slot>)
    returns (r: Result<Column>)
    requires RangesWithin(page.data, ranges) && InRange(rows, |ranges|)
    requires Slots(page, hasNulls, ranges, rows) == Ok(slots) && valueLen == |Flatten(Contents(slots))| <= I32_MAX
    requires anyNull <==> exists k :: 0 <= k < |slots| && slots[k].None?
    ensures r == ToColumn(slots)
  {
    hide Slots, SlotAt, Flatten, Contents, Offsets, NullsOf, Present, Gathered, PackBits, Falses;
    var offsets: seq<nat> := [0];
    var values := new byte[valueLen];
    var builder := NewBuilder(anyNull, |rows|);
    var write: nat := 0;
    NothingGathered(slots, values[..]);
    NothingSelected(page, hasNulls, ranges);
    assert slots[..0] == [];
    for i := 0 to |rows|
      invariant builder == null <==> !anyNull
      invariant builder != null ==> fresh(builder) && builder.Valid() && builder.len == |rows|
      invariant builder != null ==> builder.contents == Present(slots[..i])
      invariant Gathered(slots, i, write, offsets, values[..])
    {
      SlotsEach(page, hasNulls, ranges, rows, i);
      SlotIs(page, hasNulls, ranges, rows[i], slots[i]);
      var isNull := NullFlag(page, hasNulls, rows[i]).value;
      if builder != null {
        PresentNext(slots, i);
        builder.Append(!isNull);
      }
      write := CopyOne(page, isNull, ranges[rows[i]], values, write, offsets, slots, i);
      offsets := offsets + [write];
    }
    AllGathered(slots, write, offsets, values[..]);
    if builder == null {
      NoNullBuffer(slots);
      return Ok(Column(offsets, values[..], None));
    }
    assert slots[..|rows|] == slots;
    var nulls := builder.Finish();
    return Ok(Column(offsets, values[..], nulls));
  }

  /** The copy of one selected row; a null row copies nothing. */
  method CopyOne(page: Page, isNull: bool, range: Range, values: array<byte>, write: nat, ghost offsets: seq<nat>,
      ghost slots: seq<Slot>, ghost i: nat)
    returns (next: nat)
    requires range.start <= range.end <= |page.data| && i < |slots| && isNull == slots[i].None?
    requires !isNull ==> slots[i].value == page.data[range.start..range.end]
    requires Gathered(slots, i, write, offsets, values[..]) && values.Length == |Flatten(Contents(slots))|
    modifies values
    ensures Gathered(slots, i + 1, next, offsets + [next], values[..])
  {
    hide Flatten, Contents, Gathered, Spliced;
    ghost var bytes: seq<byte> := if isNull then [] else page.data[range.start..range.end];
    GatherStep(slots, i, write, offsets, values[..], bytes);
    if isNull {
      NothingSpliced(values[..], write, [], 0);
      return write;
    }
    CopyNonoverlapping(page.data, range.start, values, write, range.end - range.start);
    next := write + (range.end - range.start);
  }

  lemma SlotIs(page: Page, hasNulls: bool, ranges: seq<Range>, row: nat, slot: Slot)
    requires RangesWithin(page.data, ranges) && row < |ranges| && SlotAt(page, hasNulls, ranges, row) == Ok(slot)
    ensures NullFlag(page, hasNulls, row) == Ok(slot.None?)
    ensures slot.Some? ==> slot.value == page.data[ranges[row].start..ranges[row].end]
  {
  }

  lemma PresentNext(slots: seq<Slot>, i: nat)
    requires i < |slots|
    ensures Present(slots[..i + 1]) == Present(slots[..i]) + [slots[i].Some?]
  {
  }

  lemma AllGathered(slots: seq<Slot>, write: nat, offsets: seq<nat>, values: seq<byte>)
    requires Gathered(slots, |slots|, write, offsets, values) && |values| == |Flatten(Contents(slots))|
    ensures offsets == Offsets(Contents(slots)) && values == Flatten(Contents(slots))
  {
    hide Contents, Offsets, Flatten;
    assert slots[..|slots|] == slots && values[..|values|] == values;
  }

  // ---- the forward scan ---------------------------------------------------------------------------

  /** Frames up to the last selected row, and to the end of the page only when that row is the last one. */
  function ForwardFrames(page: Page, last: nat): (r: Result<seq<Range>>)
    requires last < page.rowCount
    ensures r.Ok? ==> |r.value| == last + 1 && RangesWithin(page.data, r.value)
  {
    var frames :- FramesUpTo(U32Prefixed, page.data, last + 1);
    if last + 1 == page.rowCount && frames.end != |page.data| then Err(PageCorrupt) else Ok(frames.ranges)
  }

  /** The simple form of the scan: like the simple form of the export, but framed by `ForwardFrames`. */
  function ForwardSpec(page: Page, hasNulls: bool, rows: seq<nat>): Result<Column>
    requires Ascends(rows) && rows != [] && InRange(rows, page.rowCount)
  {
    var last := rows[|rows| - 1];
    var ranges :- ForwardFrames(page, last);
    LastIsGreatest(rows);
    GatherSpec(page, hasNulls, ranges, rows)
  }

  lemma LastIsGreatest(rows: seq<nat>)
    requires Ascends(rows) && rows != []
    ensures InRange(rows, rows[|rows| - 1] + 1)
  {
    forall i | 0 <= i < |rows| ensures rows[i] < rows[|rows| - 1] + 1 {
      AscendsFar(rows, i, |rows| - 1);
    }
  }

  /** What the scan knows after the rows below `row`. */
  ghost predicate Scanned(page: Page, hasNulls: bool, rows: seq<nat>, row: nat, next: nat, ranges: seq<Range>,
      pos: nat, slots: seq<Slot>) {
    && next <= |rows| && FramesUpTo(U32Prefixed, page.data, row) == Ok(Frames(ranges, pos))
    && InRange(rows[..next], row) && Slots(page, hasNulls, ranges, rows[..next]) == Ok(slots)
  }

  lemma ScanStart(page: Page, hasNulls: bool, rows: seq<nat>)
    ensures Scanned(page, hasNulls, rows, 0, 0, [], 0, [])
    ensures Offsets(Contents([])) == [0] && Flatten(Contents([])) == [] && Present([]) == []
  {
    assert rows[..0] == [];
  }

  /** A row that is not selected only moves the reader. */
  lemma ScanSkip(page: Page, hasNulls: bool, rows: seq<nat>, row: nat, next: nat, ranges: seq<Range>, pos: nat,
      slots: seq<Slot>, range: Range)
    requires Scanned(page, hasNulls, rows, row, next, ranges, pos, slots) && U32RangeAt(page.data, pos) == Ok(range)
    ensures Scanned(page, hasNulls, rows, row + 1, next, ranges + [range], range.end, slots)
    ensures RangesWithin(page.data, ranges + [range]) && |ranges| == row
  {
    hide Slots, U32RangeAt;
    assert (ranges + [range])[..|ranges|] == ranges;
    SlotsLocal(page, hasNulls, ranges, ranges + [range], rows[..next]);
  }

  lemma ScanTake(page: Page, hasNulls: bool, rows: seq<nat>, row: nat, next: nat, ranges: seq<Range>, pos: nat,
      slots: seq<Slot>, slot: Slot)
    requires Scanned(page, hasNulls, rows, row + 1, next, ranges, pos, slots) && next < |rows| && rows[next] == row
    requires RangesWithin(page.data, ranges) && SlotAt(page, hasNulls, ranges, row) == Ok(slot)
    ensures Scanned(page, hasNulls, rows, row + 1, next + 1, ranges, pos, slots + [slot])
  {
    hide Slots, SlotAt, FramesUpTo;
    assert rows[..next + 1] == rows[..next] + [row];
    SlotsSnoc(page, hasNulls, ranges, rows[..next], row);
  }

  /** What every prefix of the scan of an exportable selection satisfies. */
  lemma ScanPrefix(page: Page, hasNulls: bool, rows: seq<nat>, row: nat, next: nat)
    requires Ascends(rows) && rows != [] && InRange(rows, page.rowCount)
    requires ForwardSpec(page, hasNulls, rows).Ok?
    requires row <= rows[|rows| - 1] + 1 && next <= |rows| && InRange(rows[..next], row)
    ensures FramesUpTo(U32Prefixed, page.data, row).Ok?
    ensures var slots := Slots(page, hasNulls, FramesUpTo(U32Prefixed, page.data, row).value.ranges, rows[..next]);
      slots.Ok? && |Flatten(Contents(slots.value))| <= I32_MAX
  {
    hide FramesUpTo, Slots, Flatten, Contents;
    var last := rows[|rows| - 1];
    var ranges := ForwardFrames(page, last).value;
    LastIsGreatest(rows);
    var all := Slots(page, hasNulls, ranges, rows).value;
    FramesPrefix(U32Prefixed, page.data, row, last + 1);
    SlotsPrefix(page, hasNulls, ranges, rows, next);
    SlotsLocal(page, hasNulls, FramesUpTo(U32Prefixed, page.data, row).value.ranges, ranges, rows[..next]);
    PrefixTotal(all, next);
  }

  /** `materialize_selected_forward_u32` asks of each row whether it is selected: the next entry of the
      row list, or its bit in the bitset. */
  predicate ChosenNext(selection: RowSelection, row: nat, next: nat) {
    match selection
    case All => false
    case Rows(rows) => next < |rows| && rows[next] == row
    case Bitset(words, _) => Selected(words, row)
  }

  /** The selection's rows are `rows`. */
  ghost predicate Names(selection: RowSelection, rows: seq<nat>) {
    match selection
    case All => false
    case Rows(list) => list == rows
    case Bitset(words, len) => IsBitRows(rows, words, len)
  }

  /** Rows met so far are below `row`, rows still to come are not. */
  predicate Split(rows: seq<nat>, row: nat, next: nat) {
    && next <= |rows| && (forall i :: 0 <= i < next ==> rows[i] < row)
      && (forall i :: next <= i < |rows| ==> rows[i] >= row)
  }

  lemma ChosenIsNext(selection: RowSelection, rows: seq<nat>, row: nat, next: nat)
    requires Names(selection, rows) && Ascends(rows) && Split(rows, row, next)
    requires rows != [] && row <= rows[|rows| - 1]
    ensures ChosenNext(selection, row, next) <==> next < |rows| && rows[next] == row
    ensures next < |rows| && Split(rows, row + 1, if rows[next] == row then next + 1 else next)
  {
    if selection.Bitset? {
      assert rows[|rows| - 1] in rows;
      assert Selected(selection.words, row) <==> row in rows;
    }
    assert next < |rows|;
    forall i | next < i < |rows| ensures rows[next] < rows[i] {
      AscendsFar(rows, next, i);
    }
  }

  lemma SplitDone(rows: seq<nat>, next: nat)
    requires rows != [] && Split(rows, rows[|rows| - 1] + 1, next)
    ensures next == |rows| && rows[..next] == rows
  {
  }

  lemma SplitStart(rows: seq<nat>)
    ensures Split(rows, 0, 0)
  {
  }

  lemma ScanFails(page: Page, hasNulls: bool, rows: seq<nat>, row: nat, next: nat, ranges: seq<Range>, pos: nat,
      slots: seq<Slot>)
    requires Ascends(rows) && rows != [] && InRange(rows, page.rowCount) && row <= rows[|rows| - 1]
    requires Scanned(page, hasNulls, rows, row, next, ranges, pos, slots) && U32RangeAt(page.data, pos).Err?
    ensures ForwardSpec(page, hasNulls, rows).Err?
  {
    hide U32RangeAt, Slots, Flatten, Offsets;
    FramesPrefix(U32Prefixed, page.data, row + 1, rows[|rows| - 1] + 1);
  }

  /** A row that cannot be appended: neither can the simple form. */
  lemma TakeFails(page: Page, hasNulls: bool, rows: seq<nat>, row: nat, next: nat, ranges: seq<Range>, pos: nat,
      slots: seq<Slot>)
    requires Ascends(rows) && rows != [] && InRange(rows, page.rowCount) && row <= rows[|rows| - 1]
    requires Scanned(page, hasNulls, rows, row + 1, next, ranges, pos, slots) && next < |rows| && rows[next] == row
    requires RangesWithin(page.data, ranges) && row < |ranges|
    requires SlotAt(page, hasNulls, ranges, row).Err? ||
             |Flatten(Contents(slots + [SlotAt(page, hasNulls, ranges, row).value]))| > I32_MAX
    ensures ForwardSpec(page, hasNulls, rows).Err?
  {
    hide FramesUpTo, Slots, SlotAt, ForwardSpec, Flatten, Contents;
    if ForwardSpec(page, hasNulls, rows).Ok? {
      assert rows[..next + 1] == rows[..next] + [row];
      ScanPrefix(page, hasNulls, rows, row + 1, next + 1);
      SlotsSnoc(page, hasNulls, ranges, rows[..next], row);
    }
  }

  lemma TrailingBytes(page: Page, hasNulls: bool, rows: seq<nat>, next: nat, ranges: seq<Range>, pos: nat,
      slots: seq<Slot>)
    requires Ascends(rows) && rows != [] && InRange(rows, page.rowCount) && rows[|rows| - 1] + 1 == page.rowCount
    requires Scanned(page, hasNulls, rows, page.rowCount, next, ranges, pos, slots) && pos != |page.data|
    ensures ForwardSpec(page, hasNulls, rows).Err?
  {
  }

  lemma ScanColumn(page: Page, hasNulls: bool, rows: seq<nat>, ranges: seq<Range>, pos: nat, slots: seq<Slot>)
    requires Ascends(rows) && rows != [] && InRange(rows, page.rowCount) && rows[..|rows|] == rows
    requires Scanned(page, hasNulls, rows, rows[|rows| - 1] + 1, |rows|, ranges, pos, slots)
    requires rows[|rows| - 1] + 1 == page.rowCount ==> pos == |page.data|
    ensures ForwardSpec(page, hasNulls, rows) == ToColumn(slots)
    ensures RangesWithin(page.data, ranges) && InRange(rows, |ranges|)
      && Slots(page, hasNulls, ranges, rows) == Ok(slots)
  {
    hide ToColumn;
  }

  /** The scan itself. */
  method ForwardScan(page: Page, selection: RowSelection, hasNulls: bool, last: nat, selectedLen: nat,
      ghost rows: seq<nat>)
    returns (r: Result<Column>)
    requires Ascends(rows) && rows != [] && InRange(rows, page.rowCount) && Names(selection, rows)
    requires last == rows[|rows| - 1] && selectedLen == |rows|
    ensures SameSuccess(r, ForwardSpec(page, hasNulls, rows))
  {
    hide Slots, SlotAt, FramesUpTo, U32RangeAt, ForwardSpec, Flatten, Contents, Offsets, Present, NullsOf, PackBits,
      Falses, Scanned, Split, ChosenNext, Names;
    var offsets: seq<nat>, values: seq<byte> := [0], [];
    var builder := NewBuilder(hasNulls, selectedLen);
    var pos, next: nat := 0, 0;
    ghost var ranges: seq<Range>, slots: seq<Slot> := [], [];
    ScanStart(page, hasNulls, rows);
    SplitStart(rows);
    for row := 0 to last + 1
      invariant builder == null <==> !hasNulls
      invariant builder != null ==>
        fresh(builder) && builder.Valid() && builder.len == |rows| && builder.contents == Present(slots)
      invariant Split(rows, row, next) && |slots| == next
      invariant Scanned(page, hasNulls, rows, row, next, ranges, pos, slots)
      invariant offsets == Offsets(Contents(slots)) && values == Flatten(Contents(slots)) && |values| <= I32_MAX
    {
      var range := U32RangeAt(page.data, pos);
      if range.Err? {
        ScanFails(page, hasNulls, rows, row, next, ranges, pos, slots);
        return Err(range.error);
      }
      ScanSkip(page, hasNulls, rows, row, next, ranges, pos, slots, range.value);
      ranges, pos := ranges + [range.value], range.value.end;
      ChosenIsNext(selection, rows, row, next);
      if ChosenNext(selection, row, next) {
        ghost var slot;
        var taken;
        taken, slot := AppendSlot(page, hasNulls, ranges, range.value, row, builder, offsets, values, slots);
        if taken.Err? {
          TakeFails(page, hasNulls, rows, row, next, ranges, pos, slots);
          return Err(taken.error);
        }
        ScanTake(page, hasNulls, rows, row, next, ranges, pos, slots, slot);
        slots := slots + [slot];
        offsets, values := taken.value.0, taken.value.1;
        next := next + 1;
      }
    }
    SplitDone(rows, next);
    if last + 1 == page.rowCount && pos != |page.data| {
      TrailingBytes(page, hasNulls, rows, next, ranges, pos, slots);
      return Err(PageCorrupt);
    }
    ScanColumn(page, hasNulls, rows, ranges, pos, slots);
    var nulls := FinishBuilder(builder, page, ranges, rows, slots);
    return Ok(Column(offsets, values, nulls));
  }

  // ---- which path a selection takes -----------------------------------------------------------------

  function EmptyColumn(): Column {
    Column([0], [], None)
  }

  /** `materialize_selected_forward_u32`: `None` leaves the selection to the parse-then-gather path. */
  function ForwardResult(layout: Layout, page: Page, selection: RowSelection): Result<Option<Column>> {
    if layout != U32Prefixed then Ok(None)
    else
      match selection
      case All => Ok(if page.rowCount == 0 then Some(EmptyColumn()) else None)
      case Rows(rows) =>
        if rows == [] then Ok(Some(EmptyColumn()))
        else if !Ascends(rows) then Ok(None)
        else if rows[|rows| - 1] >= page.rowCount then Err(OffsetRange)
        else
          var hasNulls :- HasNulls(page);
          LastIsGreatest(rows);
          var column :- ForwardSpec(page, hasNulls, rows);
          Ok(Some(column))
      case Bitset(words, len) =>
        var _ :- ValidateBitset(words, len, page.rowCount);
        var rows := BitRows(words, len);
        if rows == [] then Ok(Some(EmptyColumn()))
        else
          var hasNulls :- HasNulls(page);
          BitRowsAscend(words, len);
          var column :- ForwardSpec(page, hasNulls, rows);
          Ok(Some(column))
  }

  lemma BitRowsAscend(words: seq<u64>, len: nat)
    requires WordLen(len) <= |words|
    ensures Ascends(BitRows(words, len)) && InRange(BitRows(words, len), len)
  {
    BitRowsExact(words, len);
    BitRowsInRange(words, len);
  }

  /** The greatest selected row is the last one the traversal visits. */
  lemma LastBitRow(words: seq<u64>, len: nat, last: nat)
    requires WordLen(len) <= |words| && last < len && Selected(words, last)
    requires forall row: nat :: row < len && Selected(words, row) ==> row <= last
    ensures BitRows(words, len) != [] && BitRows(words, len)[|BitRows(words, len)| - 1] == last
  {
    hide BitRows, Selected;
    BitRowsExact(words, len);
    BitRowsAscend(words, len);
    var rows := BitRows(words, len);
    assert last in rows;
    var i :| 0 <= i < |rows| && rows[i] == last;
    AscendsFar(rows, i, |rows| - 1);
    assert rows[|rows| - 1] in rows;
  }

  method MaterializeForward(layout: Layout, page: Page, selection: RowSelection) returns (r: Result<Option<Column>>)
    ensures SameSuccess(r, ForwardResult(layout, page, selection))
  {
    hide ForwardSpec, HasNulls, BitRows, Selected;
    if layout != U32Prefixed {
      return Ok(None);
    }
    match selection {
      case All =>
        return Ok(if page.rowCount == 0 then Some(EmptyColumn()) else None);
      case Rows(rows) =>
        if |rows| == 0 {
          return Ok(Some(EmptyColumn()));
        }
        if !Ascends(rows) {
          return Ok(None);
        }
        var last := rows[|rows| - 1];
        if last >= page.rowCount {
          return Err(OffsetRange);
        }
        LastIsGreatest(rows);
        r := ForwardFrom(page, selection, last, |rows|, rows);
      case Bitset(words, len) =>
        var check := ValidateBitset(words, len, page.rowCount);
        if check.Err? {
          return Err(check.error);
        }
        var count := CountBitsetRows(words, len);
        if count.value == 0 {
          return Ok(Some(EmptyColumn()));
        }
        BitRowsExact(words, len);
        BitRowsAscend(words, len);
        var last := LastSelectedBitsetRow(words, len);
        LastBitRowFound(words, len, last);
        LastBitRow(words, len, last.value);
        r := ForwardFrom(page, selection, last.value, count.value, BitRows(words, len));
    }
  }

  /** `last_selected_bitset_row` finds a row when the bitset selects any. */
  lemma LastBitRowFound(words: seq<u64>, len: nat, last: Option<nat>)
    requires WordLen(len) <= |words| && BitRows(words, len) != []
    requires last.None? ==> forall row: nat :: row < len ==> !Selected(words, row)
    ensures last.Some?
  {
    hide BitRows, Selected;
    BitRowsExact(words, len);
    assert BitRows(words, len)[0] in BitRows(words, len);
  }

  method ForwardFrom(page: Page, selection: RowSelection, last: nat, selectedLen: nat, ghost rows: seq<nat>)
    returns (r: Result<Option<Column>>)
    requires Ascends(rows) && rows != [] && InRange(rows, page.rowCount) && Names(selection, rows)
    requires last == rows[|rows| - 1] && selectedLen == |rows|
    ensures HasNulls(page).Err? ==> r.Err?
    ensures HasNulls(page).Ok? ==>
      var spec := ForwardSpec(page, HasNulls(page).value, rows);
      r.Ok? == spec.Ok? && (r.Ok? ==> r.value == Some(spec.value))
  {
    hide ForwardSpec, HasNulls, Names;
    var hasNulls := ArrayHasNulls(page);
    if hasNulls.Err? {
      return Err(hasNulls.error);
    }
    var column := ForwardScan(page, selection, hasNulls.value, last, selectedLen, rows);
    if column.Err? {
      return Err(column.error);
    }
    return Ok(Some(column.value));
  }

  // ---- the forward scan against the simple form -------------------------------------------------------

  /** Gathering within the frames of the whole page is gathering within the frames of its prefix. */
  lemma ForwardIsPrefix(page: Page, hasNulls: bool, rows: seq<nat>)
    requires Ascends(rows) && rows != [] && InRange(rows, page.rowCount)
    requires RangesOf(U32Prefixed, page.data, page.rowCount).Ok?
    ensures ForwardSpec(page, hasNulls, rows) == ColumnSpec(U32Prefixed, page, hasNulls, rows)
  {
    var last := rows[|rows| - 1];
    FramesPrefix(U32Prefixed, page.data, last + 1, page.rowCount);
    var whole := RangesOf(U32Prefixed, page.data, page.rowCount).value;
    hide FramesUpTo, Slots, ToColumn;
    LastIsGreatest(rows);
    SlotsLocal(page, hasNulls, ForwardFrames(page, last).value, whole, rows);
  }

  lemma NoRowsNoBytes(page: Page, hasNulls: bool)
    requires RangesOf(U32Prefixed, page.data, page.rowCount).Ok?
    ensures ColumnSpec(U32Prefixed, page, hasNulls, []) == Ok(EmptyColumn())
  {
    NothingSelected(page, hasNulls, RangesOf(U32Prefixed, page.data, page.rowCount).value);
  }

  /** Whatever the scan returns, the page alone decides whether parse-then-gather agrees: it does exactly
      when the whole page frames and its null count can be taken. */
  lemma ForwardAgreesExactly(page: Page, selection: RowSelection, column: Column)
    requires ForwardResult(U32Prefixed, page, selection) == Ok(Some(column))
    ensures SelectedSpec(U32Prefixed, page, selection) == Ok(column) <==>
            RangesOf(U32Prefixed, page.data, page.rowCount).Ok? && HasNulls(page).Ok?
    ensures SelectedSpec(U32Prefixed, page, selection).Ok? ==> SelectedSpec(U32Prefixed, page, selection) == Ok(column)
  {
    hide RangesOf, ForwardSpec, BitRows, Slots, ToColumn;
    if RangesOf(U32Prefixed, page.data, page.rowCount).Ok? && HasNulls(page).Ok? {
      var hasNulls := HasNulls(page).value;
      var rows := SelectedRows(selection, page.rowCount);
      if selection.All? {
        assert FirstRows(0) == [];
      } else if selection.Bitset? {
        BitRowsAscend(selection.words, selection.len);
      } else if selection.rows != [] {
        LastIsGreatest(selection.rows);
      }
      hide HasNulls, ColumnSpec;
      if rows.value == [] {
        NoRowsNoBytes(page, hasNulls);
      } else {
        ForwardIsPrefix(page, hasNulls, rows.value);
      }
    }
  }

  /** On every page that parse-then-gather exports, the scan declines or returns the same column. */
  lemma ForwardRefinesSelected(page: Page, selection: RowSelection)
    requires SelectedSpec(U32Prefixed, page, selection).Ok?
    ensures var r := ForwardResult(U32Prefixed, page, selection);
      r.Ok? && (r.value.None? || Ok(r.value.value) == SelectedSpec(U32Prefixed, page, selection))
  {
    hide RangesOf, ForwardSpec, BitRows, Slots, ToColumn;
    SelectedInRange(selection, page.rowCount);
    var hasNulls := HasNulls(page).value;
    hide HasNulls;
    if selection.Bitset? {
      BitRowsAscend(selection.words, selection.len);
      var rows := BitRows(selection.words, selection.len);
      if rows == [] {
        NoRowsNoBytes(page, hasNulls);
      } else {
        ForwardIsPrefix(page, hasNulls, rows);
      }
    } else if selection.Rows? {
      if selection.rows == [] {
        NoRowsNoBytes(page, hasNulls);
      } else if Ascends(selection.rows) {
        ForwardIsPrefix(page, hasNulls, selection.rows);
      }
    } else if page.rowCount == 0 {
      assert FirstRows(0) == [];
      NoRowsNoBytes(page, hasNulls);
    }
  }

  /** The scan stops at the last selected row: a page that ends there exports, though it does not frame. */
  lemma ForwardAcceptsTruncatedPage()
    ensures var page := Page(2, None, [0, 0, 0, 0]);
      && ForwardResult(U32Prefixed, page, Rows([0])) == Ok(Some(Column([0, 0], [], None)))
      && SelectedSpec(U32Prefixed, page, Rows([0])).Err?
  {
    OneEmptyRecord();
    EmptyFirstRecord(Page(2, None, [0, 0, 0, 0]));
  }

  lemma EmptyFirstRecord(page: Page)
    requires page.rowCount == 2 && page.validity.None?
    requires var r := FramesUpTo(U32Prefixed, page.data, 1);
      r.Ok? && r.value.end == |page.data| && RowsOf(page.data, r.value.ranges) == [[]]
    ensures ForwardResult(U32Prefixed, page, Rows([0])) == Ok(Some(Column([0, 0], [], None)))
    ensures SelectedSpec(U32Prefixed, page, Rows([0])).Err?
  {
    TooSmall(page.data, 1, 2);
    var rows: seq<nat>, ranges := [0], FramesUpTo(U32Prefixed, page.data, 1).value.ranges;
    assert RowsOf(page.data, ranges)[0] == [];
    hide FramesUpTo, Slots, Offsets, Flatten, NullsOf;
    LastIsGreatest(rows);
    AllPresent(page, ranges, rows);
    var slots := Slots(page, false, ranges, rows).value;
    assert slots == [Some([])];
    assert Contents(slots) == [[]];
    OneEmptyRow();
  }

  lemma OneEmptyRow()
    ensures Flatten<byte>([[]]) == [] && Offsets<byte>([[]]) == [0, 0]
  {
    var none: seq<seq<byte>>, rows: seq<seq<byte>> := [], [[]];
    OffsetsSnoc(none, []);
    assert none + [[]] == rows;
  }

  lemma OneEmptyRecord()
    ensures var data: seq<byte> := [0, 0, 0, 0]; var r := FramesUpTo(U32Prefixed, data, 1);
      r.Ok? && r.value.end == 4 && RowsOf(data, r.value.ranges) == [[]]
  {
    var rows: seq<seq<byte>>, data: seq<byte> := [[]], [0, 0, 0, 0];
    assert ToLE(0, 1) == [0];
    assert ToLE(0, 2) == [0, 0];
    assert ToLE(0, 3) == [0, 0, 0];
    assert ToLE(0, 4) == data;
    assert U32Page(rows) == data;
    assert data + [] == data;
    FramesOfPage(rows, []);
  }
}
