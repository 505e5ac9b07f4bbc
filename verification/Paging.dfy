/** Cutting converted columns into pages (`page_specs_range`, `encode_rows`, `validity_bytes`). */
module Paging {
  import opened Wrappers
  import opened Wire
  import opened BitPacking
  import opened ColumnTypes
  import opened ConvertedColumns
  import opened RowLayout
  import opened ZoneStats
  import VarBytesPages = VarBytes

  datatype PageSpec = PageSpec(rowCount: u32, payload: seq<byte>, encoding: Encoding, nonNull: nat, nullCount: nat,
    flags: nat)

  const PAGE_FLAG_ALL_NULL := 0x200
  const PAGE_FLAG_ALL_NON_NULL := 0x400

  // ---- physical payloads --------------------------------------------------------------------------

  /** Slots laid end to end. */
  function Slots(pieces: seq<seq<byte>>): seq<byte> {
    if pieces == [] then [] else Slots(pieces[..|pieces| - 1]) + pieces[|pieces| - 1]
  }

  /** A row of a fixed-width column as its slot. */
  function SlotOf(values: Values, row: nat): seq<byte>
    requires row < RowCount(values)
  {
    match values
    case Booleans(v) => [v[row]]
    case FileCodes(v) => ToLE(v[row], 4)
    case NumCodes(v) => ToLE(v[row], 8)
    case VarBytes(v) => v[row]
    case FixedBytes(_, v) => v[row]
  }

  function SlotsOf(values: Values, start: nat, len: nat): (pieces: seq<seq<byte>>)
    requires start + len <= RowCount(values)
    ensures |pieces| == len && forall i :: 0 <= i < len ==> pieces[i] == SlotOf(values, start + i)
  {
    seq(len, i requires 0 <= i < len => SlotOf(values, start + i))
  }

  function RecordsSize(rows: seq<seq<byte>>): nat {
    if rows == [] then 0 else RecordsSize(rows[..|rows| - 1]) + 4 + |rows[|rows| - 1]|
  }

  /** `encode_rows`: the boolean bytes, the slots end to end, or each row behind its 32-bit length. */
  function EncodeRows(values: Values, start: nat, len: nat): Result<seq<byte>>
    requires start + len <= RowCount(values)
  {
    var pieces := SlotsOf(values, start, len);
    match values
    case Booleans(v) => Ok(v[start..start + len])
    case VarBytes(_) =>
      if RecordsSize(pieces) >= TWO_64 then Err(ArithOverflow)
      else if !VarBytesPages.PrefixesFit(pieces) then Err(ArithOverflow)
      else Ok(VarBytesPages.U32Page(pieces))
    case FixedBytes(width, _) =>
      if exists i :: 0 <= i < len && |pieces[i]| != width then Err(BadSchema) else Ok(Slots(pieces))
    case _ => Ok(Slots(pieces))
  }

  lemma SlotsSnoc(values: Values, start: nat, len: nat)
    requires start + len + 1 <= RowCount(values)
    ensures SlotsOf(values, start, len + 1) == SlotsOf(values, start, len) + [SlotOf(values, start + len)]
    ensures SlotsOf(values, start, len + 1)[..len] == SlotsOf(values, start, len)
  {
  }

  lemma {:induction false} SizePrefix(values: Values, start: nat, n: nat, len: nat)
    requires start + len <= RowCount(values) && n <= len
    ensures RecordsSize(SlotsOf(values, start, n)) <= RecordsSize(SlotsOf(values, start, len))
    decreases len - n
  {
    if n < len {
      SizePrefix(values, start, n, len - 1);
      SlotsSnoc(values, start, len - 1);
    }
  }

  method EncodePageRows(values: Values, start: nat, len: nat) returns (r: Result<seq<byte>>)
    requires start + len <= RowCount(values)
    ensures r == EncodeRows(values, start, len)
  {
    match values {
      case Booleans(v) =>
        return Ok(v[start..start + len]);
      case VarBytes(v) =>
        r := EncodeVarBytes(values, start, len);
      case FixedBytes(_, _) =>
        r := EncodeFixed(values, start, len);
      case _ =>
        var out: seq<byte> := [];
        for i := 0 to len
          invariant out == Slots(SlotsOf(values, start, i))
        {
          SlotsSnoc(values, start, i);
          out := out + SlotOf(values, start + i);
        }
        return Ok(out);
    }
  }

  method EncodeVarBytes(values: Values, start: nat, len: nat) returns (r: Result<seq<byte>>)
    requires values.VarBytes? && start + len <= RowCount(values)
    ensures r == EncodeRows(values, start, len)
  {
    hide RecordsSize, VarBytesPages.PrefixesFit, VarBytesPages.U32Page;
    var capacity := MeasureRecords(values, start, len);
    if capacity.Err? {
      return Err(capacity.error);
    }
    r := WriteRecords(values, start, len);
  }

  method MeasureRecords(values: Values, start: nat, len: nat) returns (r: Result<nat>)
    requires values.VarBytes? && start + len <= RowCount(values)
    ensures var size := RecordsSize(SlotsOf(values, start, len));
      r == if size >= TWO_64 then Err(ArithOverflow) else Ok(size)
  {
    hide SlotOf;
    var capacity := 0;
    for i := 0 to len
      invariant capacity == RecordsSize(SlotsOf(values, start, i)) < TWO_64
    {
      SlotsSnoc(values, start, i);
      SizePrefix(values, start, i + 1, len);
      BlobSlot(values, start + i);
      capacity := capacity + 4 + |values.blobs[start + i]|;
      if capacity >= TWO_64 {
        return Err(ArithOverflow);
      }
    }
    return Ok(capacity);
  }

  method WriteRecords(values: Values, start: nat, len: nat) returns (r: Result<seq<byte>>)
    requires values.VarBytes? && start + len <= RowCount(values)
    ensures var pieces := SlotsOf(values, start, len);
      r == if VarBytesPages.PrefixesFit(pieces) then Ok(VarBytesPages.U32Page(pieces)) else Err(ArithOverflow)
  {
    ghost var pieces := SlotsOf(values, start, len);
    hide SlotOf, VarBytesPages.U32Record;
    var out: seq<byte> := [];
    for i := 0 to len
      invariant VarBytesPages.PrefixesFit(SlotsOf(values, start, i))
      invariant out == VarBytesPages.U32Page(SlotsOf(values, start, i))
    {
      SlotsSnoc(values, start, i);
      BlobSlot(values, start + i);
      if |values.blobs[start + i]| >= TWO_32 {
        assert |pieces[i]| >= TWO_32;
        return Err(ArithOverflow);
      }
      out := out + VarBytesPages.U32Record(values.blobs[start + i]);
    }
    return Ok(out);
  }

  lemma BlobSlot(values: Values, row: nat)
    requires values.VarBytes? && row < |values.blobs|
    ensures SlotOf(values, row) == values.blobs[row]
  {
  }

  method EncodeFixed(values: Values, start: nat, len: nat) returns (r: Result<seq<byte>>)
    requires values.FixedBytes? && start + len <= RowCount(values)
    ensures r == EncodeRows(values, start, len)
  {
    ghost var pieces := SlotsOf(values, start, len);
    var out: seq<byte> := [];
    for i := 0 to len
      invariant forall k :: 0 <= k < i ==> |pieces[k]| == values.width
      invariant out == Slots(SlotsOf(values, start, i))
    {
      SlotsSnoc(values, start, i);
      assert pieces[i] == values.fixed[start + i];
      if |values.fixed[start + i]| != values.width {
        return Err(BadSchema);
      }
      out := out + values.fixed[start + i];
    }
    return Ok(out);
  }

  // ---- null bitmaps -------------------------------------------------------------------------------

  /** The null flags of a row range. */
  function NullFlags(c: Column, start: nat, len: nat): (flags: seq<bool>)
    ensures |flags| == len && forall i :: 0 <= i < len ==> flags[i] == IsNull(c, start + i)
  {
    seq(len, i requires 0 <= i => IsNull(c, start + i))
  }

  /** `validity_bytes`: a bit set for every null row. */
  method ValidityBytes(c: Column, start: nat, len: nat) returns (bytes: seq<byte>)
    ensures bytes == PackBits(NullFlags(c, start, len))
  {
    PackedFalses(len);
    bytes := seq(BitpackedLen(len), _ => 0);
    hide PackBits, Falses, NullFlags;
    ghost var done: seq<bool> := [];
    assert [] + Falses(len) == Falses(len);
    for i := 0 to len
      invariant |done| == i && forall k :: 0 <= k < i ==> done[k] == IsNull(c, start + k)
      invariant bytes == PackBits(done + Falses(len - i))
    {
      bytes := WriteNext(bytes, i, IsNull(c, start + i), done, len);
      done := done + [IsNull(c, start + i)];
    }
    assert done + Falses(0) == done;
    assert done == NullFlags(c, start, len);
  }

  // ---- one page -------------------------------------------------------------------------------------

  /** The page of a row range. */
  function CutPage(c: Column, start: nat, len: u32): Result<PageSpec>
    requires start + len <= RowCount(c.values)
  {
    var physical :- EncodeRows(c.values, start, len);
    var nullCount :- NullCount(c, start, len);
    var payload := if nullCount == 0 then physical else PackBits(NullFlags(c, start, len)) + physical;
    var flags := if nullCount == 0 then PAGE_FLAG_ALL_NON_NULL else if nullCount == len then PAGE_FLAG_ALL_NULL else 0;
    Ok(PageSpec(len, payload, c.encoding, len - nullCount, nullCount, flags))
  }

  method BuildPage(c: Column, start: nat, len: u32) returns (r: Result<PageSpec>)
    requires start + len <= RowCount(c.values)
    ensures r == CutPage(c, start, len)
  {
    hide EncodeRows, PackBits;
    var physical := EncodePageRows(c.values, start, len);
    if physical.Err? {
      return Err(physical.error);
    }
    var nullCount := CountNulls(c, start, len);
    if nullCount.Err? {
      return Err(nullCount.error);
    }
    if nullCount.value == 0 {
      return Ok(PageSpec(len, physical.value, c.encoding, len, 0, PAGE_FLAG_ALL_NON_NULL));
    }
    var validity := ValidityBytes(c, start, len);
    var flags := if nullCount.value == len then PAGE_FLAG_ALL_NULL else 0;
    return Ok(PageSpec(len, validity + physical.value, c.encoding, len - nullCount.value, nullCount.value, flags));
  }

  // ---- the pages of a row range -----------------------------------------------------------------------

  predicate RangesInside(c: Column, morsels: seq<Segment>) {
    forall i :: 0 <= i < |morsels| ==>
      morsels[i].rowStart + morsels[i].rowCount <= RowCount(c.values) && morsels[i].rowCount < TWO_32
  }

  /** The pages of a list of morsels. */
  function CutPages(c: Column, morsels: seq<Segment>): (r: Result<seq<PageSpec>>)
    requires RangesInside(c, morsels)
    ensures r.Ok? ==> |r.value| == |morsels|
  {
    if morsels == [] then Ok([])
    else
      var before :- CutPages(c, morsels[..|morsels| - 1]);
      var last :- CutPage(c, morsels[|morsels| - 1].rowStart, morsels[|morsels| - 1].rowCount);
      Ok(before + [last])
  }

  lemma MorselsInside(c: Column, start: nat, end: nat, step: u32, id: nat)
    requires step > 0 && start <= end <= RowCount(c.values)
    ensures RangesInside(c, LayoutsFrom(start, end, step, id))
  {
    LayoutsTile(start, end, step, id);
    var morsels := LayoutsFrom(start, end, step, id);
    forall i | 0 <= i < |morsels|
      ensures morsels[i].rowStart + morsels[i].rowCount <= RowCount(c.values) && morsels[i].rowCount < TWO_32
    {
      TileBounds(morsels, start, end, id, i);
      SegmentSize(start, end, step, id, i);
    }
  }

  /** `page_specs_range`: pages of `step` rows from `start` on, the last one shorter. */
  function PagesOf(c: Column, start: nat, count: nat, step: u32): Result<seq<PageSpec>> {
    var _ :- PageRangeCheck(c, start, count, step);
    MorselsInside(c, start, start + count, step, 0);
    CutPages(c, LayoutsFrom(start, start + count, step, 0))
  }

  lemma {:induction false} CutPagesFail(c: Column, morsels: seq<Segment>, i: nat)
    requires RangesInside(c, morsels) && i < |morsels| && CutPage(c, morsels[i].rowStart, morsels[i].rowCount).Err?
    ensures CutPages(c, morsels).Err?
  {
    hide CutPage;
    if i < |morsels| - 1 {
      CutPagesFail(c, morsels[..|morsels| - 1], i);
    }
  }

  lemma {:induction false} CutPageEach(c: Column, morsels: seq<Segment>, i: nat)
    requires RangesInside(c, morsels) && i < |morsels| && CutPages(c, morsels).Ok?
    ensures CutPage(c, morsels[i].rowStart, morsels[i].rowCount) == Ok(CutPages(c, morsels).value[i])
  {
    hide CutPage;
    if i < |morsels| - 1 {
      CutPageEach(c, morsels[..|morsels| - 1], i);
    }
  }

  /** The loop stands at row `row`, before morsel `i`. */
  ghost predicate AtPage(c: Column, morsels: seq<Segment>, row: nat, end: nat, step: u32, i: nat, pages: seq<PageSpec>)
    requires step > 0
  {
    && row <= end <= RowCount(c.values) && i <= |morsels| && morsels[i..] == LayoutsFrom(row, end, step, i)
    && RangesInside(c, morsels) && RangesInside(c, morsels[..i]) && CutPages(c, morsels[..i]) == Ok(pages)
  }

  lemma AtFirstPage(c: Column, start: nat, end: nat, step: u32)
    requires step > 0 && start <= end <= RowCount(c.values)
    ensures AtPage(c, LayoutsFrom(start, end, step, 0), start, end, step, 0, [])
  {
    MorselsInside(c, start, end, step, 0);
    assert LayoutsFrom(start, end, step, 0)[0..] == LayoutsFrom(start, end, step, 0);
  }

  lemma AtNextPage(c: Column, morsels: seq<Segment>, row: nat, end: nat, step: u32, i: nat, pages: seq<PageSpec>)
    requires step > 0 && AtPage(c, morsels, row, end, step, i, pages) && row < end
    ensures var len := SmallerOf(end - row, step);
      && row + len <= RowCount(c.values)
      && var page := CutPage(c, row, len);
         if page.Err? then CutPages(c, morsels).Err?
         else AtPage(c, morsels, row + len, end, step, i + 1, pages + [page.value])
  {
    hide CutPage, LayoutsFrom;
    NextOfLayouts(morsels, i, row, end, step);
    assert morsels[..i + 1][..i] == morsels[..i];
    if CutPage(c, row, SmallerOf(end - row, step)).Err? {
      CutPagesFail(c, morsels, i);
    }
  }

  lemma AtLastPage(c: Column, morsels: seq<Segment>, end: nat, step: u32, i: nat, pages: seq<PageSpec>)
    requires step > 0 && AtPage(c, morsels, end, end, step, i, pages)
    ensures CutPages(c, morsels) == Ok(pages)
  {
    assert |morsels[i..]| == 0;
    assert morsels[..i] == morsels;
  }

  /** What the checks before the loop let through. */
  function PageRangeCheck(c: Column, start: nat, count: nat, step: u32): (r: Result<()>)
    ensures r.Ok? ==> step > 0 && start + count <= RowCount(c.values)
  {
    if step == 0 then Err(BadSchema)
    else if start + count >= TWO_64 then Err(ArithOverflow)
    else if start + count > RowCount(c.values) then Err(BadSchema)
    else if count > 0 && |c.nulls| != RowCount(c.values) then Err(BadSchema)
    else Ok(())
  }

  method PageSpecsRange(c: Column, start: nat, count: nat, step: u32) returns (r: Result<seq<PageSpec>>)
    ensures r.Ok? == PagesOf(c, start, count, step).Ok?
    ensures r.Ok? ==> r == PagesOf(c, start, count, step)
  {
    hide CutPages, LayoutsFrom, PageRangeCheck, PagesOf, RangesInside;
    PagesChecked(c, start, count, step);
    var check := PageRangeCheck(c, start, count, step);
    if check.Err? {
      return Err(check.error);
    }
    if count == 0 {
      NoPages(c, start, step);
      return Ok([]);
    }
    r := PageLoop(c, start, start + count, step);
  }

  lemma PagesChecked(c: Column, start: nat, count: nat, step: u32)
    ensures PageRangeCheck(c, start, count, step).Err? ==> PagesOf(c, start, count, step).Err?
    ensures PageRangeCheck(c, start, count, step).Ok? ==>
      && step > 0 && start + count <= RowCount(c.values)
      && RangesInside(c, LayoutsFrom(start, start + count, step, 0))
      && PagesOf(c, start, count, step) == CutPages(c, LayoutsFrom(start, start + count, step, 0))
  {
    hide PageRangeCheck, CutPages, LayoutsFrom, RangesInside;
    if PageRangeCheck(c, start, count, step).Ok? {
      MorselsInside(c, start, start + count, step, 0);
    }
  }

  lemma NoPages(c: Column, start: nat, step: u32)
    requires step > 0 && start <= RowCount(c.values)
    ensures CutPages(c, LayoutsFrom(start, start, step, 0)) == Ok([])
  {
  }

  method PageLoop(c: Column, start: nat, end: nat, step: u32) returns (r: Result<seq<PageSpec>>)
    requires step > 0 && start <= end <= RowCount(c.values)
    ensures RangesInside(c, LayoutsFrom(start, end, step, 0))
    ensures var spec := CutPages(c, LayoutsFrom(start, end, step, 0)); r.Ok? == spec.Ok? && (r.Ok? ==> r == spec)
  {
    hide AtPage, CutPage, CutPages, LayoutsFrom, RangesInside;
    ghost var morsels := LayoutsFrom(start, end, step, 0);
    ghost var i := 0;
    AtFirstPage(c, start, end, step);
    MorselsInside(c, start, end, step, 0);
    var pages: seq<PageSpec> := [];
    var row := start;
    while row < end
      invariant start <= row <= end && AtPage(c, morsels, row, end, step, i, pages)
      decreases end - row
    {
      var len := SmallerOf(end - row, step);
      AtNextPage(c, morsels, row, end, step, i, pages);
      var page := BuildPage(c, row, len);
      if page.Err? {
        return Err(page.error);
      }
      pages := pages + [page.value];
      row, i := row + len, i + 1;
    }
    AtLastPage(c, morsels, end, step, i, pages);
    return Ok(pages);
  }
}
