/** Segments and morsels of a table (`build_segment_layouts`, `segment_position_for_row`). */
module RowLayout {
  import opened Wrappers

  datatype Segment = Segment(segmentId: nat, rowStart: nat, rowCount: nat)

  /** A row's address: `RowRef` without its constant table id. */
  datatype RowRef = RowRef(segmentId: nat, morselId: nat, rowInMorsel: nat)

  function SmallerOf(a: nat, b: nat): (m: nat)
    ensures m <= a && m <= b && (m == a || m == b)
  {
    if a < b then a else b
  }

  /** Segments of `step` rows from `start` on, the last one shorter when rows run out. */
  function LayoutsFrom(start: nat, total: nat, step: nat, id: nat): (segments: seq<Segment>)
    requires step > 0 && start <= total
    decreases total - start
  {
    if start == total then []
    else
      var len := SmallerOf(total - start, step);
      [Segment(id, start, len)] + LayoutsFrom(start + len, total, step, id + 1)
  }

  /** `build_segment_layouts`; an empty table still has one segment. */
  function SegmentLayouts(total: nat, step: nat): Result<seq<Segment>> {
    if step == 0 then Err(BadSchema)
    else if total == 0 then Ok([Segment(0, 0, 0)])
    else if |LayoutsFrom(0, total, step, 0)| > TWO_32 then Err(ArithOverflow)
    else Ok(LayoutsFrom(0, total, step, 0))
  }

  method BuildSegmentLayouts(total: nat, step: u32) returns (r: Result<seq<Segment>>)
    ensures r == SegmentLayouts(total, step)
  {
    if step == 0 {
      return Err(BadSchema);
    }
    if total == 0 {
      return Ok([Segment(0, 0, 0)]);
    }
    var out: seq<Segment> := [];
    var start := 0;
    while start < total
      invariant start <= total && |out| <= TWO_32
      invariant out + LayoutsFrom(start, total, step, |out|) == LayoutsFrom(0, total, step, 0)
      decreases total - start
    {
      var len := SmallerOf(total - start, step);
      if |out| >= TWO_32 {
        return Err(ArithOverflow);
      }
      NextLayout(out, start, total, step);
      out := out + [Segment(|out|, start, len)];
      start := start + len;
    }
    assert out + [] == out;
    return Ok(out);
  }

  lemma NextLayout(out: seq<Segment>, start: nat, total: nat, step: nat)
    requires step > 0 && start < total
    ensures var len := SmallerOf(total - start, step);
      out + LayoutsFrom(start, total, step, |out|)
        == out + [Segment(|out|, start, len)] + LayoutsFrom(start + len, total, step, |out| + 1)
  {
  }

  // ---- tiling -----------------------------------------------------------------------------------

  predicate Covers(s: Segment, row: nat) {
    s.rowStart <= row < s.rowStart + s.rowCount
  }

  /** Segments lie end to end from row `start` to row `end`, numbered from `id`. */
  predicate Tiles(segments: seq<Segment>, start: nat, end: nat, id: nat) {
    if segments == [] then start == end
    else
      && segments[0].rowStart == start && segments[0].segmentId == id
      && Tiles(segments[1..], start + segments[0].rowCount, end, id + 1)
  }

  lemma {:induction false} LayoutsTile(start: nat, total: nat, step: nat, id: nat)
    requires step > 0 && start <= total
    ensures Tiles(LayoutsFrom(start, total, step, id), start, total, id)
    decreases total - start
  {
    if start < total {
      var len := SmallerOf(total - start, step);
      LayoutsTile(start + len, total, step, id + 1);
      var segments := LayoutsFrom(start, total, step, id);
      assert segments[1..] == LayoutsFrom(start + len, total, step, id + 1);
    }
  }

  /** The segments of a table lie end to end over all its rows, in order, and are numbered from 0. */
  lemma SegmentsTile(total: nat, step: nat)
    requires SegmentLayouts(total, step).Ok?
    ensures Tiles(SegmentLayouts(total, step).value, 0, total, 0)
  {
    if total > 0 {
      LayoutsTile(0, total, step, 0);
    } else {
      assert [Segment(0, 0, 0)][1..] == [];
    }
  }

  lemma {:induction false} TileEnd(segments: seq<Segment>, start: nat, end: nat, id: nat)
    requires Tiles(segments, start, end, id)
    ensures start <= end
  {
    if segments != [] {
      TileEnd(segments[1..], start + segments[0].rowCount, end, id + 1);
    }
  }

  lemma {:induction false} TileBounds(segments: seq<Segment>, start: nat, end: nat, id: nat, i: nat)
    requires Tiles(segments, start, end, id) && i < |segments|
    ensures segments[i].segmentId == id + i
    ensures start <= segments[i].rowStart && segments[i].rowStart + segments[i].rowCount <= end
  {
    TileEnd(segments[1..], start + segments[0].rowCount, end, id + 1);
    if i > 0 {
      TileBounds(segments[1..], start + segments[0].rowCount, end, id + 1, i - 1);
    }
  }

  /** Every row between the ends is covered by exactly one segment. */
  lemma {:induction false} TileCovers(segments: seq<Segment>, start: nat, end: nat, id: nat, row: nat) returns (i: nat)
    requires Tiles(segments, start, end, id) && start <= row < end
    ensures i < |segments| && Covers(segments[i], row)
    ensures forall j :: 0 <= j < |segments| && Covers(segments[j], row) ==> j == i
  {
    var next := start + segments[0].rowCount;
    if row < next {
      i := 0;
      forall j | 1 <= j < |segments| ensures !Covers(segments[j], row) {
        TileBounds(segments[1..], next, end, id + 1, j - 1);
      }
    } else {
      var rest := TileCovers(segments[1..], next, end, id + 1, row);
      i := rest + 1;
      forall j | 0 <= j < |segments| && Covers(segments[j], row) ensures j == i {
        if j > 0 {
          assert Covers(segments[1..][j - 1], row);
        }
      }
    }
  }

  lemma NextOfLayouts(morsels: seq<Segment>, i: nat, start: nat, end: nat, step: nat)
    requires step > 0 && start < end && i <= |morsels| && morsels[i..] == LayoutsFrom(start, end, step, i)
    ensures var len := SmallerOf(end - start, step);
      i < |morsels| && morsels[i] == Segment(i, start, len)
        && morsels[i + 1..] == LayoutsFrom(start + len, end, step, i + 1)
  {
    assert morsels[i] == morsels[i..][0];
    assert morsels[i + 1..] == morsels[i..][1..];
  }

  /** `segment_position_for_row`: the first segment that covers the row. */
  function SegmentOf(segments: seq<Segment>, row: nat): Result<Segment> {
    if segments == [] then Err(BadSchema)
    else if Covers(segments[0], row) then Ok(segments[0])
    else SegmentOf(segments[1..], row)
  }

  lemma {:induction false} SegmentOfRow(segments: seq<Segment>, start: nat, end: nat, id: nat, row: nat)
    requires Tiles(segments, start, end, id) && start <= row < end
    ensures SegmentOf(segments, row).Ok?
    ensures var s := SegmentOf(segments, row).value;
      Covers(s, row) && s.segmentId >= id && s.segmentId - id < |segments| && segments[s.segmentId - id] == s
  {
    if !Covers(segments[0], row) {
      SegmentOfRow(segments[1..], start + segments[0].rowCount, end, id + 1, row);
    }
  }

  method FindSegment(segments: seq<Segment>, row: nat) returns (r: Result<Segment>)
    ensures r == SegmentOf(segments, row)
  {
    assert segments[0..] == segments;
    for i := 0 to |segments|
      invariant SegmentOf(segments, row) == SegmentOf(segments[i..], row)
    {
      if segments[i].rowStart <= row < segments[i].rowStart + segments[i].rowCount {
        return Ok(segments[i]);
      }
      assert segments[i..][1..] == segments[i + 1..];
    }
    return Err(BadSchema);
  }

  // ---- addresses --------------------------------------------------------------------------------

  /** The address of a row of a segment. The index stores the row in its morsel in 16 bits. */
  function AddressWithin(s: Segment, morsel: nat, row: nat): Result<RowRef>
    requires morsel > 0
  {
    if row < s.rowStart then Err(ArithOverflow)
    else
      var m, r := (row - s.rowStart) / morsel, (row - s.rowStart) % morsel;
      if m >= TWO_32 then Err(ArithOverflow)
      else if r >= TWO_16 then Err(BadSchema)
      else Ok(RowRef(s.segmentId, m, r))
  }

  /** A row's address, or why it has none. */
  function AddressOf(segments: seq<Segment>, morsel: nat, row: nat): Result<RowRef>
    requires morsel > 0
  {
    var s :- SegmentOf(segments, row);
    AddressWithin(s, morsel, row)
  }

  /** The row at an address. */
  function RowOf(segments: seq<Segment>, morsel: nat, ref: RowRef): nat
    requires ref.segmentId < |segments|
  {
    segments[ref.segmentId].rowStart + (ref.morselId * morsel + ref.rowInMorsel)
  }

  /** Addresses lead back to their rows, so different rows have different addresses. */
  lemma AddressRoundTrip(segments: seq<Segment>, total: nat, morsel: nat, row: nat)
    requires morsel > 0 && Tiles(segments, 0, total, 0) && row < total && AddressOf(segments, morsel, row).Ok?
    ensures var ref := AddressOf(segments, morsel, row).value;
      ref.segmentId < |segments| && RowOf(segments, morsel, ref) == row && ref.rowInMorsel < morsel
  {
    SegmentOfRow(segments, 0, total, 0, row);
    var s := SegmentOf(segments, row).value;
    DivModSplit(row - s.rowStart, morsel);
  }

  lemma DivModSplit(n: nat, m: nat)
    requires m > 0
    ensures (n / m) * m + n % m == n && n % m < m
  {
  }

  lemma AddressWithinExists(s: Segment, morsel: nat, row: nat)
    requires morsel > 0 && Covers(s, row) && s.rowCount <= TWO_32
    ensures AddressWithin(s, morsel, row).Ok? <==> (row - s.rowStart) % morsel < TWO_16
  {
    DivShrinks(row - s.rowStart, morsel);
  }

  /** When a row has an address: its place in its morsel must fit 16 bits. */
  lemma AddressExists(segments: seq<Segment>, total: nat, step: u32, morsel: nat, row: nat)
    requires morsel > 0 && SegmentLayouts(total, step) == Ok(segments) && row < total
    ensures SegmentOf(segments, row).Ok? && SegmentOf(segments, row).value.rowStart <= row
    ensures AddressOf(segments, morsel, row).Ok? <==> (row - SegmentOf(segments, row).value.rowStart) % morsel < TWO_16
  {
    hide AddressWithin;
    SegmentsTile(total, step);
    SegmentOfRow(segments, 0, total, 0, row);
    var s := SegmentOf(segments, row).value;
    SegmentSize(0, total, step, 0, s.segmentId);
    AddressWithinExists(s, morsel, row);
  }

  lemma DivShrinks(n: nat, m: nat)
    requires m > 0
    ensures n / m <= n
  {
    DivModSplit(n, m);
    MulAtLeast(n / m, m);
  }

  lemma {:induction false} MulAtLeast(q: nat, m: nat)
    requires m > 0
    ensures q * m >= q
  {
    if m > 1 {
      MulAtLeast(q, m - 1);
      assert q * m == q * (m - 1) + q;
    }
  }

  lemma {:induction false} SegmentSize(start: nat, total: nat, step: nat, id: nat, i: nat)
    requires step > 0 && start <= total && i < |LayoutsFrom(start, total, step, id)|
    ensures LayoutsFrom(start, total, step, id)[i].rowCount <= step
    decreases total - start
  {
    if i > 0 {
      SegmentSize(start + SmallerOf(total - start, step), total, step, id + 1, i - 1);
    }
  }
}
