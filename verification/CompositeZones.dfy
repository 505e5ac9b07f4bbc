/** The composite zone index: per-morsel key bounds of a group of columns (`build_composite_zone_index`). */
module CompositeZones {
  import opened Wrappers
  import opened ConvertedColumns
  import opened Clustering
  import opened RowLayout
  import opened LookupIndex

  datatype KeyBounds = KeyBounds(min: u64, max: u64)

  /** One zone: its number, first row (stored in 32 bits), rows, and the bounds of each column. */
  datatype CompositeZone = CompositeZone(zone: nat, start: nat, len: nat, bounds: seq<KeyBounds>)

  predicate IsKeyed(c: Column) {
    c.values.Booleans? || c.values.FileCodes? || c.values.NumCodes?
  }

  /** Every key of the rows lies within the bounds; the bounds are keys of rows, or 0 when there is no key. */
  ghost predicate TightBounds(c: Column, start: nat, len: nat, b: KeyBounds) {
    && (forall row: nat :: start <= row < start + len && KeyOf(c, row).Some? ==> b.min <= KeyOf(c, row).value <= b.max)
    && (if exists row: nat :: start <= row < start + len && KeyOf(c, row).Some?
        then (exists row: nat :: start <= row < start + len && KeyOf(c, row) == Some(b.min))
          && (exists row: nat :: start <= row < start + len && KeyOf(c, row) == Some(b.max))
        else b == KeyBounds(0, 0))
  }

  method BoundKeys(c: Column, start: nat, len: nat) returns (b: KeyBounds)
    ensures TightBounds(c, start, len, b)
  {
    hide KeyOf;
    var min, max, any := TWO_64 - 1, 0, false;
    ghost var lo: nat, hi: nat := 0, 0;
    for row := start to start + len
      invariant 0 <= min < TWO_64 && 0 <= max < TWO_64
      invariant forall r: nat :: start <= r < row && KeyOf(c, r).Some? ==> min <= KeyOf(c, r).value <= max
      invariant any <==> exists r: nat :: start <= r < row && KeyOf(c, r).Some?
      invariant any ==> start <= lo < row && KeyOf(c, lo) == Some(min) && start <= hi < row && KeyOf(c, hi) == Some(max)
      invariant !any ==> min == TWO_64 - 1 && max == 0
    {
      var key := KeyOf(c, row);
      if key.Some? {
        if key.value <= min {
          min, lo := key.value, row;
        }
        if key.value >= max {
          max, hi := key.value, row;
        }
        any := true;
      }
    }
    if !any {
      return KeyBounds(0, 0);
    }
    return KeyBounds(min, max);
  }

  /** The columns of a group, unless one has no keys. */
  function GroupColumns(columns: seq<Column>, group: seq<string>): Result<Option<seq<Column>>> {
    if group == [] then Ok(Some([]))
    else
      var before :- GroupColumns(columns, group[..|group| - 1]);
      if before.None? then Ok(None)
      else match FindColumn(columns, group[|group| - 1])
        case None => Err(BadSchema)
        case Some(i) => if IsKeyed(columns[i]) then Ok(Some(before.value + [columns[i]])) else Ok(None)
  }

  /** A group has its columns exactly when each of its names is that of a column with keys; they are then the first
      columns of those names, in the order of the group. It fails only on a name that no column has. */
  lemma {:induction false} GroupColumnsExactly(columns: seq<Column>, group: seq<string>)
    ensures var r := GroupColumns(columns, group);
      && (r.Ok? && r.value.Some? ==>
            |r.value.value| == |group| && forall k :: 0 <= k < |group| ==>
              NamedKeyed(columns, group[k], r.value.value[k]))
      && (r.Err? ==> r.error == BadSchema && exists k :: 0 <= k < |group| && IsMissing(columns, group[k]))
      && (r == Ok(None) ==> exists k :: 0 <= k < |group| && NamedUnkeyed(columns, group[k]))
  {
    hide FindColumn;
    if group != [] {
      var init, last := group[..|group| - 1], group[|group| - 1];
      GroupColumnsExactly(columns, init);
      assert forall k :: 0 <= k < |init| ==> init[k] == group[k];
      var i := FindColumn(columns, last);
      if i.Some? {
        assert IsFirstNamed(columns, last, i.value);
      } else {
        assert IsMissing(columns, group[|group| - 1]);
      }
    }
  }

  ghost predicate NamedKeyed(columns: seq<Column>, name: string, c: Column) {
    IsKeyed(c) && exists i: nat :: IsFirstNamed(columns, name, i) && columns[i] == c
  }

  ghost predicate NamedUnkeyed(columns: seq<Column>, name: string) {
    exists i: nat :: IsFirstNamed(columns, name, i) && !IsKeyed(columns[i])
  }

  /** The zones of consecutive morsels, with tight bounds for every column of the group. */
  ghost predicate ZonesOf(zones: seq<CompositeZone>, selected: seq<Column>, morsels: seq<Segment>) {
    && |zones| == |morsels|
    && forall i :: 0 <= i < |zones| ==> ZoneOf(zones[i], selected, morsels[i])
  }

  ghost predicate ZoneOf(zone: CompositeZone, selected: seq<Column>, m: Segment) {
    && zone.zone == m.segmentId && zone.start == m.rowStart % TWO_32 && zone.len == m.rowCount
    && |zone.bounds| == |selected|
    && forall k :: 0 <= k < |selected| ==> TightBounds(selected[k], m.rowStart, m.rowCount, zone.bounds[k])
  }

  method BuildZone(selected: seq<Column>, m: Segment) returns (zone: CompositeZone)
    ensures ZoneOf(zone, selected, m)
  {
    hide TightBounds;
    var bounds: seq<KeyBounds> := [];
    for k := 0 to |selected|
      invariant |bounds| == k && forall j :: 0 <= j < k ==> TightBounds(selected[j], m.rowStart, m.rowCount, bounds[j])
    {
      var b := BoundKeys(selected[k], m.rowStart, m.rowCount);
      bounds := bounds + [b];
    }
    return CompositeZone(m.segmentId, m.rowStart % TWO_32, m.rowCount, bounds);
  }

  /** `build_composite_zone_index`: the morsels of all rows, whatever the segments. */
  method BuildCompositeZones(columns: seq<Column>, group: seq<string>, step: u32)
    returns (r: Result<Option<seq<CompositeZone>>>)
    ensures GroupColumns(columns, group).Err? ==> r == Err(GroupColumns(columns, group).error)
    ensures GroupColumns(columns, group) == Ok(None) || (GroupColumns(columns, group).Ok? && RowsOf(columns) == 0) ==>
      r == Ok(None)
    ensures GroupColumns(columns, group).Ok? && GroupColumns(columns, group).value.Some? && RowsOf(columns) > 0 ==>
      if step == 0 then r == Err(BadSchema)
      else if |LayoutsFrom(0, RowsOf(columns), step, 0)| >= TWO_32 then r == Err(ArithOverflow)
      else r.Ok? && r.value.Some? && ZonesOf(r.value.value, GroupColumns(columns, group).value.value,
        LayoutsFrom(0, RowsOf(columns), step, 0))
  {
    var selected := GroupColumns(columns, group);
    if selected.Err? {
      return Err(selected.error);
    }
    if selected.value.None? {
      return Ok(None);
    }
    var rowCount := RowsOf(columns);
    if rowCount == 0 {
      return Ok(None);
    }
    if step == 0 {
      return Err(BadSchema);
    }
    var zones := ZoneLoop(selected.value.value, rowCount, step);
    if zones.Err? {
      return Err(zones.error);
    }
    return Ok(Some(zones.value));
  }

  method ZoneLoop(selected: seq<Column>, rowCount: nat, step: u32) returns (r: Result<seq<CompositeZone>>)
    requires step > 0
    ensures if |LayoutsFrom(0, rowCount, step, 0)| >= TWO_32 then r == Err(ArithOverflow)
      else r.Ok? && ZonesOf(r.value, selected, LayoutsFrom(0, rowCount, step, 0))
  {
    ghost var morsels := LayoutsFrom(0, rowCount, step, 0);
    var zones: seq<CompositeZone> := [];
    var start := 0;
    hide ZoneOf;
    assert morsels[0..] == morsels;
    while start < rowCount
      invariant start <= rowCount && |zones| <= |morsels| && |zones| < TWO_32
      invariant morsels[|zones|..] == LayoutsFrom(start, rowCount, step, |zones|)
      invariant forall i :: 0 <= i < |zones| ==> ZoneOf(zones[i], selected, morsels[i])
      decreases rowCount - start
    {
      var len := SmallerOf(rowCount - start, step);
      NextOfLayouts(morsels, |zones|, start, rowCount, step);
      var zone := BuildZone(selected, Segment(|zones|, start, len));
      zones := zones + [zone];
      if |zones| >= TWO_32 {
        return Err(ArithOverflow);
      }
      start := start + len;
    }
    return Ok(zones);
  }

  /** Every row of the table lies in exactly one zone, and that zone's bounds hold its key. */
  lemma CompositeAdmitsEveryRow(zones: seq<CompositeZone>, selected: seq<Column>, rowCount: nat, step: nat, k: nat,
      row: nat) returns (i: nat)
    requires step > 0 && ZonesOf(zones, selected, LayoutsFrom(0, rowCount, step, 0))
    requires k < |selected| && row < rowCount
    ensures i < |zones| && zones[i].zone == i
    ensures Covers(LayoutsFrom(0, rowCount, step, 0)[i], row)
      && zones[i].start == LayoutsFrom(0, rowCount, step, 0)[i].rowStart % TWO_32
    ensures forall j :: 0 <= j < |zones| && Covers(LayoutsFrom(0, rowCount, step, 0)[j], row) ==> j == i
    ensures k < |zones[i].bounds|
    ensures KeyOf(selected[k], row).Some? ==>
      zones[i].bounds[k].min <= KeyOf(selected[k], row).value <= zones[i].bounds[k].max
  {
    LayoutsTile(0, rowCount, step, 0);
    var morsels := LayoutsFrom(0, rowCount, step, 0);
    i := TileCovers(morsels, 0, rowCount, 0, row);
    TileBounds(morsels, 0, rowCount, 0, i);
    hide LayoutsFrom, KeyOf, Tiles;
    assert ZoneOf(zones[i], selected, morsels[i]);
    assert TightBounds(selected[k], morsels[i].rowStart, morsels[i].rowCount, zones[i].bounds[k]);
  }
}
