/** What a zone's bounds say about the source's own values. */
module ZoneValues {
  import opened Wrappers
  import opened Sequences
  import opened Wire
  import opened ColumnTypes
  import opened ConvertedColumns
  import opened RowLayout
  import opened ZoneStats
  import opened ZoneEntries
  import opened SourceColumns
  import opened SourceOrder

  // ---- numbers ------------------------------------------------------------------------------------------

  /** Kinds whose zones are bounded by numbers. */
  predicate IsCounted(kind: SourceKind) {
    kind != FromFloat32 && kind != FromFloat64 && !IsBytesKind(kind)
  }

  /** The number a zone bound is about: the source value in the column's unit, booleans as 0 and 1. */
  function Number(kind: SourceKind, v: SourceValue): int {
    match v
    case Truth(b) => if b then 1 else 0
    case Whole(n) => n * Scale(kind)
    case _ => 0
  }

  /** A column as the converter filled it, before any dictionary synthesis. */
  predicate Filled(c: Column, kind: SourceKind, rows: seq<SourceCell>) {
    LaidOut(c.values, kind) && Holds(c, kind, rows)
  }

  lemma CountedHasStats(c: Column, kind: SourceKind)
    requires LaidOut(c.values, kind) && c.logical == LogicalOf(kind)
    ensures IsCounted(kind) <==> HasStats(c)
  {
  }

  lemma DecimalReads(bytes: seq<byte>, n: int)
    requires |bytes| == 16 && StandsFor(FromLE(bytes), n, TWO_128) && -TWO_127 <= n < TWO_127
    ensures Signed128(bytes) == n
  {
    hide FromLE;
  }

  lemma NumberReads(c: Column, kind: SourceKind, number: u64, v: SourceValue)
    requires c.logical == LogicalOf(kind) && IsCounted(kind) && kind != FromBoolean && kind != FromDecimal128
    requires Fits(kind, v) && NumberHeld(number, kind, v.n)
    ensures StatReading(c.logical, number) == Some(v.n * Scale(kind))
  {
    hide LowSigned;
    StoredReads(kind, number, v);
  }

  /** The statistics of a row are about its source value. */
  lemma StatOfSource(c: Column, kind: SourceKind, rows: seq<SourceCell>, row: nat)
    requires Filled(c, kind, rows) && IsCounted(kind) && row < |rows| && rows[row].Some?
    ensures HasStats(c) && StatValue(c, row) == Some(Number(kind, rows[row].value))
  {
    CountedHasStats(c, kind);
    var v := rows[row].value;
    assert CellHeld(c, kind, row, rows[row]);
    match c.values {
      case NumCodes(s) => NumberReads(c, kind, s[row], v);
      case FixedBytes(_, s) => DecimalReads(s[row], v.n);
      case Booleans(_) =>
    }
    hide StatReading, Signed128, FromLE, StandsFor;
  }

  // ---- one zone -----------------------------------------------------------------------------------------

  lemma SourceRowInZone(c: Column, kind: SourceKind, rows: seq<SourceCell>, start: nat, len: nat, row: nat)
    requires Holds(c, kind, rows) && start <= row < start + len <= |rows|
    ensures rows[row].Some? <==> row in NonNullRows(c, start, len)
  {
    NonNullRowsExact(c, start, len);
    hide NonNullRows, ValueHeld, Fits;
    assert CellHeld(c, kind, row, rows[row]);
  }

  lemma FixedRowsFit(c: Column, kind: SourceKind, rows: seq<SourceCell>, start: nat, len: nat)
    requires Filled(c, kind, rows) && start + len <= |rows|
    ensures RowsWithin(c, NonNullRows(c, start, len)) && FixedValuesFit(c, NonNullRows(c, start, len))
  {
    ZoneRowsWithin(c, start, len);
    NonNullRowsExact(c, start, len);
    var present := NonNullRows(c, start, len);
    hide NonNullRows, Fits, StandsFor, FromLE;
    if c.values.FixedBytes? {
      forall i | 0 <= i < |present| ensures |c.values.fixed[present[i]]| == 16 {
        assert present[i] in present;
        assert CellHeld(c, kind, present[i], rows[present[i]]);
      }
    }
  }

  /** A zone with a row that is not null has an entry. */
  lemma ZoneHasEntry(c: Column, kind: SourceKind, rows: seq<SourceCell>, widen: Widen, start: nat, len: nat,
      segmentId: nat, morselId: nat, row: nat)
    returns (e: ZoneEntry)
    requires Filled(c, kind, rows) && IsCounted(kind) && start <= row < start + len <= |rows| && rows[row].Some?
    ensures BuildEntry(c, widen, start, len, segmentId, morselId) == Ok(Some(e))
    ensures e.segmentId == segmentId && e.morselId == morselId
    ensures row in NonNullRows(c, start, len) && RowsWithin(c, NonNullRows(c, start, len)) && HasStats(c)
    ensures var s := StatsOf(StatValues(c, NonNullRows(c, start, len))); e.bounds == Scalars(s.min, s.max)
  {
    CountedHasStats(c, kind);
    SourceRowInZone(c, kind, rows, start, len, row);
    FixedRowsFit(c, kind, rows, start, len);
    NonNullRowsExact(c, start, len);
    hide NonNullRows, StatsOf, HasStats, CellHeld, RunCount, FileCodeStats, FloatKeys, RawBytes, StatValues;
    assert NullCount(c, start, len).Ok?;
    e := BuildEntry(c, widen, start, len, segmentId, morselId).value.value;
  }

  lemma RowsOfZone(c: Column, kind: SourceKind, rows: seq<SourceCell>, start: nat, len: nat, i: nat)
    requires Filled(c, kind, rows) && start + len <= |rows| && i < |NonNullRows(c, start, len)|
    ensures var row := NonNullRows(c, start, len)[i]; start <= row < start + len && rows[row].Some?
  {
    NonNullRowsExact(c, start, len);
    hide NonNullRows, CellHeld;
    var row := NonNullRows(c, start, len)[i];
    assert row in NonNullRows(c, start, len);
    SourceRowInZone(c, kind, rows, start, len, row);
  }

  /** A zone of a filled column has an entry if any of its rows is not null. No source value of the zone lies outside
      its bounds, and both bounds are source values of the zone. */
  lemma ZoneBoundsOfSource(c: Column, kind: SourceKind, rows: seq<SourceCell>, widen: Widen, start: nat, len: nat,
      segmentId: nat, morselId: nat, row: nat)
    returns (e: ZoneEntry, lo: nat, hi: nat)
    requires Filled(c, kind, rows) && IsCounted(kind) && start <= row < start + len <= |rows| && rows[row].Some?
    ensures BuildEntry(c, widen, start, len, segmentId, morselId) == Ok(Some(e)) && e.bounds.Scalars?
    ensures e.segmentId == segmentId && e.morselId == morselId
    ensures e.bounds.min <= Number(kind, rows[row].value) <= e.bounds.max
    ensures start <= lo < start + len && rows[lo].Some? && Number(kind, rows[lo].value) == e.bounds.min
    ensures start <= hi < start + len && rows[hi].Some? && Number(kind, rows[hi].value) == e.bounds.max
  {
    hide Filled, BuildEntry, StatsOf, StatValue, StatValues, HasStats, NonNullRows, Number, RowsWithin;
    e := ZoneHasEntry(c, kind, rows, widen, start, len, segmentId, morselId, row);
    var present := NonNullRows(c, start, len);
    var i :| 0 <= i < |present| && present[i] == row;
    var l, h, _, _ := StatsAreExact(c, present, i);
    lo, hi := present[l], present[h];
    RowsOfZone(c, kind, rows, start, len, l);
    RowsOfZone(c, kind, rows, start, len, h);
    StatOfSource(c, kind, rows, row);
    StatOfSource(c, kind, rows, lo);
    StatOfSource(c, kind, rows, hi);
  }

  /** The source numbers of some rows. */
  function Numbers(kind: SourceKind, rows: seq<SourceCell>, picked: seq<nat>): (numbers: seq<int>)
    requires forall i :: 0 <= i < |picked| ==> picked[i] < |rows| && rows[picked[i]].Some?
    ensures |numbers| == |picked|
    ensures forall i :: 0 <= i < |picked| ==> numbers[i] == Number(kind, rows[picked[i]].value)
  {
    seq(|picked|, i requires 0 <= i < |picked| => Number(kind, rows[picked[i]].value))
  }

  lemma CountedOfRow(c: Column, kind: SourceKind, rows: seq<SourceCell>, picked: seq<nat>, i: nat)
    requires Filled(c, kind, rows) && IsCounted(kind) && HasStats(c) && RowsWithin(c, picked)
    requires i < |picked| && picked[i] < |rows| && rows[picked[i]].Some?
    ensures CountedValues(c, picked)[i] == Number(kind, rows[picked[i]].value)
  {
    StatOfSource(c, kind, rows, picked[i]);
    assert CellHeld(c, kind, picked[i], rows[picked[i]]);
    hide StatValue, HasStats, NumberHeld, StandsFor, Fits, Scale;
  }

  /** The counts of a zone are counts of source values: how many differ, in how many runs they come, and whether they
      are all the same. */
  lemma ZoneCountsOfSource(c: Column, kind: SourceKind, rows: seq<SourceCell>, widen: Widen, start: nat, len: nat,
      segmentId: nat, morselId: nat, e: ZoneEntry)
    returns (picked: seq<nat>)
    requires Filled(c, kind, rows) && IsCounted(kind) && start + len <= |rows|
    requires BuildEntry(c, widen, start, len, segmentId, morselId) == Ok(Some(e))
    ensures StrictlyAscending(picked)
    ensures forall row: nat :: row in picked <==> start <= row < start + len && rows[row].Some?
    ensures forall i :: 0 <= i < |picked| ==> picked[i] < |rows| && rows[picked[i]].Some?
    ensures e.nullCount + |picked| == len
    ensures picked != [] ==>
      var numbers := Numbers(kind, rows, picked);
      e.distinct == |Members(numbers)| && e.runs == RunCount(numbers) && (e.constant <==> AllEqual(numbers))
  {
    hide Filled, BuildEntry, CountedValues, NonNullRows, Number, HasStats, RunCount, AllEqual, RowsWithin;
    FilledRows(c, kind, rows);
    FilledHasStats(c, kind, rows);
    picked := NonNullRows(c, start, len);
    NonNullRowsAscend(c, start, len);
    EntryCountsAreExact(c, widen, start, len, segmentId, morselId, e);
    forall row: nat ensures row in picked <==> start <= row < start + len && rows[row].Some? {
      if start <= row < start + len {
        SourceRowInZone(c, kind, rows, start, len, row);
      }
    }
    forall i | 0 <= i < |picked| ensures picked[i] < |rows| && rows[picked[i]].Some? {
      assert picked[i] in picked;
    }
    forall i | 0 <= i < |picked| ensures CountedValues(c, picked)[i] == Number(kind, rows[picked[i]].value) {
      CountedOfRow(c, kind, rows, picked, i);
    }
    assert CountedValues(c, picked) == Numbers(kind, rows, picked);
  }

  lemma FilledHasStats(c: Column, kind: SourceKind, rows: seq<SourceCell>)
    requires Filled(c, kind, rows) && IsCounted(kind)
    ensures HasStats(c)
  {
    CountedHasStats(c, kind);
  }

  // ---- floats -------------------------------------------------------------------------------------------

  predicate IsFloatKind(kind: SourceKind) {
    kind == FromFloat32 || kind == FromFloat64
  }

  /** The bits of a source float as a double. */
  function Wide(kind: SourceKind, widen: Widen, v: SourceValue): u64
    requires Fits(kind, v) && IsFloatKind(kind)
  {
    if kind == FromFloat32 then widen(v.bits) else v.bits
  }

  predicate FloatAtMost(a: nat, b: nat) {
    a == b || FloatBefore(a, b, TWO_63)
  }

  lemma KeysAreTotalOrder(a: u64, b: u64)
    ensures FloatKey(a) <= FloatKey(b) <==> FloatAtMost(a, b)
  {
  }

  lemma FloatOfSource(c: Column, kind: SourceKind, rows: seq<SourceCell>, widen: Widen, row: nat)
    requires Filled(c, kind, rows) && IsFloatKind(kind) && row < |rows| && rows[row].Some?
    ensures HasFloats(c) && Fits(kind, rows[row].value)
    ensures FloatBits(c, widen, c.values.numbers[row]) == Wide(kind, widen, rows[row].value)
  {
    assert CellHeld(c, kind, row, rows[row]);
    hide NumberHeld;
  }

  lemma {:induction false} FloatKeySource(c: Column, widen: Widen, rows: seq<nat>, key: int) returns (i: nat)
    requires c.values.NumCodes? && RowsWithin(c, rows) && key in FloatKeys(c, widen, rows)
    ensures i < |rows|
    ensures var bits := FloatBits(c, widen, c.values.numbers[rows[i]]); !IsNan(bits) && FloatKey(bits) == key
  {
    var n := |rows| - 1;
    var bits := FloatBits(c, widen, c.values.numbers[rows[n]]);
    if !IsNan(bits) && FloatKey(bits) == key {
      i := n;
    } else {
      hide IsNan, FloatKey, FloatBits;
      i := FloatKeySource(c, widen, rows[..n], key);
    }
  }

  lemma FloatZone(c: Column, widen: Widen, start: nat, len: nat, segmentId: nat, morselId: nat, e: ZoneEntry, row: nat)
    returns (keys: seq<int>)
    requires start + len <= RowCount(c.values) && BuildEntry(c, widen, start, len, segmentId, morselId) == Ok(Some(e))
    requires HasFloats(c) && row in NonNullRows(c, start, len)
    ensures RowsWithin(c, NonNullRows(c, start, len))
    ensures keys == FloatKeys(c, widen, NonNullRows(c, start, len)) != []
    ensures e.bounds ==
      Floats(KeyBits(MinOf(keys)), KeyBits(MaxOf(keys)), |keys| < |NonNullRows(c, start, len)|)
  {
    hide BuildEntry, NonNullRows, FloatKeys, MinOf, MaxOf, StatsOf, FileCodeStats, StatValues;
    EntryRows(c, widen, start, len, segmentId, morselId, e);
    FloatsHaveNoStats(c);
    keys := FloatKeys(c, widen, NonNullRows(c, start, len));
  }

  /** The bound with key `key` is a source float of the zone. */
  lemma BoundIsSource(c: Column, kind: SourceKind, rows: seq<SourceCell>, widen: Widen, start: nat, len: nat, key: int)
    returns (at: nat)
    requires Filled(c, kind, rows) && IsFloatKind(kind) && start + len <= |rows| && HasFloats(c)
    requires RowsWithin(c, NonNullRows(c, start, len)) && key in FloatKeys(c, widen, NonNullRows(c, start, len))
    ensures start <= at < start + len && rows[at].Some? && Fits(kind, rows[at].value)
    ensures var bits := Wide(kind, widen, rows[at].value);
      !IsNan(bits) && KeyBits(key) == bits && FloatKey(bits) == key
  {
    hide Filled, NonNullRows, FloatKeys, FloatBits, IsNan, FloatKey, KeyBits, Fits;
    var i := FloatKeySource(c, widen, NonNullRows(c, start, len), key);
    RowsOfZone(c, kind, rows, start, len, i);
    at := NonNullRows(c, start, len)[i];
    FloatOfSource(c, kind, rows, widen, at);
    KeyBitsBack(Wide(kind, widen, rows[at].value));
  }

  lemma {:induction false} SomeNan(c: Column, widen: Widen, rows: seq<nat>) returns (i: nat)
    requires c.values.NumCodes? && RowsWithin(c, rows) && |FloatKeys(c, widen, rows)| < |rows|
    ensures i < |rows| && IsNan(FloatBits(c, widen, c.values.numbers[rows[i]]))
  {
    hide IsNan, FloatBits, FloatKey;
    var n := |rows| - 1;
    if IsNan(FloatBits(c, widen, c.values.numbers[rows[n]])) {
      i := n;
    } else {
      i := SomeNan(c, widen, rows[..n]);
    }
  }

  /** A zone marked as holding a NaN holds one. */
  lemma NanIsSource(c: Column, kind: SourceKind, rows: seq<SourceCell>, widen: Widen, start: nat, len: nat,
      segmentId: nat, morselId: nat, e: ZoneEntry, row: nat)
    returns (at: nat)
    requires Filled(c, kind, rows) && IsFloatKind(kind) && start <= row < start + len <= |rows| && rows[row].Some?
    requires BuildEntry(c, widen, start, len, segmentId, morselId) == Ok(Some(e)) && e.bounds.Floats?
    requires e.bounds.hasNan
    ensures start <= at < start + len && rows[at].Some? && Fits(kind, rows[at].value)
    ensures IsNan(Wide(kind, widen, rows[at].value))
  {
    hide Filled, BuildEntry, NonNullRows, FloatKeys, FloatBits, IsNan, KeyBits, Fits, MinOf, MaxOf;
    FloatOfSource(c, kind, rows, widen, row);
    FilledRows(c, kind, rows);
    SourceRowInZone(c, kind, rows, start, len, row);
    var keys := FloatZone(c, widen, start, len, segmentId, morselId, e, row);
    var i := SomeNan(c, widen, NonNullRows(c, start, len));
    at := NonNullRows(c, start, len)[i];
    RowsOfZone(c, kind, rows, start, len, i);
    FloatOfSource(c, kind, rows, widen, at);
  }

  /** The entry of a zone of floats: no source number of the zone lies outside its bounds in the total order, both
      bounds are source numbers of the zone, and a NaN is marked. */
  lemma FloatBoundsOfSource(c: Column, kind: SourceKind, rows: seq<SourceCell>, widen: Widen, start: nat, len: nat,
      segmentId: nat, morselId: nat, e: ZoneEntry, row: nat)
    returns (lo: nat, hi: nat)
    requires Filled(c, kind, rows) && IsFloatKind(kind) && start <= row < start + len <= |rows| && rows[row].Some?
    requires BuildEntry(c, widen, start, len, segmentId, morselId) == Ok(Some(e))
    ensures e.bounds.Floats? && Fits(kind, rows[row].value) && e.bounds.minBits >= 0 && e.bounds.maxBits >= 0
    ensures var bits := Wide(kind, widen, rows[row].value);
      if IsNan(bits) then e.bounds.hasNan
      else FloatAtMost(e.bounds.minBits, bits) && FloatAtMost(bits, e.bounds.maxBits)
    ensures start <= lo < start + len && rows[lo].Some? && Fits(kind, rows[lo].value)
    ensures !IsNan(Wide(kind, widen, rows[lo].value)) && Wide(kind, widen, rows[lo].value) == e.bounds.minBits
    ensures start <= hi < start + len && rows[hi].Some? && Fits(kind, rows[hi].value)
    ensures !IsNan(Wide(kind, widen, rows[hi].value)) && Wide(kind, widen, rows[hi].value) == e.bounds.maxBits
  {
    hide Filled, BuildEntry, NonNullRows, FloatKeys, FloatBits, IsNan, FloatKey, KeyBits, Fits, MinOf, MaxOf,
      FloatAtMost;
    FloatOfSource(c, kind, rows, widen, row);
    FilledRows(c, kind, rows);
    SourceRowInZone(c, kind, rows, start, len, row);
    var keys := FloatZone(c, widen, start, len, segmentId, morselId, e, row);
    var l, h := Attained(keys);
    lo := BoundIsSource(c, kind, rows, widen, start, len, keys[l]);
    hi := BoundIsSource(c, kind, rows, widen, start, len, keys[h]);
    var present := NonNullRows(c, start, len);
    var i :| 0 <= i < |present| && present[i] == row;
    FloatRowAdmitted(c, widen, present, i);
    var bits := Wide(kind, widen, rows[row].value);
    KeysAreTotalOrder(e.bounds.minBits, bits);
    KeysAreTotalOrder(bits, e.bounds.maxBits);
  }

  lemma FilledRows(c: Column, kind: SourceKind, rows: seq<SourceCell>)
    requires Filled(c, kind, rows)
    ensures Holds(c, kind, rows) && RowCount(c.values) == |rows|
  {
  }

  // ---- pruning ------------------------------------------------------------------------------------------

  /** The bounds allow a value between `low` and `high`. */
  predicate Overlaps(bounds: Bounds, low: int, high: int) {
    bounds.Scalars? && bounds.min <= high && low <= bounds.max
  }

  /** A scan for the source values between `low` and `high` that skips every zone whose bounds rule them out loses
      no row: each such row lies in a morsel whose entry is among the segment's zones and overlaps the range. */
  lemma PrunedScanKeepsRow(c: Column, kind: SourceKind, rows: seq<SourceCell>, widen: Widen, segment: Segment,
      morsel: nat, entries: seq<ZoneEntry>, row: nat, low: int, high: int)
    returns (m: Segment, e: ZoneEntry)
    requires Filled(c, kind, rows) && IsCounted(kind)
    requires morsel > 0 && segment.rowStart + segment.rowCount <= RowCount(c.values)
    requires SegmentEntries(c, widen, segment, morsel) == Ok(entries)
    requires Covers(segment, row) && row < |rows| && rows[row].Some? && low <= Number(kind, rows[row].value) <= high
    ensures Covers(m, row) && e in entries && e.segmentId == segment.segmentId && e.morselId == m.segmentId
    ensures Overlaps(e.bounds, low, high)
  {
    hide Filled, BuildEntry, SegmentEntries, Number, NonNullRows, Admits;
    FilledRows(c, kind, rows);
    SourceNotNull(c, kind, rows, row);
    m := ZonesAdmitEveryRow(c, widen, segment, morsel, entries, row);
    var lo: nat, hi: nat;
    e, lo, hi := ZoneBoundsOfSource(c, kind, rows, widen, m.rowStart, m.rowCount, segment.segmentId, m.segmentId, row);
  }

  lemma SourceNotNull(c: Column, kind: SourceKind, rows: seq<SourceCell>, row: nat)
    requires Filled(c, kind, rows) && row < |rows| && rows[row].Some?
    ensures !IsNull(c, row)
  {
    hide ValueHeld, Fits;
    assert CellHeld(c, kind, row, rows[row]);
  }
}
