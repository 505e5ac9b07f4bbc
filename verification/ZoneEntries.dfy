/** Zone entries of a converted table: one per column and morsel that has statistics. */
module ZoneEntries {
  import opened Wrappers
  import opened Sequences
  import opened Ordered
  import opened ColumnTypes
  import opened ConvertedColumns
  import opened RowLayout
  import opened ZoneStats
  import Clustering
  import Domain

  // ---- FileCode zones -------------------------------------------------------------------------

  function CodesAt(codes: seq<u32>, rows: seq<nat>): (picked: seq<int>)
    requires forall i :: 0 <= i < |rows| ==> rows[i] < |codes|
    ensures |picked| == |rows| && forall i :: 0 <= i < |rows| ==> picked[i] == codes[rows[i]]
  {
    seq(|rows|, i requires 0 <= i < |rows| => codes[rows[i]])
  }

  lemma ZoneRowsWithin(c: Column, start: nat, len: nat)
    requires start + len <= RowCount(c.values)
    ensures RowsWithin(c, NonNullRows(c, start, len))
  {
    NonNullRowsExact(c, start, len);
    var rows := NonNullRows(c, start, len);
    forall i | 0 <= i < |rows| ensures rows[i] < RowCount(c.values) {
      assert rows[i] in rows;
    }
  }

  /** The FileCodes of the non-null rows below `n`, in row order. */
  function PresentCodes(c: Column, n: nat): seq<int>
    requires c.values.FileCodes? && n <= |c.values.codes|
  {
    if n == 0 then []
    else PresentCodes(c, n - 1) + (if IsNull(c, n - 1) then [] else [c.values.codes[n - 1]])
  }

  lemma {:induction false} PresentListed(c: Column, n: nat, row: nat)
    requires c.values.FileCodes? && row < n <= |c.values.codes| && !IsNull(c, row)
    ensures c.values.codes[row] in PresentCodes(c, n)
  {
    if row < n - 1 {
      PresentListed(c, n - 1, row);
    }
  }

  lemma {:induction false} PresentBounded(c: Column, n: nat, i: nat)
    requires c.values.FileCodes? && n <= |c.values.codes| && i < |PresentCodes(c, n)|
    ensures 0 <= PresentCodes(c, n)[i] < TWO_32
  {
    if i < |PresentCodes(c, n - 1)| {
      PresentBounded(c, n - 1, i);
    }
  }

  /** The sorted distinct FileCodes of a column's non-null rows: what its ranks count. */
  function ColumnCodes(c: Column): seq<int>
    requires c.values.FileCodes?
  {
    Collect(PresentCodes(c, |c.values.codes|), Less)
  }

  lemma CodeIsRanked(c: Column, row: nat)
    requires c.values.FileCodes? && row < |c.values.codes| && !IsNull(c, row)
    ensures c.values.codes[row] in ColumnCodes(c)
  {
    PresentListed(c, |c.values.codes|, row);
    CollectMembers(PresentCodes(c, |c.values.codes|), Less, c.values.codes[row]);
  }

  function RankAt(c: Column, row: nat): nat
    requires c.values.FileCodes? && row < |c.values.codes| && !IsNull(c, row)
  {
    CodeIsRanked(c, row);
    Position(ColumnCodes(c), c.values.codes[row])
  }

  datatype RankStats = RankStats(minRank: nat, maxRank: nat, distinct: nat, runs: nat)

  /** `filecode_domain_stats`: the ranks of the smallest and the greatest code of the zone. */
  function FileCodeStats(c: Column, rows: seq<nat>): Result<RankStats>
    requires c.values.FileCodes? && RowsWithin(c, rows) && rows != []
  {
    var zone := CodesAt(c.values.codes, rows);
    if MinOf(zone) !in ColumnCodes(c) || MaxOf(zone) !in ColumnCodes(c) then Err(BadDomain)
    else Ok(RankStats(Position(ColumnCodes(c), MinOf(zone)), Position(ColumnCodes(c), MaxOf(zone)),
                      |Collect(zone, Less)|, RunCount(zone)))
  }

  predicate NotNullRows(c: Column, rows: seq<nat>) {
    forall i :: 0 <= i < |rows| ==> rows[i] < RowCount(c.values) && !IsNull(c, rows[i])
  }

  lemma PositionsOrder(codes: seq<int>, a: int, b: int)
    requires SortedBy(codes, Less) && a in codes && b in codes
    ensures a <= b <==> Position(codes, a) <= Position(codes, b)
  {
    var i, j := Position(codes, a), Position(codes, b);
    if i < j {
      assert Less(codes[i], codes[j]);
    } else if j < i {
      assert Less(codes[j], codes[i]);
    }
  }

  /** The rank bounds hold for every row of the zone, are the ranks of rows of it, and the counts are exact. */
  lemma RankBoundsHold(c: Column, rows: seq<nat>, i: nat) returns (lo: nat, hi: nat)
    requires c.values.FileCodes? && NotNullRows(c, rows) && i < |rows|
    ensures FileCodeStats(c, rows).Ok?
    ensures var s := FileCodeStats(c, rows).value;
      && s.minRank <= RankAt(c, rows[i]) <= s.maxRank
      && lo < |rows| && RankAt(c, rows[lo]) == s.minRank && hi < |rows| && RankAt(c, rows[hi]) == s.maxRank
      && s.distinct == |Members(CodesAt(c.values.codes, rows))|
      && s.runs == RunCount(CodesAt(c.values.codes, rows))
  {
    var zone, codes := CodesAt(c.values.codes, rows), ColumnCodes(c);
    lo, hi := Attained(zone);
    CodeIsRanked(c, rows[lo]);
    CodeIsRanked(c, rows[hi]);
    CodeIsRanked(c, rows[i]);
    Bounded(zone, i);
    CollectCounts(zone);
    LessIsStrict();
    CollectSorts(PresentCodes(c, |c.values.codes|), Less);
    hide Collect, CodesAt, PresentCodes, MinOf, MaxOf;
    PositionsOrder(codes, zone[lo], zone[i]);
    PositionsOrder(codes, zone[i], zone[hi]);
  }

  // ---- the column's domain ----------------------------------------------------------------------

  /** The codes `build_column_domains` hands to the domain: the same as the ranks count. */
  method DomainCodes(c: Column) returns (codes: seq<int>)
    requires c.values.FileCodes?
    ensures codes == ColumnCodes(c)
  {
    codes := [];
    for row := 0 to |c.values.codes|
      invariant codes == Collect(PresentCodes(c, row), Less)
    {
      hide Collect;
      assert PresentCodes(c, row) + [] == PresentCodes(c, row);
      if !IsNull(c, row) {
        CollectSnoc(PresentCodes(c, row), c.values.codes[row]);
        codes := InsertUnique(c.values.codes[row], codes, Less);
      }
    }
  }

  lemma CollectSnoc(list: seq<int>, x: int)
    ensures Collect(list + [x], Less) == InsertUnique(x, Collect(list, Less), Less)
  {
    assert (list + [x])[..|list|] == list;
  }

  /** A zone's rank bounds are ranks in the column's domain. */
  lemma ZoneRanksAreDomainRanks(c: Column, d: Domain.ColumnDomain, row: nat)
    requires c.values.FileCodes? && row < |c.values.codes| && !IsNull(c, row)
    requires d.sortedCodes == ColumnCodes(c) && |d.sortedCodes| < TWO_32
    requires Domain.RanksOf(d.codeToRank, d.sortedCodes, |d.sortedCodes|)
    ensures Domain.RankOf(d, c.values.codes[row]) == Some(RankAt(c, row))
  {
    CodeIsRanked(c, row);
    hide ColumnCodes;
    Domain.BuiltDomainIsSafe(d, c.values.codes[row], RankAt(c, row));
  }

  lemma ColumnCodesAscend(c: Column)
    requires c.values.FileCodes?
    ensures Ascends(ColumnCodes(c)) && forall i :: 0 <= i < |ColumnCodes(c)| ==> 0 <= ColumnCodes(c)[i] < TWO_32
  {
    var present, codes := PresentCodes(c, |c.values.codes|), ColumnCodes(c);
    LessIsStrict();
    CollectSorts(present, Less);
    hide Collect, PresentCodes;
    assert forall i :: 0 < i < |codes| ==> Less(codes[i - 1], codes[i]);
    forall i | 0 <= i < |codes| ensures 0 <= codes[i] < TWO_32 {
      CollectMembers(present, Less, codes[i]);
      var k :| 0 <= k < |present| && present[k] == codes[i];
      PresentBounded(c, |c.values.codes|, k);
    }
  }

  /** `build_column_domains`, one column: a domain over the codes its rows use, if it has any. */
  method BuildColumnDomain(c: Column, entryCount: u32, columnId: u32, logicalType: nat, collationId: nat)
    returns (r: Result<Option<Domain.ColumnDomain>>)
    requires c.values.FileCodes?
    ensures ColumnCodes(c) == [] ==> r == Ok(None)
    ensures ColumnCodes(c) != [] ==> (r.Ok? <==> Domain.CodesBounded(ColumnCodes(c), entryCount))
    ensures r.Ok? && r.value.Some? ==>
      && r.value.value.sortedCodes == ColumnCodes(c) && |r.value.value.sortedCodes| < TWO_32
      && |r.value.value.codeToRank| == entryCount
      && Domain.RanksOf(r.value.value.codeToRank, ColumnCodes(c), |ColumnCodes(c)|)
  {
    ColumnCodesAscend(c);
    var codes := DomainCodes(c);
    hide ColumnCodes, Domain.RanksOf;
    if codes == [] {
      return Ok(None);
    }
    var domain := Domain.FromSortedPresentCodes(codes, entryCount, 1, columnId, logicalType, collationId, 0);
    if domain.Err? {
      return Err(domain.error);
    }
    return Ok(Some(domain.value));
  }

  // ---- float zones --------------------------------------------------------------------------------

  /** `f32::from_bits(x) as f64` on bits; exact conversion is the hardware's business. */
  type Widen = u32 -> u64

  function FloatBits(c: Column, widen: Widen, code: u64): u64 {
    if c.float32Source then widen(code % TWO_32) else code
  }

  /** Exponent bits all set and a fraction. */
  predicate IsNan(bits: u64) {
    bits % TWO_63 > 0x7FF0_0000_0000_0000
  }

  function FloatKey(bits: u64): int {
    Clustering.TotalOrderKey(bits, TWO_63)
  }

  /** The bits behind a key. */
  function KeyBits(key: int): int {
    if key >= 0 then key else TWO_63 - 1 - key
  }

  lemma KeyBitsBack(bits: u64)
    ensures KeyBits(FloatKey(bits)) == bits
  {
  }

  /** The keys of the rows that are numbers, in row order. */
  function FloatKeys(c: Column, widen: Widen, rows: seq<nat>): (keys: seq<int>)
    requires c.values.NumCodes? && RowsWithin(c, rows)
    ensures |keys| <= |rows|
  {
    if rows == [] then []
    else
      var bits := FloatBits(c, widen, c.values.numbers[rows[|rows| - 1]]);
      FloatKeys(c, widen, rows[..|rows| - 1]) + (if IsNan(bits) then [] else [FloatKey(bits)])
  }

  lemma {:induction false} FloatKeyListed(c: Column, widen: Widen, rows: seq<nat>, i: nat)
    requires c.values.NumCodes? && RowsWithin(c, rows) && i < |rows|
    ensures var bits := FloatBits(c, widen, c.values.numbers[rows[i]]);
      !IsNan(bits) ==> FloatKey(bits) in FloatKeys(c, widen, rows)
  {
    if i < |rows| - 1 {
      FloatKeyListed(c, widen, rows[..|rows| - 1], i);
    }
  }

  // ---- one entry ------------------------------------------------------------------------------------

  datatype Bounds =
    | NoBounds
    | Ranks(minRank: nat, maxRank: nat)
    | Scalars(min: int, max: int)
    | Floats(minBits: int, maxBits: int, hasNan: bool)

  datatype ZoneEntry = ZoneEntry(
    segmentId: nat, morselId: nat, rowCount: nat, nullCount: nat, distinct: nat, runs: nat, bounds: Bounds,
    constant: bool)

  predicate FixedValuesFit(c: Column, rows: seq<nat>)
    requires RowsWithin(c, rows)
  {
    c.values.FixedBytes? ==> forall i :: 0 <= i < |rows| ==> |c.values.fixed[rows[i]]| == 16
  }

  predicate HasFloats(c: Column) {
    c.values.NumCodes? && (c.logical == Float32 || c.logical == Float64)
  }

  /** `build_zone_stats_entry`. */
  function BuildEntry(c: Column, widen: Widen, start: nat, len: nat, segmentId: nat, morselId: nat)
    : Result<Option<ZoneEntry>>
    requires start + len <= RowCount(c.values)
  {
    if len == 0 then Ok(None)
    else
      var nullCount :- NullCount(c, start, len);
      var rows := NonNullRows(c, start, len);
      ZoneRowsWithin(c, start, len);
      if nullCount == len then Ok(Some(ZoneEntry(segmentId, morselId, len, nullCount, 0, 0, NoBounds, false)))
      else if c.values.FileCodes? then
        var s :- FileCodeStats(c, rows);
        Ok(Some(ZoneEntry(segmentId, morselId, len, nullCount, s.distinct, s.runs, Ranks(s.minRank, s.maxRank),
          s.distinct == 1)))
      else if HasStats(c) then
        if !FixedValuesFit(c, rows) then Err(BadSchema)
        else
          var s := StatsOf(StatValues(c, rows));
          var distinct := if c.values.Booleans? then |Collect(RawBytes(c.values.booleans, rows), Less)| else s.distinct;
          var runs := if c.values.Booleans? then RunCount(RawBytes(c.values.booleans, rows)) else s.runs;
          Ok(Some(ZoneEntry(segmentId, morselId, len, nullCount, distinct, runs, Scalars(s.min, s.max), distinct == 1)))
      else if HasFloats(c) then
        var keys := FloatKeys(c, widen, rows);
        if keys == [] then Ok(None)
        else Ok(Some(ZoneEntry(segmentId, morselId, len, nullCount, |keys|, |rows|,
          Floats(KeyBits(MinOf(keys)), KeyBits(MaxOf(keys)), |keys| < |rows|), |keys| == 1)))
      else Ok(None)
  }

  /** The boolean bytes as stored: what the distinct and run counts of a boolean zone are taken over. */
  function RawBytes(booleans: seq<byte>, rows: seq<nat>): (values: seq<int>)
    requires forall i :: 0 <= i < |rows| ==> rows[i] < |booleans|
    ensures |values| == |rows| && forall i :: 0 <= i < |rows| ==> values[i] == booleans[rows[i]]
  {
    seq(|rows|, i requires 0 <= i < |rows| => booleans[rows[i]])
  }

  /** A zone entry admits a row: a reader that skips the zone on its bounds never misses the row. */
  predicate Admits(c: Column, widen: Widen, e: ZoneEntry, row: nat)
    requires row < RowCount(c.values) && !IsNull(c, row)
  {
    match e.bounds
    case NoBounds => false
    case Ranks(lo, hi) => c.values.FileCodes? && lo <= RankAt(c, row) <= hi
    case Scalars(lo, hi) => HasStats(c) && StatValue(c, row).Some? && lo <= StatValue(c, row).value <= hi
    case Floats(lo, hi, hasNan) =>
      HasFloats(c) &&
      var bits := FloatBits(c, widen, c.values.numbers[row]);
      if IsNan(bits) then hasNan
      else 0 <= lo < TWO_64 && 0 <= hi < TWO_64 && FloatKey(lo) <= FloatKey(bits) <= FloatKey(hi)
  }

  lemma RowInZone(c: Column, start: nat, len: nat, row: nat) returns (i: nat)
    requires start <= row < start + len && !IsNull(c, row)
    ensures i < |NonNullRows(c, start, len)| && NonNullRows(c, start, len)[i] == row
  {
    NonNullRowsExact(c, start, len);
    assert row in NonNullRows(c, start, len);
    i :| 0 <= i < |NonNullRows(c, start, len)| && NonNullRows(c, start, len)[i] == row;
  }

  lemma ZoneRowsNotNull(c: Column, start: nat, len: nat)
    requires start + len <= RowCount(c.values)
    ensures NotNullRows(c, NonNullRows(c, start, len))
  {
    NonNullRowsExact(c, start, len);
    var rows := NonNullRows(c, start, len);
    forall i | 0 <= i < |rows| ensures rows[i] < RowCount(c.values) && !IsNull(c, rows[i]) {
      assert rows[i] in rows;
    }
  }

  lemma EntryRows(c: Column, widen: Widen, start: nat, len: nat, segmentId: nat, morselId: nat, e: ZoneEntry)
    requires start + len <= RowCount(c.values) && BuildEntry(c, widen, start, len, segmentId, morselId) == Ok(Some(e))
    requires NonNullRows(c, start, len) != []
    ensures var rows := NonNullRows(c, start, len);
      && RowsWithin(c, rows)
      && if c.values.FileCodes? then
           && FileCodeStats(c, rows).Ok?
           && e.bounds == Ranks(FileCodeStats(c, rows).value.minRank, FileCodeStats(c, rows).value.maxRank)
         else if HasStats(c) then
           e.bounds == Scalars(StatsOf(StatValues(c, rows)).min, StatsOf(StatValues(c, rows)).max)
         else
           HasFloats(c) && var keys := FloatKeys(c, widen, rows);
           keys != [] && e.bounds == Floats(KeyBits(MinOf(keys)), KeyBits(MaxOf(keys)), |keys| < |rows|)
  {
    ZoneRowsWithin(c, start, len);
    hide NonNullRows, FileCodeStats, StatsOf, FloatKeys, MinOf, MaxOf, RunCount, Collect;
  }

  lemma RanksAdmit(c: Column, widen: Widen, e: ZoneEntry, rows: seq<nat>, i: nat)
    requires c.values.FileCodes? && NotNullRows(c, rows) && i < |rows| && RowsWithin(c, rows)
      && FileCodeStats(c, rows).Ok?
    requires e.bounds == Ranks(FileCodeStats(c, rows).value.minRank, FileCodeStats(c, rows).value.maxRank)
    ensures Admits(c, widen, e, rows[i])
  {
    hide FileCodeStats, RankAt;
    var _, _ := RankBoundsHold(c, rows, i);
  }

  lemma ScalarsAdmit(c: Column, widen: Widen, e: ZoneEntry, rows: seq<nat>, i: nat)
    requires HasStats(c) && NotNullRows(c, rows) && i < |rows| && RowsWithin(c, rows)
    requires e.bounds == Scalars(StatsOf(StatValues(c, rows)).min, StatsOf(StatValues(c, rows)).max)
    ensures Admits(c, widen, e, rows[i])
  {
    hide StatsOf, StatValue, HasStats;
    var _, _, _, _ := StatsAreExact(c, rows, i);
  }

  /** No entry leaves out a value of its zone. */
  lemma EntryAdmitsItsRows(c: Column, widen: Widen, start: nat, len: nat, segmentId: nat, morselId: nat, e: ZoneEntry,
      row: nat)
    requires start + len <= RowCount(c.values) && BuildEntry(c, widen, start, len, segmentId, morselId) == Ok(Some(e))
    requires start <= row < start + len && !IsNull(c, row)
    ensures Admits(c, widen, e, row)
  {
    hide NonNullRows, BuildEntry, IsNan, FloatBits, StatsOf, StatValue, FileCodeStats, RankAt, FloatKey;
    hide MinOf, MaxOf, FloatKeys, HasStats, RowsWithin, NotNullRows;
    var rows := NonNullRows(c, start, len);
    var i := RowInZone(c, start, len, row);
    EntryRows(c, widen, start, len, segmentId, morselId, e);
    ZoneRowsNotNull(c, start, len);
    if c.values.FileCodes? {
      RanksAdmit(c, widen, e, rows, i);
    } else if HasStats(c) {
      ScalarsAdmit(c, widen, e, rows, i);
    } else {
      FloatRowAdmitted(c, widen, rows, i);
    }
  }

  lemma FloatRowAdmitted(c: Column, widen: Widen, rows: seq<nat>, i: nat)
    requires c.values.NumCodes? && RowsWithin(c, rows) && i < |rows| && FloatKeys(c, widen, rows) != []
    ensures var keys := FloatKeys(c, widen, rows); var lo, hi := KeyBits(MinOf(keys)), KeyBits(MaxOf(keys));
      var bits := FloatBits(c, widen, c.values.numbers[rows[i]]);
      if IsNan(bits) then |keys| < |rows|
      else 0 <= lo < TWO_64 && 0 <= hi < TWO_64 && FloatKey(lo) <= FloatKey(bits) <= FloatKey(hi)
  {
    var keys := FloatKeys(c, widen, rows);
    FloatKeyListed(c, widen, rows, i);
    NanShortens(c, widen, rows, i);
    var lo, hi := Attained(keys);
    var a := FloatKeyOrigin(c, widen, rows, lo);
    var b := FloatKeyOrigin(c, widen, rows, hi);
    hide FloatKeys, MinOf, MaxOf, IsNan, FloatBits;
    KeyBitsBack(a);
    KeyBitsBack(b);
    var bits := FloatBits(c, widen, c.values.numbers[rows[i]]);
    if !IsNan(bits) {
      var j :| 0 <= j < |keys| && keys[j] == FloatKey(bits);
      Bounded(keys, j);
    }
  }

  lemma {:induction false} NanShortens(c: Column, widen: Widen, rows: seq<nat>, i: nat)
    requires c.values.NumCodes? && RowsWithin(c, rows) && i < |rows|
    ensures IsNan(FloatBits(c, widen, c.values.numbers[rows[i]])) ==> |FloatKeys(c, widen, rows)| < |rows|
  {
    if i < |rows| - 1 {
      NanShortens(c, widen, rows[..|rows| - 1], i);
    }
  }

  /** Every key comes from the bits of a row. */
  lemma {:induction false} FloatKeyOrigin(c: Column, widen: Widen, rows: seq<nat>, k: nat) returns (bits: u64)
    requires c.values.NumCodes? && RowsWithin(c, rows) && k < |FloatKeys(c, widen, rows)|
    ensures FloatKeys(c, widen, rows)[k] == FloatKey(bits)
  {
    var init := rows[..|rows| - 1];
    if k < |FloatKeys(c, widen, init)| {
      bits := FloatKeyOrigin(c, widen, init, k);
    } else {
      bits := FloatBits(c, widen, c.values.numbers[rows[|rows| - 1]]);
    }
  }

  /** The values that the counts of a zone are taken over. */
  function CountedValues(c: Column, rows: seq<nat>): (values: seq<int>)
    requires (c.values.FileCodes? || HasStats(c)) && RowsWithin(c, rows)
    ensures |values| == |rows|
  {
    if c.values.FileCodes? then CodesAt(c.values.codes, rows)
    else if c.values.Booleans? then RawBytes(c.values.booleans, rows)
    else StatValues(c, rows)
  }

  predicate AllEqual(values: seq<int>) {
    forall i, j :: 0 <= i < |values| && 0 <= j < |values| ==> values[i] == values[j]
  }

  lemma OneMember(values: seq<int>)
    requires values != []
    ensures |Members(values)| == 1 <==> AllEqual(values)
  {
    var first := values[0];
    assert first in Members(values);
    if |Members(values)| == 1 {
      forall i | 0 <= i < |values| ensures values[i] == first {
        assert values[i] in Members(values);
        OnlyElement(Members(values), first, values[i]);
      }
    }
    if AllEqual(values) {
      assert Members(values) == {first};
    }
  }

  lemma OnlyElement(s: set<int>, x: int, y: int)
    requires |s| == 1 && x in s && y in s
    ensures x == y
  {
    var rest := s - {x};
    assert |rest| == 0;
    assert rest == {};
    assert y in rest <==> y != x;
  }

  lemma EntryCounts(c: Column, widen: Widen, start: nat, len: nat, segmentId: nat, morselId: nat, e: ZoneEntry)
    requires start + len <= RowCount(c.values) && BuildEntry(c, widen, start, len, segmentId, morselId) == Ok(Some(e))
    requires NonNullRows(c, start, len) != [] && (c.values.FileCodes? || HasStats(c))
    ensures RowsWithin(c, NonNullRows(c, start, len))
    ensures var values := CountedValues(c, NonNullRows(c, start, len));
      e.distinct == |Collect(values, Less)| && e.runs == RunCount(values) && (e.constant <==> e.distinct == 1)
  {
    ZoneRowsWithin(c, start, len);
    hide NonNullRows, RunCount, Collect, MinOf, MaxOf, ColumnCodes;
  }

  /** The counts of a zone are exact: its null rows and the others make up the morsel; the distinct count is
      the number of different values, the run count that of their runs, and the zone is marked constant
      exactly when all its values are equal. */
  lemma EntryCountsAreExact(c: Column, widen: Widen, start: nat, len: nat, segmentId: nat, morselId: nat, e: ZoneEntry)
    requires start + len <= RowCount(c.values) && BuildEntry(c, widen, start, len, segmentId, morselId) == Ok(Some(e))
    ensures e.segmentId == segmentId && e.morselId == morselId && e.rowCount == len
    ensures var rows := NonNullRows(c, start, len);
      && RowsWithin(c, rows) && e.nullCount + |rows| == len
      && (forall row: nat :: row in rows <==> start <= row < start + len && !IsNull(c, row))
      && (rows == [] <==> e.bounds == NoBounds)
      && (rows == [] ==> e.distinct == e.runs == 0)
      && (rows != [] && (c.values.FileCodes? || HasStats(c)) ==>
            var values := CountedValues(c, rows);
            e.distinct == |Members(values)| && e.runs == RunCount(values) && (e.constant <==> AllEqual(values)))
  {
    var rows := NonNullRows(c, start, len);
    NonNullRowsExact(c, start, len);
    ZoneRowsWithin(c, start, len);
    if rows != [] && (c.values.FileCodes? || HasStats(c)) {
      EntryCounts(c, widen, start, len, segmentId, morselId, e);
      var values := CountedValues(c, rows);
      hide BuildEntry, CountedValues, NonNullRows, RunCount, Collect, AllEqual;
      CollectCounts(values);
      OneMember(values);
    }
    EntryShape(c, widen, start, len, segmentId, morselId, e);
    hide BuildEntry, CountedValues, NonNullRows, RunCount, Collect, AllEqual;
  }

  lemma EntryShape(c: Column, widen: Widen, start: nat, len: nat, segmentId: nat, morselId: nat, e: ZoneEntry)
    requires start + len <= RowCount(c.values) && BuildEntry(c, widen, start, len, segmentId, morselId) == Ok(Some(e))
    ensures e.segmentId == segmentId && e.morselId == morselId && e.rowCount == len
    ensures e.nullCount + |NonNullRows(c, start, len)| == len
    ensures NonNullRows(c, start, len) == [] <==> e.bounds == NoBounds
    ensures e.bounds == NoBounds ==> e.distinct == e.runs == 0
  {
    NonNullRowsExact(c, start, len);
    ZoneRowsWithin(c, start, len);
    hide NonNullRows, RunCount, Collect, MinOf, MaxOf, FloatKeys, FileCodeStats, StatsOf;
  }

  /** The distinct count of a float zone counts its values: it is exact only when no two of them are equal. */
  lemma FloatDistinctExactly(c: Column, widen: Widen, start: nat, len: nat, segmentId: nat, morselId: nat, e: ZoneEntry)
    requires start + len <= RowCount(c.values) && HasFloats(c)
    requires BuildEntry(c, widen, start, len, segmentId, morselId) == Ok(Some(e)) && e.bounds.Floats?
    ensures RowsWithin(c, NonNullRows(c, start, len))
    ensures var keys := FloatKeys(c, widen, NonNullRows(c, start, len));
      e.distinct == |Members(keys)| <==> Distinct(keys)
  {
    ZoneRowsWithin(c, start, len);
    var keys := FloatKeys(c, widen, NonNullRows(c, start, len));
    hide FloatKeys, NonNullRows, MinOf, MaxOf;
    MembersCount(keys);
  }

  /** The entry of a zone of numbers. */
  lemma FloatEntry(c: Column, widen: Widen, len: nat, keys: seq<int>) returns (e: ZoneEntry)
    requires HasFloats(c) && 0 < len <= RowCount(c.values) && len <= |c.nulls|
    requires NonNullRows(c, 0, len) != [] && RowsWithin(c, NonNullRows(c, 0, len))
    requires keys == FloatKeys(c, widen, NonNullRows(c, 0, len)) != []
    ensures BuildEntry(c, widen, 0, len, 0, 0) == Ok(Some(e)) && e.distinct == |keys|
  {
    hide NonNullRows, FloatKeys, MinOf, MaxOf, RunCount, Collect, StatsOf, HasStats, FileCodeStats, RawBytes;
    hide StatValues, FixedValuesFit, KeyBits, NullCount;
    FloatsHaveNoStats(c);
    RowsLeft(c, len);
    e := BuildEntry(c, widen, 0, len, 0, 0).value.value;
  }

  lemma FloatsHaveNoStats(c: Column)
    requires HasFloats(c)
    ensures !HasStats(c) && c.values.NumCodes?
  {
  }

  lemma RowsLeft(c: Column, len: nat)
    requires len <= |c.nulls| && NonNullRows(c, 0, len) != []
    ensures NullCount(c, 0, len).Ok? && NullCount(c, 0, len).value < len
  {
    NonNullRowsExact(c, 0, len);
    hide NonNullRows;
  }

  lemma ZeroKeys(c: Column, widen: Widen)
    requires c.values == NumCodes([0, 0]) && !c.float32Source
    ensures var rows: seq<nat> := [0, 1]; RowsWithin(c, rows) && FloatKeys(c, widen, rows) == [0, 0]
  {
    var rows: seq<nat>, one: seq<nat>, none: seq<nat> := [0, 1], [0], [];
    assert rows[..1] == one && one[..0] == none;
    assert FloatKeys(c, widen, one) == [0];
  }

  lemma BothRows(c: Column)
    requires c.nulls == [false, false]
    ensures NonNullRows(c, 0, 2) == [0, 1]
  {
    assert NonNullRows(c, 0, 1) == [0];
  }

  /** A zone of two equal floats whose distinct count is 2. */
  lemma EqualFloatsCountTwice(widen: Widen) returns (c: Column, e: ZoneEntry)
    ensures HasFloats(c) && c.values.numbers == [0, 0] && BuildEntry(c, widen, 0, 2, 0, 0) == Ok(Some(e))
    ensures e.distinct == 2 && RowsWithin(c, NonNullRows(c, 0, 2))
    ensures |Members(FloatKeys(c, widen, NonNullRows(c, 0, 2)))| == 1
  {
    hide NonNullRows, FloatKeys, BuildEntry;
    c := Column("", Float64, NumCodeKind, NumCodeEncoding, false, NumCodes([0, 0]), [false, false]);
    BothRows(c);
    ZeroKeys(c, widen);
    e := FloatEntry(c, widen, 2, [0, 0]);
    assert Members([0, 0]) == {0};
  }

  // ---- all zones of a column --------------------------------------------------------------------------

  predicate MorselsWithin(c: Column, morsels: seq<Segment>) {
    forall i :: 0 <= i < |morsels| ==> morsels[i].rowStart + morsels[i].rowCount <= RowCount(c.values)
  }

  function MorselEntry(c: Column, widen: Widen, segmentId: nat, m: Segment): Result<Option<ZoneEntry>>
    requires m.rowStart + m.rowCount <= RowCount(c.values)
  {
    BuildEntry(c, widen, m.rowStart, m.rowCount, segmentId, m.segmentId)
  }

  /** The entries of a list of morsels; a morsel carries its number as segment id. */
  function MorselEntries(c: Column, widen: Widen, segmentId: nat, morsels: seq<Segment>): Result<seq<ZoneEntry>>
    requires MorselsWithin(c, morsels)
  {
    if morsels == [] then Ok([])
    else
      var done :- MorselEntries(c, widen, segmentId, morsels[..|morsels| - 1]);
      var e :- MorselEntry(c, widen, segmentId, morsels[|morsels| - 1]);
      Ok(done + if e.Some? then [e.value] else [])
  }

  lemma {:induction false} MorselEntriesFail(c: Column, widen: Widen, segmentId: nat, morsels: seq<Segment>, i: nat)
    requires MorselsWithin(c, morsels) && i < |morsels| && MorselEntry(c, widen, segmentId, morsels[i]).Err?
    ensures MorselEntries(c, widen, segmentId, morsels).Err?
  {
    hide MorselEntry;
    if i < |morsels| - 1 {
      MorselEntriesFail(c, widen, segmentId, morsels[..|morsels| - 1], i);
    }
  }

  lemma LayoutsWithin(start: nat, end: nat, morsel: nat, id: nat, c: Column)
    requires morsel > 0 && start <= end <= RowCount(c.values)
    ensures MorselsWithin(c, LayoutsFrom(start, end, morsel, id))
  {
    LayoutsTile(start, end, morsel, id);
    var morsels := LayoutsFrom(start, end, morsel, id);
    forall i | 0 <= i < |morsels| ensures morsels[i].rowStart + morsels[i].rowCount <= RowCount(c.values) {
      TileBounds(morsels, start, end, id, i);
    }
  }

  /** The morsels of a segment, numbered from 0. */
  function Morsels(segment: Segment, morsel: nat): seq<Segment>
    requires morsel > 0
  {
    LayoutsFrom(segment.rowStart, segment.rowStart + segment.rowCount, morsel, 0)
  }

  /** The entries of a segment. */
  function SegmentEntries(c: Column, widen: Widen, segment: Segment, morsel: nat): Result<seq<ZoneEntry>>
    requires morsel > 0 && segment.rowStart + segment.rowCount <= RowCount(c.values)
  {
    LayoutsWithin(segment.rowStart, segment.rowStart + segment.rowCount, morsel, 0, c);
    MorselEntries(c, widen, segment.segmentId, Morsels(segment, morsel))
  }

  lemma EntriesSnoc(c: Column, widen: Widen, segmentId: nat, morsels: seq<Segment>, i: nat)
    requires MorselsWithin(c, morsels) && i < |morsels|
    ensures MorselsWithin(c, morsels[..i]) && MorselsWithin(c, morsels[..i + 1])
    ensures morsels[i].rowStart + morsels[i].rowCount <= RowCount(c.values)
    ensures var done, e := MorselEntries(c, widen, segmentId, morsels[..i]),
      MorselEntry(c, widen, segmentId, morsels[i]);
      MorselEntries(c, widen, segmentId, morsels[..i + 1]) ==
        if done.Err? then done
        else if e.Err? then Err(e.error)
        else Ok(done.value + if e.value.Some? then [e.value.value] else [])
  {
    hide MorselEntry;
    assert morsels[..i + 1][..i] == morsels[..i];
  }

  /** The loop stands at row `start`, before morsel `i`, with the entries of the morsels before it. */
  ghost predicate AtMorsel(c: Column, widen: Widen, segment: Segment, morsel: nat, start: nat, i: nat,
      entries: seq<ZoneEntry>)
    requires morsel > 0
  {
    var end, morsels := segment.rowStart + segment.rowCount, Morsels(segment, morsel);
    && start <= end <= RowCount(c.values) && i <= |morsels| && morsels[i..] == LayoutsFrom(start, end, morsel, i)
    && MorselsWithin(c, morsels) && MorselsWithin(c, morsels[..i])
    && MorselEntries(c, widen, segment.segmentId, morsels[..i]) == Ok(entries)
  }

  lemma AtFirstMorsel(c: Column, widen: Widen, segment: Segment, morsel: nat)
    requires morsel > 0 && segment.rowStart + segment.rowCount <= RowCount(c.values)
    ensures AtMorsel(c, widen, segment, morsel, segment.rowStart, 0, [])
  {
    LayoutsWithin(segment.rowStart, segment.rowStart + segment.rowCount, morsel, 0, c);
    assert Morsels(segment, morsel)[0..] == Morsels(segment, morsel);
  }

  lemma AtNextOfLayouts(c: Column, widen: Widen, segment: Segment, morsel: nat, start: nat, i: nat,
      entries: seq<ZoneEntry>)
    requires morsel > 0 && AtMorsel(c, widen, segment, morsel, start, i, entries)
    requires start < segment.rowStart + segment.rowCount
    ensures var len := SmallerOf(segment.rowStart + segment.rowCount - start, morsel);
      && start + len <= RowCount(c.values)
      && var e := MorselEntry(c, widen, segment.segmentId, Segment(i, start, len));
         if e.Err? then SegmentEntries(c, widen, segment, morsel).Err?
         else AtMorsel(c, widen, segment, morsel, start + len, i + 1,
           entries + if e.value.Some? then [e.value.value] else [])
  {
    hide MorselEntry, MorselEntries, LayoutsFrom, Morsels, MorselsWithin;
    var end, morsels := segment.rowStart + segment.rowCount, Morsels(segment, morsel);
    NextOfLayouts(morsels, i, start, end, morsel);
    EntriesSnoc(c, widen, segment.segmentId, morsels, i);
    if MorselEntry(c, widen, segment.segmentId, morsels[i]).Err? {
      MorselEntriesFail(c, widen, segment.segmentId, morsels, i);
    }
  }

  lemma AtLastMorsel(c: Column, widen: Widen, segment: Segment, morsel: nat, i: nat, entries: seq<ZoneEntry>)
    requires morsel > 0 && AtMorsel(c, widen, segment, morsel, segment.rowStart + segment.rowCount, i, entries)
    ensures SegmentEntries(c, widen, segment, morsel) == Ok(entries)
  {
    hide MorselEntries, MorselsWithin;
    NoMoreMorsels(Morsels(segment, morsel), i, segment.rowStart + segment.rowCount, morsel);
  }

  /** The morsel loop of `build_zone_stats` over one segment. */
  method SegmentZones(c: Column, widen: Widen, segment: Segment, morsel: u32) returns (r: Result<seq<ZoneEntry>>)
    requires morsel > 0 && segment.rowStart + segment.rowCount <= RowCount(c.values)
    ensures var spec := SegmentEntries(c, widen, segment, morsel);
      r.Ok? == spec.Ok? && (r.Ok? ==> r == spec)
  {
    hide MorselEntry, SegmentEntries, AtMorsel;
    var end := segment.rowStart + segment.rowCount;
    var entries: seq<ZoneEntry> := [];
    var start, morselId: nat := segment.rowStart, 0;
    AtFirstMorsel(c, widen, segment, morsel);
    while start < end
      invariant start <= end && AtMorsel(c, widen, segment, morsel, start, morselId, entries)
      decreases end - start
    {
      var len := SmallerOf(end - start, morsel);
      AtNextOfLayouts(c, widen, segment, morsel, start, morselId, entries);
      var e := MorselEntry(c, widen, segment.segmentId, Segment(morselId, start, len));
      if e.Err? {
        return Err(e.error);
      }
      entries := entries + if e.value.Some? then [e.value.value] else [];
      start, morselId := start + len, morselId + 1;
    }
    AtLastMorsel(c, widen, segment, morsel, morselId, entries);
    return Ok(entries);
  }

  lemma NoMoreMorsels(morsels: seq<Segment>, i: nat, end: nat, morsel: nat)
    requires morsel > 0 && i <= |morsels| && morsels[i..] == LayoutsFrom(end, end, morsel, i)
    ensures morsels[..i] == morsels
  {
    assert |morsels[i..]| == 0;
  }

  lemma {:induction false} EntryListed(c: Column, widen: Widen, segmentId: nat, morsels: seq<Segment>, i: nat)
    requires MorselsWithin(c, morsels) && i < |morsels| && MorselEntries(c, widen, segmentId, morsels).Ok?
    ensures var e := MorselEntry(c, widen, segmentId, morsels[i]);
      e.Ok? && (e.value.Some? ==> e.value.value in MorselEntries(c, widen, segmentId, morsels).value)
  {
    hide MorselEntry;
    if i < |morsels| - 1 {
      EntryListed(c, widen, segmentId, morsels[..|morsels| - 1], i);
    }
  }

  /** The morsel a row of a segment lies in. */
  lemma MorselOfRow(c: Column, segment: Segment, morsel: nat, row: nat) returns (i: nat)
    requires morsel > 0 && segment.rowStart + segment.rowCount <= RowCount(c.values) && Covers(segment, row)
    ensures i < |Morsels(segment, morsel)| && Covers(Morsels(segment, morsel)[i], row)
    ensures MorselsWithin(c, Morsels(segment, morsel))
  {
    var end := segment.rowStart + segment.rowCount;
    LayoutsTile(segment.rowStart, end, morsel, 0);
    LayoutsWithin(segment.rowStart, end, morsel, 0, c);
    i := TileCovers(Morsels(segment, morsel), segment.rowStart, end, 0, row);
  }

  /** Every non-null row of a segment lies in a morsel whose entry, if it has one, is among the segment's
      zones and admits the row. */
  lemma ZonesAdmitEveryRow(c: Column, widen: Widen, segment: Segment, morsel: nat, entries: seq<ZoneEntry>, row: nat)
    returns (m: Segment)
    requires morsel > 0 && segment.rowStart + segment.rowCount <= RowCount(c.values)
    requires SegmentEntries(c, widen, segment, morsel) == Ok(entries)
    requires Covers(segment, row) && !IsNull(c, row)
    ensures Covers(m, row) && m.rowStart + m.rowCount <= RowCount(c.values)
    ensures var e := MorselEntry(c, widen, segment.segmentId, m);
      e.Ok? && (e.value.Some? ==> e.value.value in entries && Admits(c, widen, e.value.value, row))
  {
    var i := MorselOfRow(c, segment, morsel, row);
    m := Morsels(segment, morsel)[i];
    hide BuildEntry, MorselEntries, Morsels, Admits;
    EntryListed(c, widen, segment.segmentId, Morsels(segment, morsel), i);
    var e := MorselEntry(c, widen, segment.segmentId, m);
    if e.value.Some? {
      EntryAdmitsItsRows(c, widen, m.rowStart, m.rowCount, segment.segmentId, m.segmentId, e.value.value, row);
    }
  }
}
