/** Zone statistics of converted columns (`build_zone_stats_entry` and its helpers). */
module ZoneStats {
  import opened Wrappers
  import opened Sequences
  import opened Ordered
  import opened Wire
  import opened ColumnTypes
  import opened ConvertedColumns

  // ---- the rows of a zone -------------------------------------------------------------------------

  /** `non_null_indices`. */
  function NonNullRows(c: Column, start: nat, len: nat): seq<nat> {
    if len == 0 then []
    else NonNullRows(c, start, len - 1) + (if IsNull(c, start + len - 1) then [] else [start + len - 1])
  }

  lemma {:induction false} NonNullRowsExact(c: Column, start: nat, len: nat)
    ensures forall row: nat :: row in NonNullRows(c, start, len) <==> start <= row < start + len && !IsNull(c, row)
    ensures |NonNullRows(c, start, len)| <= len
  {
    if len > 0 {
      NonNullRowsExact(c, start, len - 1);
    }
  }

  lemma {:induction false} NonNullRowsAscend(c: Column, start: nat, len: nat)
    ensures StrictlyAscending(NonNullRows(c, start, len))
  {
    if len > 0 {
      NonNullRowsAscend(c, start, len - 1);
      NonNullRowsExact(c, start, len - 1);
      var before := NonNullRows(c, start, len - 1);
      forall i | 0 <= i < |before| ensures before[i] < start + len - 1 {
        assert before[i] in before;
      }
    }
  }

  /** `null_count_range`. */
  function NullCount(c: Column, start: nat, len: nat): Result<nat> {
    if start + len > |c.nulls| then Err(BadSchema)
    else
      NonNullRowsExact(c, start, len);
      Ok(len - |NonNullRows(c, start, len)|)
  }

  method CountNulls(c: Column, start: nat, len: nat) returns (r: Result<nat>)
    ensures r == NullCount(c, start, len)
  {
    if start + len > |c.nulls| {
      return Err(BadSchema);
    }
    var count := 0;
    for i := 0 to len
      invariant count == i - |NonNullRows(c, start, i)|
    {
      if c.nulls[start + i] {
        count := count + 1;
      }
    }
    return Ok(count);
  }

  // ---- minimum, maximum, distinct values and runs -------------------------------------------------

  function MinOf(s: seq<int>): int
    requires s != []
  {
    if |s| == 1 then s[0]
    else
      var rest := MinOf(s[..|s| - 1]);
      if s[|s| - 1] < rest then s[|s| - 1] else rest
  }

  function MaxOf(s: seq<int>): int
    requires s != []
  {
    if |s| == 1 then s[0]
    else
      var rest := MaxOf(s[..|s| - 1]);
      if s[|s| - 1] > rest then s[|s| - 1] else rest
  }

  lemma {:induction false} Bounded(s: seq<int>, i: nat)
    requires i < |s|
    ensures MinOf(s) <= s[i] <= MaxOf(s)
  {
    if |s| > 1 {
      Bounded(s[..|s| - 1], if i < |s| - 1 then i else 0);
    }
  }

  lemma {:induction false} Attained(s: seq<int>) returns (lo: nat, hi: nat)
    requires s != []
    ensures lo < |s| && s[lo] == MinOf(s) && hi < |s| && s[hi] == MaxOf(s)
  {
    lo, hi := 0, 0;
    if |s| > 1 {
      var last := |s| - 1;
      lo, hi := Attained(s[..last]);
      lo := if s[last] < MinOf(s[..last]) then last else lo;
      hi := if s[last] > MaxOf(s[..last]) then last else hi;
    }
  }

  function RunCount(s: seq<int>): (n: nat)
    ensures n <= |s|
  {
    if s == [] then 0
    else RunCount(s[..|s| - 1]) + (if |s| == 1 || s[|s| - 2] != s[|s| - 1] then 1 else 0)
  }

  /** `run_count_u32`. */
  method CountRuns(s: seq<int>) returns (r: Result<nat>)
    requires |s| < TWO_32
    ensures r == Ok(RunCount(s))
  {
    var previous: Option<int> := None;
    var runs := 0;
    for i := 0 to |s|
      invariant previous == if i == 0 then None else Some(s[i - 1])
      invariant runs == RunCount(s[..i]) <= i
    {
      assert s[..i + 1][..i] == s[..i];
      if previous != Some(s[i]) {
        runs := runs + 1;
      }
      previous := Some(s[i]);
    }
    assert s[..|s|] == s;
    return Ok(runs);
  }

  datatype Run = Run(value: int, len: nat)

  function Repeat(value: int, n: nat): (s: seq<int>)
    ensures |s| == n && forall i :: 0 <= i < n ==> s[i] == value
  {
    seq(n, _ => value)
  }

  function Expand(runs: seq<Run>): seq<int> {
    if runs == [] then [] else Expand(runs[..|runs| - 1]) + Repeat(runs[|runs| - 1].value, runs[|runs| - 1].len)
  }

  /** Runs are not empty and neighbours differ. */
  predicate Maximal(runs: seq<Run>) {
    && (forall i :: 0 <= i < |runs| ==> runs[i].len > 0)
    && (forall i :: 0 < i < |runs| ==> runs[i - 1].value != runs[i].value)
  }

  lemma ExpandSnoc(runs: seq<Run>, run: Run)
    ensures Expand(runs + [run]) == Expand(runs) + Repeat(run.value, run.len)
  {
    assert (runs + [run])[..|runs|] == runs;
  }

  lemma LongerRun(runs: seq<Run>, last: Run)
    requires Maximal(runs + [last])
    ensures Maximal(runs + [Run(last.value, last.len + 1)])
    ensures Expand(runs + [Run(last.value, last.len + 1)]) == Expand(runs + [last]) + [last.value]
  {
    hide Expand;
    MaximalSnoc(runs, last);
    MaximalSnoc(runs, Run(last.value, last.len + 1));
    ExpandSnoc(runs, last);
    ExpandSnoc(runs, Run(last.value, last.len + 1));
    assert Repeat(last.value, last.len + 1) == Repeat(last.value, last.len) + [last.value];
  }

  lemma MaximalSnoc(runs: seq<Run>, last: Run)
    ensures Maximal(runs + [last]) <==>
      Maximal(runs) && last.len > 0 && (runs != [] ==> runs[|runs| - 1].value != last.value)
  {
    var all := runs + [last];
    assert forall i :: 0 <= i < |runs| ==> runs[i] == all[i];
    assert all[|runs|] == last;
  }

  /** The run count is the number of maximal runs the values split into; the last run has the last value. */
  lemma {:induction false} RunsOf(s: seq<int>) returns (runs: seq<Run>, last: Run)
    requires s != []
    ensures Maximal(runs + [last]) && Expand(runs + [last]) == s && |runs| + 1 == RunCount(s)
    ensures last.value == s[|s| - 1]
  {
    var init, value := s[..|s| - 1], s[|s| - 1];
    assert s == init + [value];
    if init == [] {
      runs, last := [], Run(value, 1);
      OneRun(value);
    } else {
      runs, last := RunsOf(init);
      hide Expand, Maximal, Repeat;
      if last.value == value {
        LongerRun(runs, last);
        last := Run(value, last.len + 1);
      } else {
        MaximalSnoc(runs + [last], Run(value, 1));
        ExpandSnoc(runs + [last], Run(value, 1));
        OneRun(value);
        runs, last := runs + [last], Run(value, 1);
      }
    }
  }

  lemma OneRun(value: int)
    ensures Repeat(value, 1) == [value] && Expand([Run(value, 1)]) == [value] && Maximal([Run(value, 1)])
    ensures RunCount([value]) == 1
  {
    assert [Run(value, 1)][..0] == [];
  }

  /** The number of elements of a collected set is the number of different values. */
  lemma CollectCounts(list: seq<int>)
    ensures |Collect(list, Less)| == |Members(list)|
  {
    LessIsStrict();
    CollectSorts(list, Less);
    var unique := Collect(list, Less);
    hide Collect;
    forall x: int ensures x in Members(unique) <==> x in Members(list) {
      CollectMembers(list, Less, x);
    }
    assert Members(unique) == Members(list);
    MembersCount(unique);
  }

  function Members(s: seq<int>): set<int> {
    set x | x in s
  }

  /** As many members as elements exactly when no two elements are equal. */
  lemma {:induction false} MembersCount(s: seq<int>)
    ensures |Members(s)| <= |s|
    ensures |Members(s)| == |s| <==> Distinct(s)
  {
    if s != [] {
      var init, last := s[..|s| - 1], s[|s| - 1];
      MembersCount(init);
      MembersSnoc(init, last);
      assert s == init + [last];
      assert last in Members(init) <==> exists i :: 0 <= i < |init| && init[i] == last;
      assert last in Members(init) ==> Members(init) + {last} == Members(init);
    }
  }

  lemma MembersSnoc(s: seq<int>, x: int)
    ensures Members(s + [x]) == Members(s) + {x}
  {
  }

  // ---- integer statistics -------------------------------------------------------------------------

  datatype Stats = Stats(min: int, max: int, distinct: nat, runs: nat)

  function StatsOf(values: seq<int>): Stats
    requires values != []
  {
    Stats(MinOf(values), MaxOf(values), |Collect(values, Less)|, RunCount(values))
  }

  /** How a NumCode column's statistics read a value; floats are read elsewhere. */
  function StatReading(logical: LogicalType, code: u64): Option<int> {
    match logical
    case Int8 | Int16 | Int32 | Int64 => Some(SignedNumcode(logical, code))
    case UInt8 | UInt16 | UInt32 | UInt64 => Some(code)
    case DateDays => Some(LowSigned(code, TWO_31))
    case TimestampMicros | TimestampNanos => Some(LowSigned(code, TWO_63))
    case _ => None
  }

  /** `i128::from_le_bytes`. */
  function Signed128(bytes: seq<byte>): int {
    LowSigned(FromLE(bytes), TWO_127)
  }

  /** The values a zone's integer statistics are about, or none when the column has no such statistics. */
  function StatValue(c: Column, row: nat): Option<int>
    requires row < RowCount(c.values)
  {
    match c.values
    case NumCodes(v) => StatReading(c.logical, v[row])
    case FixedBytes(w, v) => if w == 16 && c.logical == Decimal128 then Some(Signed128(v[row])) else None
    case Booleans(v) => if c.logical == Bool then Some(if v[row] != 0 then 1 else 0) else None
    case _ => None
  }

  predicate HasStats(c: Column) {
    match c.values
    case NumCodes(_) => StatReading(c.logical, 0).Some?
    case FixedBytes(w, _) => w == 16 && c.logical == Decimal128
    case Booleans(_) => c.logical == Bool
    case _ => false
  }

  predicate RowsWithin(c: Column, rows: seq<nat>) {
    forall i :: 0 <= i < |rows| ==> rows[i] < RowCount(c.values)
  }

  lemma StatValuesExist(c: Column, row: nat)
    requires HasStats(c) && row < RowCount(c.values)
    ensures StatValue(c, row).Some?
  {
  }

  function StatValues(c: Column, rows: seq<nat>): (values: seq<int>)
    requires HasStats(c) && RowsWithin(c, rows)
    ensures |values| == |rows| && forall i :: 0 <= i < |rows| ==> Some(values[i]) == StatValue(c, rows[i])
  {
    seq(|rows|, i requires 0 <= i < |rows| => (StatValuesExist(c, rows[i]); StatValue(c, rows[i]).value))
  }

  /** Every value of the rows lies between the bounds, both bounds are values of rows, and the counts are exact. */
  lemma StatsAreExact(c: Column, rows: seq<nat>, i: nat) returns (lo: nat, hi: nat, runs: seq<Run>, last: Run)
    requires HasStats(c) && RowsWithin(c, rows) && i < |rows|
    ensures var s := StatsOf(StatValues(c, rows));
      && StatValue(c, rows[i]).Some? && s.min <= StatValue(c, rows[i]).value <= s.max
      && lo < |rows| && StatValue(c, rows[lo]) == Some(s.min)
      && hi < |rows| && StatValue(c, rows[hi]) == Some(s.max)
      && s.distinct == |Members(StatValues(c, rows))|
      && s.runs == |runs + [last]| && Maximal(runs + [last]) && Expand(runs + [last]) == StatValues(c, rows)
  {
    var values := StatValues(c, rows);
    Bounded(values, i);
    CollectCounts(values);
    lo, hi := Attained(values);
    runs, last := RunsOf(values);
  }
}
