/** What clustering does to the source's rows: nulls first, then the source values ascending, column after column,
    rows that agree in every cluster column in source order. */
module ClusterMeaning {
  import opened Wrappers
  import opened Sequences
  import opened Wire
  import opened Selection
  import opened ColumnTypes
  import opened ConvertedColumns
  import opened Clustering
  import opened SourceColumns
  import opened SourceOrder

  // ---- one cell -----------------------------------------------------------------------------------------

  lemma {:induction false} LexIsOctetsBefore(x: seq<byte>, y: seq<byte>)
    requires LexLt(x, y)
    ensures OctetsBefore(x, y)
  {
    if x == [] || x[0] < y[0] {
      assert DecidedAt(x, y, 0);
    } else {
      LexIsOctetsBefore(x[1..], y[1..]);
      var k: nat :| k <= |x[1..]| && k < |y[1..]| && DecidedAt(x[1..], y[1..], k);
      assert x[..k + 1] == [x[0]] + x[1..][..k];
      assert y[..k + 1] == [y[0]] + y[1..][..k];
      assert DecidedAt(x, y, k + 1);
    }
  }

  lemma {:induction false} OctetsBeforeIsLex(x: seq<byte>, y: seq<byte>, k: nat)
    requires k <= |x| && k < |y| && DecidedAt(x, y, k)
    ensures LexLt(x, y)
  {
    if k > 0 {
      assert x[..k][0] == y[..k][0];
      assert x[1..][..k - 1] == x[..k][1..] && y[1..][..k - 1] == y[..k][1..];
      OctetsBeforeIsLex(x[1..], y[1..], k - 1);
    }
  }

  /** The order of byte strings used for clustering, canonical map keys and dictionary keys: the first byte that differs
      decides, and a proper prefix comes first. */
  lemma BytesOrderExactly(x: seq<byte>, y: seq<byte>)
    ensures LexLt(x, y) <==> OctetsBefore(x, y)
  {
    if LexLt(x, y) {
      LexIsOctetsBefore(x, y);
    } else if OctetsBefore(x, y) {
      var k: nat :| k <= |x| && k < |y| && DecidedAt(x, y, k);
      OctetsBeforeIsLex(x, y, k);
    }
  }

  /** What two rows of a column hold. */
  predicate TwoHeld(c: Column, kind: SourceKind, a: nat, x: SourceCell, b: nat, y: SourceCell) {
    && c.logical == LogicalOf(kind) && c.float32Source == (kind == FromFloat32)
    && (LaidOut(c.values, kind) || c.values.FileCodes?)
    && a < RowCount(c.values) && b < RowCount(c.values)
    && CellHeld(c, kind, a, x) && CellHeld(c, kind, b, y)
  }

  /** The signed number behind a stored one. */
  lemma NumberOf(c: Column, kind: SourceKind, row: nat, v: SourceValue)
    requires c.logical == LogicalOf(kind) && c.float32Source == (kind == FromFloat32) && LaidOut(c.values, kind)
    requires c.values.NumCodes? && row < RowCount(c.values) && CellHeld(c, kind, row, Some(v)) && v.Whole?
    ensures NumberKey(c.float32Source, c.logical, c.values.numbers[row]) == v.n * Scale(kind)
  {
    hide LowSigned;
    StoredReads(kind, c.values.numbers[row], v);
  }

  lemma FloatKeyOf(c: Column, kind: SourceKind, row: nat, v: SourceValue)
    requires c.logical == LogicalOf(kind) && c.float32Source == (kind == FromFloat32) && LaidOut(c.values, kind)
    requires c.values.NumCodes? && row < RowCount(c.values) && CellHeld(c, kind, row, Some(v)) && v.Float?
    ensures NumberKey(c.float32Source, c.logical, c.values.numbers[row]) ==
      TotalOrderKey(v.bits, if kind == FromFloat32 then TWO_31 else TWO_63)
  {
  }

  lemma DecimalOf(c: Column, kind: SourceKind, row: nat, v: SourceValue)
    requires c.values.FixedBytes? && row < RowCount(c.values) && LaidOut(c.values, kind)
    requires CellHeld(c, kind, row, Some(v))
    ensures v.Whole? && kind == FromDecimal128 && Fits(kind, v) && c.values.fixed[row] == DecimalBytes(v.n)
  {
    hide ToLE, FromLE;
    ToFromLE(c.values.fixed[row]);
  }

  /** Values of one kind are of one sort. */
  lemma SameSort(c: Column, kind: SourceKind, a: nat, x: SourceValue, b: nat, y: SourceValue)
    requires TwoHeld(c, kind, a, Some(x), b, Some(y)) && c.values.NumCodes?
    ensures x.Whole? <==> y.Whole?
    ensures x.Float? <==> y.Float?
    ensures x.Whole? || x.Float?
    ensures kind != FromDecimal128 && (x.Float? && kind == FromFloat32 ==> x.bits < TWO_32 && y.bits < TWO_32)
  {
    hide NumberHeld, Scale;
  }

  lemma NumbersOrder(c: Column, kind: SourceKind, a: nat, x: SourceValue, b: nat, y: SourceValue)
    requires TwoHeld(c, kind, a, Some(x), b, Some(y)) && c.values.NumCodes?
    ensures CellLess(CellOf(c, a), CellOf(c, b)) ==> ValueBefore(kind, x, y)
    ensures CellOf(c, a) == CellOf(c, b) <==> x == y
  {
    SameSort(c, kind, a, x, b, y);
    if x.Whole? {
      NumberOf(c, kind, a, x);
      NumberOf(c, kind, b, y);
      ScaleKeepsOrder(kind, x.n, y.n);
    } else {
      FloatKeyOf(c, kind, a, x);
      FloatKeyOf(c, kind, b, y);
    }
    hide NumberKey, NumberHeld, Fits, Scale, LaidOut;
  }

  lemma BytesOrder(c: Column, kind: SourceKind, a: nat, x: SourceValue, b: nat, y: SourceValue)
    requires TwoHeld(c, kind, a, Some(x), b, Some(y)) && (c.values.VarBytes? || c.values.FixedBytes?)
    ensures CellLess(CellOf(c, a), CellOf(c, b)) ==> ValueBefore(kind, x, y)
    ensures CellOf(c, a) == CellOf(c, b) <==> x == y
  {
    hide OctetsBefore, LexLt, DecimalBytes, FromLE;
    if c.values.FixedBytes? {
      DecimalOf(c, kind, a, x);
      DecimalOf(c, kind, b, y);
      if DecimalBytes(x.n) == DecimalBytes(y.n) {
        SameDecimal(x.n, y.n);
      }
    }
    var p, q := CellOf(c, a), CellOf(c, b);
    if CellLess(p, q) {
      LexIsOctetsBefore(p.bytes, q.bytes);
    }
  }

  lemma SameDecimal(m: int, n: int)
    requires -TWO_127 <= m < TWO_127 && -TWO_127 <= n < TWO_127 && DecimalBytes(m) == DecimalBytes(n)
    ensures m == n
  {
    Pow256Values();
    hide Pow256;
    ToLEInjective(if m < 0 then m + TWO_128 else m, if n < 0 then n + TWO_128 else n, 16);
  }

  /** The cells of two rows compare as the source values do, and are equal exactly when those are. */
  lemma CellsOrder(c: Column, kind: SourceKind, a: nat, x: SourceCell, b: nat, y: SourceCell)
    requires TwoHeld(c, kind, a, x, b, y)
    ensures CellLess(CellOf(c, a), CellOf(c, b)) ==> CellBefore(kind, x, y)
    ensures CellOf(c, a) == CellOf(c, b) <==> x == y
  {
    if x.Some? && y.Some? {
      if c.values.NumCodes? {
        NumbersOrder(c, kind, a, x.value, b, y.value);
      } else if c.values.VarBytes? || c.values.FixedBytes? {
        BytesOrder(c, kind, a, x.value, b, y.value);
      }
    }
    hide NumberKey, FromLE, LexLt, OctetsBefore, Fits, DecimalBytes, NumberHeld, StandsFor;
  }

  // ---- rows of a table ----------------------------------------------------------------------------------

  /** The columns hold these source columns. */
  predicate TableHolds(columns: seq<Column>, kinds: seq<SourceKind>, tables: seq<seq<SourceCell>>, n: nat) {
    && |kinds| == |tables| == |columns| && Aligned(columns, n)
    && forall k :: 0 <= k < |columns| ==> Holds(columns[k], kinds[k], tables[k])
  }

  predicate IsCluster(cluster: seq<nat>, tables: seq<seq<SourceCell>>) {
    forall k :: 0 <= k < |cluster| ==> cluster[k] < |tables|
  }

  predicate Tall(tables: seq<seq<SourceCell>>, n: nat) {
    forall k :: 0 <= k < |tables| ==> |tables[k]| == n
  }

  /** Two rows agree in the first `k` cluster columns. */
  predicate AgreeBelow(cluster: seq<nat>, tables: seq<seq<SourceCell>>, n: nat, a: nat, b: nat, k: nat)
    requires IsCluster(cluster, tables) && Tall(tables, n) && a < n && b < n && k <= |cluster|
  {
    forall m :: 0 <= m < k ==> tables[cluster[m]][a] == tables[cluster[m]][b]
  }

  /** The first cluster column in which two rows differ has the smaller cell in row `a`. */
  predicate FirstDifferenceBefore(cluster: seq<nat>, kinds: seq<SourceKind>, tables: seq<seq<SourceCell>>, n: nat,
      a: nat, b: nat)
    requires |kinds| == |tables| && IsCluster(cluster, tables) && Tall(tables, n) && a < n && b < n
  {
    exists k :: 0 <= k < |cluster| && AgreeBelow(cluster, tables, n, a, b, k)
      && CellBefore(kinds[cluster[k]], tables[cluster[k]][a], tables[cluster[k]][b])
  }

  /** What puts source row `a` before source row `b`. */
  predicate SourceBefore(cluster: seq<nat>, kinds: seq<SourceKind>, tables: seq<seq<SourceCell>>, n: nat, a: nat,
      b: nat)
    requires |kinds| == |tables| && IsCluster(cluster, tables) && Tall(tables, n) && a < n && b < n
  {
    || FirstDifferenceBefore(cluster, kinds, tables, n, a, b)
    || (AgreeBelow(cluster, tables, n, a, b, |cluster|) && a < b)
  }

  /** The first difference of two keys. */
  lemma {:induction false} FirstDifference(a: seq<Cell>, b: seq<Cell>) returns (k: nat)
    requires |a| == |b| && KeyBefore(a, b)
    ensures k < |a| && CellLess(a[k], b[k]) && forall m :: 0 <= m < k ==> a[m] == b[m]
  {
    if CellLess(a[0], b[0]) {
      k := 0;
    } else {
      k := FirstDifference(a[1..], b[1..]);
      k := k + 1;
      forall m | 0 <= m < k ensures a[m] == b[m] {
        if m > 0 {
          assert a[1..][m - 1] == b[1..][m - 1];
        }
      }
    }
  }

  lemma ClusterCells(columns: seq<Column>, kinds: seq<SourceKind>, tables: seq<seq<SourceCell>>, n: nat, col: nat,
      a: nat, b: nat)
    requires TableHolds(columns, kinds, tables, n) && col < |columns| && a < n && b < n
    ensures |tables[col]| == n
    ensures CellLess(CellOf(columns[col], a), CellOf(columns[col], b)) ==>
      CellBefore(kinds[col], tables[col][a], tables[col][b])
    ensures CellOf(columns[col], a) == CellOf(columns[col], b) <==> tables[col][a] == tables[col][b]
  {
    hide CellOf, CellLess, CellBefore, CellHeld, LaidOut;
    assert Holds(columns[col], kinds[col], tables[col]);
    CellsOrder(columns[col], kinds[col], a, tables[col][a], b, tables[col][b]);
  }

  lemma TableIsTall(columns: seq<Column>, kinds: seq<SourceKind>, tables: seq<seq<SourceCell>>, n: nat)
    requires TableHolds(columns, kinds, tables, n)
    ensures Tall(tables, n)
  {
    hide CellHeld;
    forall k | 0 <= k < |tables| ensures |tables[k]| == n {
      assert Holds(columns[k], kinds[k], tables[k]);
    }
  }

  lemma RowBeforeIsSourceBefore(columns: seq<Column>, kinds: seq<SourceKind>, tables: seq<seq<SourceCell>>, n: nat,
      cluster: seq<nat>, a: nat, b: nat)
    requires TableHolds(columns, kinds, tables, n) && Tall(tables, n) && a < n && b < n && IsCluster(cluster, tables)
    requires RowBefore(columns, cluster, a, b)
    ensures SourceBefore(cluster, kinds, tables, n, a, b)
  {
    hide CellOf, CellLess, CellBefore, TableHolds, KeyBefore;
    HoldsColumns(columns, kinds, tables, n);
    var ka, kb := RowKey(columns, cluster, a), RowKey(columns, cluster, b);
    forall m | 0 <= m < |cluster|
      ensures ka[m] == kb[m] <==> tables[cluster[m]][a] == tables[cluster[m]][b]
      ensures CellLess(ka[m], kb[m]) ==> CellBefore(kinds[cluster[m]], tables[cluster[m]][a], tables[cluster[m]][b])
    {
      ClusterCells(columns, kinds, tables, n, cluster[m], a, b);
    }
    if KeyBefore(ka, kb) {
      var k := FirstDifference(ka, kb);
      assert AgreeBelow(cluster, tables, n, a, b, k);
    }
  }

  lemma HoldsColumns(columns: seq<Column>, kinds: seq<SourceKind>, tables: seq<seq<SourceCell>>, n: nat)
    requires TableHolds(columns, kinds, tables, n)
    ensures |kinds| == |tables| == |columns| && Aligned(columns, n)
  {
  }

  // ---- the clustered table ------------------------------------------------------------------------------

  lemma ReorderedHolds(c: Column, kind: SourceKind, rows: seq<SourceCell>, order: seq<nat>)
    requires Holds(c, kind, rows) && InRange(order, |rows|)
    ensures Flagged(c) && Holds(Reordered(c, order), kind, Picked(rows, order))
  {
    hide StandsFor, FromLE, Fits, Scale;
    var after, picked := Reordered(c, order), Picked(rows, order);
    forall i | 0 <= i < |picked| ensures i < RowCount(after.values) && CellHeld(after, kind, i, picked[i]) {
      assert CellHeld(c, kind, order[i], rows[order[i]]);
      ReorderedRow(c, order, i);
    }
  }

  /** Every two rows of the new order are as their source rows demand. */
  predicate SourceSorted(cluster: seq<nat>, kinds: seq<SourceKind>, tables: seq<seq<SourceCell>>, order: seq<nat>,
      n: nat)
    requires |kinds| == |tables| && IsCluster(cluster, tables) && Tall(tables, n) && InRange(order, n)
  {
    forall i, j :: 0 <= i < j < |order| ==> SourceBefore(cluster, kinds, tables, n, order[i], order[j])
  }

  /** Clustering a table: its columns then hold the source's rows in a new order, every row once and whole; and of
      two rows the first cluster column in which they differ puts the null or the smaller source value first,
      while rows that differ in no cluster column stay in source order. */
  lemma ClusteredTable(columns: seq<Column>, names: seq<string>, cluster: seq<nat>, kinds: seq<SourceKind>,
      tables: seq<seq<SourceCell>>)
    returns (after: seq<Column>, order: seq<nat>)
    requires TableHolds(columns, kinds, tables, RowsOf(columns))
    requires names != [] && FindAll(columns, names) == Ok(cluster)
    ensures Clustered(columns, StableCluster, names) == Ok((after, Applied)) && |after| == |columns|
    ensures |cluster| == |names| && forall k :: 0 <= k < |names| ==> IsFirstNamed(columns, names[k], cluster[k])
    ensures IsPermutation(order, RowsOf(columns)) && InRange(order, RowsOf(columns)) && Tall(tables, RowsOf(columns))
    ensures forall k :: 0 <= k < |columns| ==> Holds(after[k], kinds[k], Picked(tables[k], order))
    ensures IsCluster(cluster, tables) && SourceSorted(cluster, kinds, tables, order, RowsOf(columns))
  {
    hide Holds, ClusterOrder, SourceBefore, Clustered, RowBefore;
    var n := RowsOf(columns);
    order := ClusterOrder(columns, cluster, n);
    ClusteringKeepsRows(columns, names, cluster);
    after := ReorderAll(columns, order, n);
    TableIsTall(columns, kinds, tables, n);
    forall k | 0 <= k < |columns| ensures Holds(after[k], kinds[k], Picked(tables[k], order)) {
      ReorderedHolds(columns[k], kinds[k], tables[k], order);
    }
    hide TableHolds;
    forall i, j | 0 <= i < j < |order| ensures SourceBefore(cluster, kinds, tables, n, order[i], order[j]) {
      RowBeforeIsSourceBefore(columns, kinds, tables, n, cluster, order[i], order[j]);
    }
  }

  /** Decimals do not cluster by value: 256 goes before 1, whose low byte is greater. */
  lemma DecimalsGoByBytes()
    ensures ValueBefore(FromDecimal128, Whole(256), Whole(1)) && !ValueBefore(FromDecimal128, Whole(1), Whole(256))
  {
    var x, y := DecimalBytes(256), DecimalBytes(1);
    assert x[0] == 0 && y[0] == 1;
    assert DecidedAt(x, y, 0);
    forall k: nat | k <= |y| && k < |x| ensures !DecidedAt(y, x, k) {
      if k > 0 {
        assert y[..k][0] != x[..k][0];
      }
    }
  }
}
