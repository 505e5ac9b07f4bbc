/** Stable clustering of converted columns (`apply_stable_clustering`). */
module Clustering {
  import opened Wrappers
  import opened Sequences
  import opened Ordered
  import opened Selection
  import opened ColumnTypes
  import opened ConvertedColumns

  // ---- the order of two rows --------------------------------------------------------------------

  /** What a cluster column compares of a row: nulls first, then numbers or bytes. */
  datatype Cell = NullCell | NumberCell(n: int) | BytesCell(bytes: seq<byte>)

  predicate CellLess(a: Cell, b: Cell) {
    match (a, b)
    case (NullCell, NullCell) => false
    case (NullCell, _) => true
    case (_, NullCell) => false
    case (NumberCell(x), NumberCell(y)) => x < y
    case (NumberCell(_), BytesCell(_)) => true
    case (BytesCell(_), NumberCell(_)) => false
    case (BytesCell(x), BytesCell(y)) => LexLt(x, y)
  }

  lemma CellLessIsStrict()
    ensures StrictOrder(CellLess)
  {
    forall x: Cell ensures !CellLess(x, x) {
      if x.BytesCell? {
        LexIrreflexive(x.bytes);
      }
    }
    forall x: Cell, y: Cell ensures x == y || CellLess(x, y) || CellLess(y, x) {
      if x.BytesCell? && y.BytesCell? {
        LexConnected(x.bytes, y.bytes);
      }
    }
    forall x: Cell, y: Cell, z: Cell | CellLess(x, y) && CellLess(y, z) ensures CellLess(x, z) {
      if x.BytesCell? && y.BytesCell? && z.BytesCell? {
        LexTransitive(x.bytes, y.bytes, z.bytes);
      }
    }
  }

  /** `total_cmp` as an integer: positive floats by their bits, negative ones below them in reverse.
      `half` is the weight of the sign bit. */
  function TotalOrderKey(bits: nat, half: nat): int {
    if bits < half then bits else half - 1 - bits
  }

  /** The number `compare_numcode_rows` compares. */
  function NumberKey(float32Source: bool, logical: LogicalType, code: u64): int {
    match logical
    case Int8 | Int16 | Int32 | Int64 => SignedNumcode(logical, code)
    case Float32 => if float32Source then TotalOrderKey(code % TWO_32, TWO_31) else code
    case Float64 => TotalOrderKey(code, TWO_63)
    case DateDays => LowSigned(code, TWO_31)
    case TimestampMicros | TimestampNanos => LowSigned(code, TWO_63)
    case _ => code
  }

  function CellOf(c: Column, row: nat): Cell {
    if IsNull(c, row) || row >= RowCount(c.values) then NullCell
    else match c.values
      case Booleans(v) => NumberCell(v[row])
      case FileCodes(v) => NumberCell(v[row])
      case NumCodes(v) => NumberCell(NumberKey(c.float32Source, c.logical, v[row]))
      case VarBytes(v) => BytesCell(v[row])
      case FixedBytes(_, v) => BytesCell(v[row])
  }

  /** The cells of a row in the cluster columns, most significant first. */
  function RowKey(columns: seq<Column>, cluster: seq<nat>, row: nat): (key: seq<Cell>)
    requires forall i :: 0 <= i < |cluster| ==> cluster[i] < |columns|
    ensures |key| == |cluster| && forall i :: 0 <= i < |cluster| ==> key[i] == CellOf(columns[cluster[i]], row)
  {
    seq(|cluster|, i requires 0 <= i < |cluster| => CellOf(columns[cluster[i]], row))
  }

  /** The first cells that differ decide. */
  predicate KeyBefore(a: seq<Cell>, b: seq<Cell>) {
    if a == [] || b == [] then a == [] && b != []
    else CellLess(a[0], b[0]) || (a[0] == b[0] && KeyBefore(a[1..], b[1..]))
  }

  lemma {:induction false} KeyBeforeConnected(a: seq<Cell>, b: seq<Cell>)
    requires StrictOrder(CellLess)
    ensures !KeyBefore(a, a)
    ensures a == b || KeyBefore(a, b) || KeyBefore(b, a)
  {
    if a != [] {
      KeyBeforeConnected(a[1..], if b == [] then [] else b[1..]);
      if b != [] && a[0] == b[0] && a[1..] == b[1..] {
        assert a == [a[0]] + a[1..] == b;
      }
    }
  }

  lemma {:induction false} KeyBeforeTransitive(a: seq<Cell>, b: seq<Cell>, c: seq<Cell>)
    requires StrictOrder(CellLess) && KeyBefore(a, b) && KeyBefore(b, c)
    ensures KeyBefore(a, c)
  {
    if a != [] && b != [] && c != [] && a[0] == b[0] == c[0] {
      KeyBeforeTransitive(a[1..], b[1..], c[1..]);
    }
  }

  /** The whole comparison: by key, and by source row among equal keys. */
  predicate RowBefore(columns: seq<Column>, cluster: seq<nat>, a: nat, b: nat)
    requires forall i :: 0 <= i < |cluster| ==> cluster[i] < |columns|
  {
    var ka, kb := RowKey(columns, cluster, a), RowKey(columns, cluster, b);
    KeyBefore(ka, kb) || (ka == kb && a < b)
  }

  lemma RowBeforeIsStrict(columns: seq<Column>, cluster: seq<nat>, a: nat, b: nat, c: nat)
    requires forall i :: 0 <= i < |cluster| ==> cluster[i] < |columns|
    ensures !RowBefore(columns, cluster, a, a)
    ensures a == b || RowBefore(columns, cluster, a, b) || RowBefore(columns, cluster, b, a)
    ensures RowBefore(columns, cluster, a, b) && RowBefore(columns, cluster, b, c) ==> RowBefore(columns, cluster, a, c)
  {
    hide CellLess;
    CellLessIsStrict();
    var ka, kb, kc := RowKey(columns, cluster, a), RowKey(columns, cluster, b), RowKey(columns, cluster, c);
    hide RowKey, StrictOrder, KeyBefore;
    KeyBeforeConnected(ka, kb);
    if KeyBefore(ka, kb) && KeyBefore(kb, kc) {
      KeyBeforeTransitive(ka, kb, kc);
    }
  }

  // ---- the permutation --------------------------------------------------------------------------

  /** `sort_by` with this comparison. */
  function ClusterOrder(columns: seq<Column>, cluster: seq<nat>, n: nat): (order: seq<nat>)
    requires forall i :: 0 <= i < |cluster| ==> cluster[i] < |columns|
  {
    StableSort(FirstRows(n), (a: nat, b: nat) => a == b || RowBefore(columns, cluster, a, b))
  }

  /** `order` lists each of the first `n` rows once. */
  ghost predicate IsPermutation(order: seq<nat>, n: nat) {
    multiset(order) == multiset(FirstRows(n))
  }

  lemma PermutationBounds(order: seq<nat>, n: nat)
    requires IsPermutation(order, n)
    ensures |order| == n && forall i :: 0 <= i < |order| ==> order[i] < n
  {
    assert |multiset(order)| == |multiset(FirstRows(n))|;
    forall i | 0 <= i < |order| ensures order[i] < n {
      assert order[i] in multiset(FirstRows(n));
    }
  }

  ghost predicate InClusterOrder(columns: seq<Column>, cluster: seq<nat>, order: seq<nat>)
    requires forall i :: 0 <= i < |cluster| ==> cluster[i] < |columns|
  {
    forall i, j :: 0 <= i < j < |order| ==> RowBefore(columns, cluster, order[i], order[j])
  }

  lemma FirstRowsDistinct(n: nat)
    ensures Distinct(FirstRows(n))
  {
  }

  /** The order is a permutation, sorted by the comparison, with ties in source order. */
  lemma ClusterOrderSorts(columns: seq<Column>, cluster: seq<nat>, n: nat)
    requires forall i :: 0 <= i < |cluster| ==> cluster[i] < |columns|
    ensures IsPermutation(ClusterOrder(columns, cluster, n), n)
    ensures InClusterOrder(columns, cluster, ClusterOrder(columns, cluster, n))
  {
    var le := (a: nat, b: nat) => a == b || RowBefore(columns, cluster, a, b);
    var order := ClusterOrder(columns, cluster, n);
    SortPermutes(FirstRows(n), le);
    hide RowBefore;
    forall a: nat, b: nat, c: nat
      ensures le(a, b) || le(b, a)
      ensures le(a, b) && le(b, c) ==> le(a, c)
    {
      RowBeforeIsStrict(columns, cluster, a, b, c);
    }
    SortSorts(FirstRows(n), le);
    hide StableSort, FirstRows;
    forall i, j | 0 <= i < j < |order| ensures RowBefore(columns, cluster, order[i], order[j]) {
      assert le(order[i], order[j]);
      FirstRowsDistinct(n);
      DistinctMultiset(FirstRows(n));
      RepeatCounts(order, i, j);
    }
  }

  /** There is only one such permutation. */
  lemma ClusterOrderUnique(columns: seq<Column>, cluster: seq<nat>, a: seq<nat>, b: seq<nat>, n: nat)
    requires forall i :: 0 <= i < |cluster| ==> cluster[i] < |columns|
    requires IsPermutation(a, n) && IsPermutation(b, n)
    requires InClusterOrder(columns, cluster, a) && InClusterOrder(columns, cluster, b)
    ensures a == b
  {
    var lt := (x: nat, y: nat) => RowBefore(columns, cluster, x, y);
    hide RowBefore;
    forall x: nat, y: nat | lt(x, y) ensures !lt(y, x) {
      RowBeforeIsStrict(columns, cluster, x, y, x);
    }
    forall x: nat ensures x in a <==> x in b {
      assert x in multiset(a) <==> x in multiset(b);
    }
    StrictlySortedUnique(a, b, lt);
  }

  // ---- clustering a table -----------------------------------------------------------------------

  datatype Policy = PreserveSourceOrder | StableCluster

  /** The note the converter reports. */
  datatype Note = Nothing | NotEnabled | NoClusterColumns | Applied

  /** `position`: the first column of that name. */
  function FindColumn(columns: seq<Column>, name: string): (r: Option<nat>)
    ensures r.Some? ==> r.value < |columns| && columns[r.value].name == name
    ensures r.Some? ==> forall i :: 0 <= i < r.value ==> columns[i].name != name
    ensures r.None? ==> forall i :: 0 <= i < |columns| ==> columns[i].name != name
  {
    FindFrom(columns, name, 0)
  }

  function FindFrom(columns: seq<Column>, name: string, from: nat): (r: Option<nat>)
    requires from <= |columns|
    ensures r.Some? ==> from <= r.value < |columns| && columns[r.value].name == name
    ensures r.Some? ==> forall i :: from <= i < r.value ==> columns[i].name != name
    ensures r.None? ==> forall i :: from <= i < |columns| ==> columns[i].name != name
    decreases |columns| - from
  {
    if from == |columns| then None
    else if columns[from].name == name then Some(from)
    else FindFrom(columns, name, from + 1)
  }

  /** Column `i` is the first of that name. */
  predicate IsFirstNamed(columns: seq<Column>, name: string, i: nat) {
    i < |columns| && columns[i].name == name && forall j :: 0 <= j < i ==> columns[j].name != name
  }

  predicate IsMissing(columns: seq<Column>, name: string) {
    forall i :: 0 <= i < |columns| ==> columns[i].name != name
  }

  /** The columns of those names, in the order of the names; an error exactly when one is missing. */
  function FindAll(columns: seq<Column>, names: seq<string>): (r: Result<seq<nat>>)
    ensures r.Ok? ==> |r.value| == |names| && forall i :: 0 <= i < |names| ==> r.value[i] < |columns|
    ensures r.Ok? ==> forall i :: 0 <= i < |names| ==> IsFirstNamed(columns, names[i], r.value[i])
    ensures r.Err? ==> r.error == BadSchema && exists i :: 0 <= i < |names| && IsMissing(columns, names[i])
  {
    if names == [] then Ok([])
    else
      var done :- FindAll(columns, names[..|names| - 1]);
      match FindColumn(columns, names[|names| - 1])
      case Some(index) => Ok(done + [index])
      case None => Err(BadSchema)
  }

  function RowsOf(columns: seq<Column>): nat {
    if columns == [] then 0 else RowCount(columns[0].values)
  }

  /** One permutation for every column and its null flags. */
  function ReorderAll(columns: seq<Column>, order: seq<nat>, n: nat): (r: seq<Column>)
    requires Aligned(columns, n) && InRange(order, n)
    ensures |r| == |columns| && forall i :: 0 <= i < |columns| ==> r[i] == Reordered(columns[i], order)
  {
    seq(|columns|, i requires 0 <= i < |columns| => Reordered(columns[i], order))
  }

  /** The table that clustering leaves behind. */
  function Clustered(columns: seq<Column>, policy: Policy, names: seq<string>): Result<(seq<Column>, Note)>
    requires Aligned(columns, RowsOf(columns))
  {
    if policy == PreserveSourceOrder then Ok((columns, if names == [] then Nothing else NotEnabled))
    else if names == [] then Ok((columns, NoClusterColumns))
    else
      var cluster :- FindAll(columns, names);
      ClusterOrderSorts(columns, cluster, RowsOf(columns));
      PermutationBounds(ClusterOrder(columns, cluster, RowsOf(columns)), RowsOf(columns));
      Ok((ReorderAll(columns, ClusterOrder(columns, cluster, RowsOf(columns)), RowsOf(columns)), Applied))
  }

  /** `apply_stable_clustering`: the columns are rewritten in place. */
  method ApplyStableClustering(columns: seq<ConvertedColumn>, policy: Policy, names: seq<string>)
    returns (r: Result<Note>)
    requires Distinct(columns) && Aligned(Views(columns), RowsOf(Views(columns)))
    modifies columns
    ensures var spec := Clustered(old(Views(columns)), policy, names);
      if spec.Err? then r == Err(spec.error) && Views(columns) == old(Views(columns))
      else r == Ok(spec.value.1) && Views(columns) == spec.value.0
  {
    if policy == PreserveSourceOrder {
      return Ok(if names == [] then Nothing else NotEnabled);
    }
    if names == [] {
      return Ok(NoClusterColumns);
    }
    var before := Snapshot(columns);
    var cluster := FindAll(before, names);
    if cluster.Err? {
      return Err(cluster.error);
    }
    var n := RowsOf(before);
    var order := ClusterOrder(before, cluster.value, n);
    ClusterOrderSorts(before, cluster.value, n);
    PermutationBounds(order, n);
    hide ClusterOrder, IsPermutation, InClusterOrder;
    ReorderColumns(columns, order, n, before);
    return Ok(Applied);
  }

  method ReorderColumns(columns: seq<ConvertedColumn>, order: seq<nat>, n: nat, ghost before: seq<Column>)
    requires Distinct(columns) && Views(columns) == before && Aligned(before, n) && InRange(order, n)
    modifies columns
    ensures Views(columns) == ReorderAll(before, order, n)
  {
    hide Reordered;
    for i := 0 to |columns|
      invariant forall k :: 0 <= k < i ==> columns[k].View() == Reordered(before[k], order)
      invariant forall k :: i <= k < |columns| ==> columns[k].View() == before[k]
    {
      assert columns[i].View() == before[i];
      columns[i].Reorder(order);
    }
  }

  /** Rows stay whole: row `i` of every clustered column is the same source row, and each source row
      appears once; the cluster keys ascend, ties in source order. */
  lemma ClusteringKeepsRows(columns: seq<Column>, names: seq<string>, cluster: seq<nat>)
    requires Aligned(columns, RowsOf(columns)) && names != [] && FindAll(columns, names) == Ok(cluster)
    ensures var n := RowsOf(columns); var order := ClusterOrder(columns, cluster, n);
      && IsPermutation(order, n) && InRange(order, n) && |order| == n
      && Clustered(columns, StableCluster, names) == Ok((ReorderAll(columns, order, n), Applied))
      && Aligned(ReorderAll(columns, order, n), n)
      && (forall c, i :: 0 <= c < |columns| && 0 <= i < n ==>
            RowAt(ReorderAll(columns, order, n)[c], i) == RowAt(columns[c], order[i]))
      && InClusterOrder(columns, cluster, order)
  {
    var n := RowsOf(columns);
    var order := ClusterOrder(columns, cluster, n);
    ClusterOrderSorts(columns, cluster, n);
    PermutationBounds(order, n);
    hide ClusterOrder, Reordered, RowAt;
    var after := ReorderAll(columns, order, n);
    forall c | 0 <= c < |columns| ensures Flagged(after[c]) && RowCount(after[c].values) == n {
      ReorderedFlagged(columns[c], order);
    }
    forall c, i | 0 <= c < |columns| && 0 <= i < n ensures RowAt(after[c], i) == RowAt(columns[c], order[i]) {
      ReorderedRow(columns[c], order, i);
    }
  }

  lemma ReorderedFlagged(c: Column, order: seq<nat>)
    requires Flagged(c) && InRange(order, RowCount(c.values))
    ensures Flagged(Reordered(c, order)) && RowCount(Reordered(c, order).values) == |order|
  {
  }

  lemma KeysMove(columns: seq<Column>, cluster: seq<nat>, order: seq<nat>, n: nat, a: nat)
    requires Aligned(columns, n) && InRange(order, n) && a < |order|
    requires forall i :: 0 <= i < |cluster| ==> cluster[i] < |columns|
    ensures RowKey(ReorderAll(columns, order, n), cluster, a) == RowKey(columns, cluster, order[a])
  {
    hide ReorderedValues;
    forall i | 0 <= i < |cluster|
      ensures CellOf(Reordered(columns[cluster[i]], order), a) == CellOf(columns[cluster[i]], order[a])
    {
      CellMoves(columns[cluster[i]], order, a);
    }
  }

  lemma CellMoves(c: Column, order: seq<nat>, a: nat)
    requires Flagged(c) && InRange(order, RowCount(c.values)) && a < |order|
    ensures CellOf(Reordered(c, order), a) == CellOf(c, order[a])
  {
  }

  /** A clustered table is in cluster order as it stands: clustering it again moves nothing. */
  lemma ClusteringTwice(columns: seq<Column>, cluster: seq<nat>, order: seq<nat>, n: nat)
    requires Aligned(columns, n) && InRange(order, n) && |order| == n
    requires forall i :: 0 <= i < |cluster| ==> cluster[i] < |columns|
    requires InClusterOrder(columns, cluster, order)
    ensures ClusterOrder(ReorderAll(columns, order, n), cluster, n) == FirstRows(n)
  {
    var after := ReorderAll(columns, order, n);
    ClusterOrderSorts(after, cluster, n);
    hide ClusterOrder, RowKey, KeyBefore, ReorderAll;
    forall i, j | 0 <= i < j < n ensures RowBefore(after, cluster, FirstRows(n)[i], FirstRows(n)[j]) {
      KeysMove(columns, cluster, order, n, i);
      KeysMove(columns, cluster, order, n, j);
      assert RowBefore(columns, cluster, order[i], order[j]);
    }
    ClusterOrderUnique(after, cluster, ClusterOrder(after, cluster, n), FirstRows(n), n);
  }
}
