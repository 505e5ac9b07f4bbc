/** Columns of the Parquet converter (`parquet.rs`): materialized values and null flags, rewritten in place. */
module ConvertedColumns {
  import opened Wrappers
  import opened Selection
  import Canonical
  import opened ColumnTypes

  /** `MaterializedValues`. */
  datatype Values =
    | Booleans(booleans: seq<byte>)
    | FileCodes(codes: seq<u32>)
    | NumCodes(numbers: seq<u64>)
    | VarBytes(blobs: seq<Canonical.Blob>)
    | FixedBytes(width: nat, fixed: seq<seq<byte>>)

  function RowCount(values: Values): nat {
    match values
    case Booleans(v) => |v|
    case FileCodes(v) => |v|
    case NumCodes(v) => |v|
    case VarBytes(v) => |v|
    case FixedBytes(_, v) => |v|
  }

  /** What a converted column holds. `float32Source` says that its source kind is `Float32`. */
  datatype Column = Column(
    name: string, logical: LogicalType, physical: PhysicalKind, encoding: Encoding, float32Source: bool,
    values: Values, nulls: seq<bool>)

  /** `is_null`: rows without a flag are not null. */
  predicate IsNull(c: Column, row: nat) {
    row < |c.nulls| && c.nulls[row]
  }

  /** Every row has a null flag. */
  predicate Flagged(c: Column) {
    RowCount(c.values) == |c.nulls|
  }

  /** The columns of a table have the same rows. */
  predicate Aligned(columns: seq<Column>, n: nat) {
    forall i :: 0 <= i < |columns| ==> Flagged(columns[i]) && RowCount(columns[i].values) == n
  }

  class ConvertedColumn {
    const name: string
    const logical: LogicalType
    const float32Source: bool
    var physical: PhysicalKind
    var encoding: Encoding
    var values: Values
    var nulls: seq<bool>

    function View(): Column
      reads this
    {
      Column(name, logical, physical, encoding, float32Source, values, nulls)
    }

    constructor (c: Column)
      ensures View() == c
    {
      name := c.name;
      logical := c.logical;
      float32Source := c.float32Source;
      physical := c.physical;
      encoding := c.encoding;
      values := c.values;
      nulls := c.nulls;
    }

    /** `values.reorder(&order)` and `reorder_copy(&mut nulls, &order)`. */
    method Reorder(order: seq<nat>)
      requires Flagged(View()) && InRange(order, RowCount(values))
      modifies this
      ensures View() == Reordered(old(View()), order)
    {
      values := ReorderedValues(values, order);
      nulls := Picked(nulls, order);
    }

    /** What synthesis leaves behind in a selected column. */
    method ReplaceWithCodes(codes: seq<u32>)
      modifies this
      ensures View() == WithCodes(old(View()), codes)
    {
      values := FileCodes(codes);
      physical := FileCodeKind;
      encoding := FileCodeEncoding;
    }
  }

  /** The views of a list of column objects. */
  ghost function Views(columns: seq<ConvertedColumn>): (views: seq<Column>)
    reads columns
    ensures |views| == |columns| && forall i :: 0 <= i < |columns| ==> views[i] == columns[i].View()
  {
    seq(|columns|, i requires 0 <= i < |columns| reads columns => columns[i].View())
  }

  method Snapshot(columns: seq<ConvertedColumn>) returns (views: seq<Column>)
    ensures views == Views(columns)
  {
    views := [];
    for i := 0 to |columns|
      invariant |views| == i && forall k :: 0 <= k < i ==> views[k] == columns[k].View()
    {
      views := views + [columns[i].View()];
    }
  }

  // ---- reordering -----------------------------------------------------------------------------

  function Picked<T>(s: seq<T>, order: seq<nat>): (r: seq<T>)
    requires InRange(order, |s|)
    ensures |r| == |order| && forall i :: 0 <= i < |order| ==> r[i] == s[order[i]]
  {
    seq(|order|, i requires 0 <= i < |order| => s[order[i]])
  }

  function ReorderedValues(values: Values, order: seq<nat>): Values
    requires InRange(order, RowCount(values))
  {
    match values
    case Booleans(v) => Booleans(Picked(v, order))
    case FileCodes(v) => FileCodes(Picked(v, order))
    case NumCodes(v) => NumCodes(Picked(v, order))
    case VarBytes(v) => VarBytes(Picked(v, order))
    case FixedBytes(w, v) => FixedBytes(w, Picked(v, order))
  }

  function Reordered(c: Column, order: seq<nat>): Column
    requires Flagged(c) && InRange(order, RowCount(c.values))
  {
    c.(values := ReorderedValues(c.values, order), nulls := Picked(c.nulls, order))
  }

  function WithCodes(c: Column, codes: seq<u32>): Column {
    c.(values := FileCodes(codes), physical := FileCodeKind, encoding := FileCodeEncoding)
  }

  /** What a row of a column holds, whatever the layout of the column. */
  datatype RowValue = NullRow | BooleanRow(b: byte) | CodeRow(code: u32) | NumberRow(number: u64)
    | BytesRow(bytes: seq<byte>)

  function ValueAt(values: Values, row: nat): RowValue
    requires row < RowCount(values)
  {
    match values
    case Booleans(v) => BooleanRow(v[row])
    case FileCodes(v) => CodeRow(v[row])
    case NumCodes(v) => NumberRow(v[row])
    case VarBytes(v) => BytesRow(v[row])
    case FixedBytes(_, v) => BytesRow(v[row])
  }

  function RowAt(c: Column, row: nat): RowValue
    requires row < RowCount(c.values)
  {
    if IsNull(c, row) then NullRow else ValueAt(c.values, row)
  }

  lemma ReorderedRow(c: Column, order: seq<nat>, i: nat)
    requires Flagged(c) && i < |order| && InRange(order, RowCount(c.values))
    ensures Flagged(Reordered(c, order)) && RowCount(Reordered(c, order).values) == |order|
    ensures ValueAt(Reordered(c, order).values, i) == ValueAt(c.values, order[i])
    ensures IsNull(Reordered(c, order), i) == IsNull(c, order[i])
    ensures RowAt(Reordered(c, order), i) == RowAt(c, order[i])
  {
  }
}
