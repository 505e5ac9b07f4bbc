/** Filling a converted column from the arrays of a Parquet file (`from_field`, `append_array`), and what such a
    column then holds, told in terms of the source's values. */
module SourceColumns {
  import opened Wrappers
  import opened Wire
  import opened ColumnTypes
  import opened ConvertedColumns
  import Canonical

  // ---- source arrays ------------------------------------------------------------------------------------

  /** `SourceColumnKind`. */
  datatype SourceKind =
    | FromBoolean | FromInt8 | FromInt16 | FromInt32 | FromInt64 | FromUInt8 | FromUInt16 | FromUInt32 | FromUInt64
    | FromFloat32 | FromFloat64 | FromDate32 | FromSeconds | FromMillis | FromMicros | FromNanos
    | FromUtf8 | FromLargeUtf8 | FromBinary | FromLargeBinary | FromDecimal128 | FromNestedJson

  /** A value of a source array. Dates, timestamps and decimals are whole numbers of their unit, floats their bits,
      nested values their JSON text. `Code` stands only in columns that dictionary synthesis has rewritten. */
  datatype SourceValue =
    | Truth(b: bool)
    | Whole(n: int)
    | Float(bits: u64)
    | Octets(bytes: Canonical.Blob)
    | Code(code: u32)

  /** A row of a source array, or a null. */
  type SourceCell = Option<SourceValue>

  /** The values an array of this kind can hold. */
  predicate Fits(kind: SourceKind, v: SourceValue) {
    match kind
    case FromBoolean => v.Truth?
    case FromInt8 => v.Whole? && -0x80 <= v.n < 0x80
    case FromInt16 => v.Whole? && -0x8000 <= v.n < 0x8000
    case FromInt32 | FromDate32 => v.Whole? && -TWO_31 <= v.n < TWO_31
    case FromInt64 | FromSeconds | FromMillis | FromMicros | FromNanos => v.Whole? && -TWO_63 <= v.n < TWO_63
    case FromUInt8 => v.Whole? && 0 <= v.n < 0x100
    case FromUInt16 => v.Whole? && 0 <= v.n < TWO_16
    case FromUInt32 => v.Whole? && 0 <= v.n < TWO_32
    case FromUInt64 => v.Whole? && 0 <= v.n < TWO_64
    case FromFloat32 => v.Float? && v.bits < TWO_32
    case FromFloat64 => v.Float?
    case FromDecimal128 => v.Whole? && -TWO_127 <= v.n < TWO_127
    case _ => v.Octets?
  }

  predicate AllFit(kind: SourceKind, cells: seq<SourceCell>) {
    forall i :: 0 <= i < |cells| && cells[i].Some? ==> Fits(kind, cells[i].value)
  }

  /** Seconds and milliseconds become microseconds. */
  function Scale(kind: SourceKind): (scale: int)
    ensures scale >= 1
  {
    match kind
    case FromSeconds => 1_000_000
    case FromMillis => 1_000
    case _ => 1
  }

  function LogicalOf(kind: SourceKind): LogicalType {
    match kind
    case FromBoolean => Bool
    case FromInt8 => Int8
    case FromInt16 => Int16
    case FromInt32 => Int32
    case FromInt64 => Int64
    case FromUInt8 => UInt8
    case FromUInt16 => UInt16
    case FromUInt32 => UInt32
    case FromUInt64 => UInt64
    case FromFloat32 => Float32
    case FromFloat64 => Float64
    case FromDate32 => DateDays
    case FromSeconds | FromMillis | FromMicros => TimestampMicros
    case FromNanos => TimestampNanos
    case FromUtf8 | FromLargeUtf8 => Utf8
    case FromBinary | FromLargeBinary => Binary
    case FromDecimal128 => Decimal128
    case FromNestedJson => Json
  }

  predicate IsBytesKind(kind: SourceKind) {
    kind == FromUtf8 || kind == FromLargeUtf8 || kind == FromBinary || kind == FromLargeBinary || kind == FromNestedJson
  }

  /** `from_field`: the empty column. */
  function EmptyColumn(name: string, kind: SourceKind): Column {
    var logical := LogicalOf(kind);
    if kind == FromBoolean then Column(name, logical, BooleanKind, PlainFixed, false, Booleans([]), [])
    else if kind == FromDecimal128 then Column(name, logical, FixedBytesKind, PlainFixed, false, FixedBytes(16, []), [])
    else if IsBytesKind(kind) then Column(name, logical, VarBytesKind, VarBytesEncoding, false, VarBytes([]), [])
    else Column(name, logical, NumCodeKind, NumCodeEncoding, kind == FromFloat32, NumCodes([]), [])
  }

  // ---- what a column holds ------------------------------------------------------------------------------

  /** The number stands for `n`: it is `n`, or `n` wrapped around below zero. */
  predicate StandsFor(number: nat, n: int, modulus: int) {
    0 <= number < modulus && (number == n || number == n + modulus)
  }

  /** A number stands for a value in the column's unit, and that is an i64 where it is scaled. */
  predicate NumberHeld(number: u64, kind: SourceKind, n: int) {
    !Overflows(kind, n) && StandsFor(number, n * Scale(kind), TWO_64)
  }

  /** `checked_mul` on an i64. */
  predicate Overflows(kind: SourceKind, n: int) {
    Scale(kind) > 1 && !(-TWO_63 <= n * Scale(kind) < TWO_63)
  }

  /** Row `row` of the column holds this value, whatever the layout of the column. */
  predicate ValueHeld(c: Column, kind: SourceKind, row: nat, v: SourceValue)
    requires row < RowCount(c.values)
  {
    match c.values
    case Booleans(s) => v.Truth? && s[row] == (if v.b then 1 else 0)
    case FileCodes(s) => v.Code? && s[row] == v.code
    case NumCodes(s) => if v.Whole? then NumberHeld(s[row], kind, v.n) else v.Float? && s[row] == v.bits
    case VarBytes(s) => v.Octets? && s[row] == v.bytes
    case FixedBytes(w, s) => w == 16 && v.Whole? && |s[row]| == 16 && StandsFor(FromLE(s[row]), v.n, TWO_128)
  }

  predicate CellHeld(c: Column, kind: SourceKind, row: nat, cell: SourceCell)
    requires row < RowCount(c.values)
  {
    match cell
    case None => IsNull(c, row)
    case Some(v) => !IsNull(c, row) && ValueHeld(c, kind, row, v) && (v.Code? || Fits(kind, v))
  }

  /** The column holds these rows. */
  predicate Holds(c: Column, kind: SourceKind, rows: seq<SourceCell>) {
    && c.logical == LogicalOf(kind) && c.float32Source == (kind == FromFloat32)
    && (LaidOut(c.values, kind) || c.values.FileCodes?)
    && |rows| == RowCount(c.values) == |c.nulls|
    && forall i :: 0 <= i < |rows| ==> CellHeld(c, kind, i, rows[i])
  }

  // ---- appending ----------------------------------------------------------------------------------------

  /** One stored value. */
  datatype Slot = ByteSlot(b: byte) | NumberSlot(number: u64) | BytesSlot(bytes: Canonical.Blob)

  /** `value_at`: the stored form of a value; scaling a timestamp can overflow. */
  function Store(kind: SourceKind, v: SourceValue): Result<Slot>
    requires Fits(kind, v)
  {
    match v
    case Truth(b) => Ok(ByteSlot(if b then 1 else 0))
    case Float(bits) => Ok(NumberSlot(bits))
    case Octets(bytes) => Ok(BytesSlot(bytes))
    case Whole(n) =>
      if kind == FromDecimal128 then Ok(BytesSlot(ToLE(if n < 0 then n + TWO_128 else n, 16)))
      else if Overflows(kind, n) then Err(ArithOverflow)
      else
        NoWrap(kind, v);
        Ok(NumberSlot(if n * Scale(kind) < 0 then Stored(n * Scale(kind)) else n * Scale(kind)))
  }

  lemma NoWrap(kind: SourceKind, v: SourceValue)
    requires Fits(kind, v) && v.Whole? && kind != FromDecimal128 && !Overflows(kind, v.n)
    ensures -TWO_63 <= v.n * Scale(kind) < TWO_64
  {
  }

  /** The value stored under a null. */
  function Placeholder(kind: SourceKind): Slot {
    if kind == FromBoolean then ByteSlot(0)
    else if kind == FromDecimal128 then BytesSlot(ToLE(0, 16))
    else if kind == FromNestedJson then BytesSlot([0x6E, 0x75, 0x6C, 0x6C])
    else if IsBytesKind(kind) then BytesSlot([])
    else NumberSlot(0)
  }

  /** The column is laid out for values of this kind. */
  predicate LaidOut(values: Values, kind: SourceKind) {
    if kind == FromBoolean then values.Booleans?
    else if kind == FromDecimal128 then values.FixedBytes? && values.width == 16
    else if IsBytesKind(kind) then values.VarBytes?
    else values.NumCodes?
  }

  predicate SlotFits(values: Values, slot: Slot) {
    match slot
    case ByteSlot(_) => values.Booleans?
    case NumberSlot(_) => values.NumCodes?
    case BytesSlot(_) => values.VarBytes? || values.FixedBytes?
  }

  function Pushed(values: Values, slot: Slot): (r: Values)
    requires SlotFits(values, slot)
    ensures RowCount(r) == RowCount(values) + 1
  {
    match slot
    case ByteSlot(b) => Booleans(values.booleans + [b])
    case NumberSlot(number) => NumCodes(values.numbers + [number])
    case BytesSlot(bytes) =>
      if values.VarBytes? then VarBytes(values.blobs + [bytes]) else FixedBytes(values.width, values.fixed + [bytes])
  }

  lemma SlotsFitLayout(values: Values, kind: SourceKind)
    requires LaidOut(values, kind)
    ensures SlotFits(values, Placeholder(kind))
    ensures forall v :: Fits(kind, v) && Store(kind, v).Ok? ==> SlotFits(values, Store(kind, v).value)
  {
  }

  /** The column after one more row. */
  function WithRow(c: Column, kind: SourceKind, cell: SourceCell): Result<Column>
    requires LaidOut(c.values, kind) && (cell.Some? ==> Fits(kind, cell.value))
  {
    SlotsFitLayout(c.values, kind);
    match cell
    case None => Ok(c.(values := Pushed(c.values, Placeholder(kind)), nulls := c.nulls + [true]))
    case Some(v) =>
      var slot :- Store(kind, v);
      Ok(c.(values := Pushed(c.values, slot), nulls := c.nulls + [false]))
  }

  /** The column after the rows of an array. */
  function WithRows(c: Column, kind: SourceKind, cells: seq<SourceCell>): (r: Result<Column>)
    requires LaidOut(c.values, kind) && AllFit(kind, cells)
    ensures r.Ok? ==> LaidOut(r.value.values, kind)
  {
    if cells == [] then Ok(c)
    else
      var before :- WithRows(c, kind, cells[..|cells| - 1]);
      WithRow(before, kind, cells[|cells| - 1])
  }

  /** What an array that cannot be stored leaves behind: the rows before the overflow, and one null flag more. */
  ghost predicate StoppedShort(before: Column, after: Column, kind: SourceKind, cells: seq<SourceCell>)
    requires LaidOut(before.values, kind) && AllFit(kind, cells)
  {
    exists i :: 0 <= i < |cells| && StoppedAt(before, after, kind, cells, i)
  }

  ghost predicate StoppedAt(before: Column, after: Column, kind: SourceKind, cells: seq<SourceCell>, i: nat)
    requires LaidOut(before.values, kind) && AllFit(kind, cells) && i < |cells|
  {
    && cells[i].Some? && Store(kind, cells[i].value).Err?
    && var done := WithRows(before, kind, cells[..i]);
       done.Ok? && after == done.value.(nulls := done.value.nulls + [false])
  }

  lemma {:induction false} WithRowsFail(c: Column, kind: SourceKind, cells: seq<SourceCell>, i: nat)
    requires LaidOut(c.values, kind) && AllFit(kind, cells)
    requires i < |cells| && cells[i].Some? && Store(kind, cells[i].value).Err?
    ensures WithRows(c, kind, cells).Err?
  {
    hide Store, WithRow;
    if i < |cells| - 1 {
      WithRowsFail(c, kind, cells[..|cells| - 1], i);
    } else if WithRows(c, kind, cells[..i]).Ok? {
      RowFails(WithRows(c, kind, cells[..i]).value, kind, cells[i].value);
    }
  }

  lemma RowFails(c: Column, kind: SourceKind, v: SourceValue)
    requires LaidOut(c.values, kind) && Fits(kind, v) && Store(kind, v).Err?
    ensures WithRow(c, kind, Some(v)).Err?
  {
    hide Store;
  }

  /** An array is stored unless one of its timestamps overflows when scaled. */
  lemma {:induction false} StoredExactly(c: Column, kind: SourceKind, cells: seq<SourceCell>)
    requires LaidOut(c.values, kind) && AllFit(kind, cells)
    ensures WithRows(c, kind, cells).Ok? <==>
      forall i :: 0 <= i < |cells| && cells[i].Some? && cells[i].value.Whole? ==> !Overflows(kind, cells[i].value.n)
  {
    hide Overflows, WithRow;
    if cells != [] {
      var init, last := cells[..|cells| - 1], cells[|cells| - 1];
      StoredExactly(c, kind, init);
      assert forall i :: 0 <= i < |init| ==> cells[i] == init[i];
      if WithRows(c, kind, init).Ok? {
        RowStoredExactly(WithRows(c, kind, init).value, kind, last);
      }
    }
  }

  lemma RowStoredExactly(c: Column, kind: SourceKind, cell: SourceCell)
    requires LaidOut(c.values, kind) && (cell.Some? ==> Fits(kind, cell.value))
    ensures WithRow(c, kind, cell).Ok? <==> !(cell.Some? && cell.value.Whole? && Overflows(kind, cell.value.n))
  {
    DecimalsKeepScale(kind);
    hide Overflows, Placeholder;
  }

  lemma DecimalsKeepScale(kind: SourceKind)
    ensures kind == FromDecimal128 ==> forall n :: !Overflows(kind, n)
  {
  }

  // ---- the column holds what was appended ---------------------------------------------------------------

  lemma StoredStandsFor(kind: SourceKind, v: SourceValue)
    requires Fits(kind, v) && v.Whole? && Store(kind, v).Ok?
    ensures kind != FromDecimal128 ==> NumberHeld(Store(kind, v).value.number, kind, v.n)
    ensures kind == FromDecimal128 ==>
      |Store(kind, v).value.bytes| == 16 && StandsFor(FromLE(Store(kind, v).value.bytes), v.n, TWO_128)
  {
    hide ToLE, FromLE;
    Pow256Values();
    if kind == FromDecimal128 {
      FromToLE(if v.n < 0 then v.n + TWO_128 else v.n, 16);
    }
  }

  lemma PushedHolds(c: Column, kind: SourceKind, v: SourceValue)
    requires LaidOut(c.values, kind) && Fits(kind, v) && Flagged(c) && WithRow(c, kind, Some(v)).Ok?
    ensures var after := WithRow(c, kind, Some(v)).value;
      RowCount(after.values) == RowCount(c.values) + 1 && CellHeld(after, kind, RowCount(c.values), Some(v))
  {
    SlotsFitLayout(c.values, kind);
    if v.Whole? {
      StoredStandsFor(kind, v);
    }
    hide NumberHeld, StandsFor, Fits, Scale;
  }

  /** Rows already held stay as they are. */
  lemma EarlierHeld(c: Column, kind: SourceKind, cell: SourceCell, i: nat, held: SourceCell)
    requires LaidOut(c.values, kind) && (cell.Some? ==> Fits(kind, cell.value)) && Flagged(c)
    requires WithRow(c, kind, cell).Ok? && i < RowCount(c.values) && CellHeld(c, kind, i, held)
    ensures i < RowCount(WithRow(c, kind, cell).value.values) && CellHeld(WithRow(c, kind, cell).value, kind, i, held)
  {
    SlotsFitLayout(c.values, kind);
    hide NumberHeld, StandsFor, Fits, Scale, Store, Placeholder, FromLE;
  }

  lemma RowAppended(c: Column, kind: SourceKind, rows: seq<SourceCell>, cell: SourceCell)
    requires LaidOut(c.values, kind) && (cell.Some? ==> Fits(kind, cell.value))
    requires Holds(c, kind, rows) && WithRow(c, kind, cell).Ok?
    ensures Holds(WithRow(c, kind, cell).value, kind, rows + [cell])
  {
    hide CellHeld, WithRow, Fits, LaidOut, IsNull, LogicalOf;
    var after, all := WithRow(c, kind, cell).value, rows + [cell];
    if cell.Some? {
      PushedHolds(c, kind, cell.value);
    }
    AppendedShape(c, kind, cell);
    forall i | 0 <= i < |all| ensures CellHeld(after, kind, i, all[i]) {
      if i < |rows| {
        EarlierHeld(c, kind, cell, i, rows[i]);
      } else if cell.None? {
        NullHeld(after, kind, i);
      }
    }
  }

  lemma AppendedShape(c: Column, kind: SourceKind, cell: SourceCell)
    requires LaidOut(c.values, kind) && (cell.Some? ==> Fits(kind, cell.value))
    requires Flagged(c) && WithRow(c, kind, cell).Ok?
    ensures var after := WithRow(c, kind, cell).value;
      && after.logical == c.logical && after.float32Source == c.float32Source && LaidOut(after.values, kind)
      && RowCount(after.values) == |after.nulls| == RowCount(c.values) + 1
      && (cell.None? ==> IsNull(after, RowCount(c.values)))
  {
    hide Store, Fits, Placeholder;
    SlotsFitLayout(c.values, kind);
  }

  lemma NullHeld(c: Column, kind: SourceKind, row: nat)
    requires row < RowCount(c.values) && IsNull(c, row)
    ensures CellHeld(c, kind, row, None)
  {
  }

  /** Appending an array to a column appends its rows to what the column holds. */
  lemma {:induction false} RowsAppended(c: Column, kind: SourceKind, rows: seq<SourceCell>, cells: seq<SourceCell>)
    requires LaidOut(c.values, kind) && AllFit(kind, cells)
    requires Holds(c, kind, rows) && WithRows(c, kind, cells).Ok?
    ensures Holds(WithRows(c, kind, cells).value, kind, rows + cells)
  {
    hide Holds, WithRow;
    if cells == [] {
      assert rows + cells == rows;
    } else {
      var init, last := cells[..|cells| - 1], cells[|cells| - 1];
      RowsAppended(c, kind, rows, init);
      RowAppended(WithRows(c, kind, init).value, kind, rows + init, last);
      assert rows + init + [last] == rows + cells;
    }
  }

  /** A fresh column holds nothing and is laid out for its kind. */
  lemma EmptyHolds(name: string, kind: SourceKind)
    ensures Holds(EmptyColumn(name, kind), kind, []) && LaidOut(EmptyColumn(name, kind).values, kind)
  {
  }

  // ---- the loop -----------------------------------------------------------------------------------------

  predicate AnyNull(cells: seq<SourceCell>) {
    exists i :: 0 <= i < |cells| && cells[i].None?
  }

  lemma WithRowsSnoc(c: Column, kind: SourceKind, cells: seq<SourceCell>, i: nat)
    requires LaidOut(c.values, kind) && AllFit(kind, cells) && i < |cells|
    requires WithRows(c, kind, cells[..i]).Ok?
    ensures WithRows(c, kind, cells[..i + 1]) == WithRow(WithRows(c, kind, cells[..i]).value, kind, cells[i])
  {
    hide WithRow;
    assert cells[..i + 1][..i] == cells[..i];
  }

  /** `append_array` on a column of this kind: nulls where the field allows none are refused, otherwise the rows
      are appended up to the first that overflows. */
  method AppendArray(column: ConvertedColumn, kind: SourceKind, nullable: bool, cells: seq<SourceCell>)
    returns (r: Result<()>)
    requires LaidOut(column.values, kind) && AllFit(kind, cells)
    modifies column
    ensures AnyNull(cells) && !nullable ==> r == Err(BadSchema) && column.View() == old(column.View())
    ensures !(AnyNull(cells) && !nullable) ==>
      var done := WithRows(old(column.View()), kind, cells);
      if done.Ok? then r == Ok(()) && column.View() == done.value
      else r == Err(ArithOverflow) && StoppedShort(old(column.View()), column.View(), kind, cells)
  {
    hide Store, WithRow, Fits, Placeholder;
    if AnyNull(cells) && !nullable {
      return Err(BadSchema);
    }
    ghost var before := column.View();
    for i := 0 to |cells|
      invariant LaidOut(column.values, kind)
      invariant WithRows(before, kind, cells[..i]) == Ok(column.View())
    {
      WithRowsSnoc(before, kind, cells, i);
      r := PushRow(column, kind, cells[i]);
      if r.Err? {
        WithRowsFail(before, kind, cells, i);
        assert StoppedAt(before, column.View(), kind, cells, i);
        return;
      }
    }
    assert cells[..|cells|] == cells;
    return Ok(());
  }

  /** One turn of `append_materialized_values`: the null flag goes first. */
  method PushRow(column: ConvertedColumn, kind: SourceKind, cell: SourceCell) returns (r: Result<()>)
    requires LaidOut(column.values, kind) && (cell.Some? ==> Fits(kind, cell.value))
    modifies column
    ensures var next := WithRow(old(column.View()), kind, cell);
      if next.Ok? then r == Ok(()) && column.View() == next.value && LaidOut(column.values, kind)
      else
        && r == Err(ArithOverflow) && cell.Some? && Store(kind, cell.value).Err?
        && column.View() == old(column.View()).(nulls := old(column.nulls) + [false])
  {
    SlotsFitLayout(column.values, kind);
    column.nulls := column.nulls + [cell.None?];
    if cell.None? {
      column.values := Pushed(column.values, Placeholder(kind));
      return Ok(());
    }
    var slot := Store(kind, cell.value);
    if slot.Err? {
      return Err(slot.error);
    }
    column.values := Pushed(column.values, slot.value);
    return Ok(());
  }

  // ---- what a stored number says ------------------------------------------------------------------------

  /** Half the range of a signed source value. */
  function HalfOf(kind: SourceKind): Option<int> {
    match kind
    case FromInt8 => Some(0x80)
    case FromInt16 => Some(0x8000)
    case FromInt32 | FromDate32 => Some(TWO_31)
    case FromInt64 | FromSeconds | FromMillis | FromMicros | FromNanos => Some(TWO_63)
    case _ => None
  }

  lemma ByteReads(number: u64, n: int)
    requires StandsFor(number, n, TWO_64) && -0x80 <= n < 0x80
    ensures LowSigned(number, 0x80) == n
  {
  }

  lemma ShortReads(number: u64, n: int)
    requires StandsFor(number, n, TWO_64) && -0x8000 <= n < 0x8000
    ensures LowSigned(number, 0x8000) == n
  {
  }

  lemma IntReads(number: u64, n: int)
    requires StandsFor(number, n, TWO_64) && -TWO_31 <= n < TWO_31
    ensures LowSigned(number, TWO_31) == n
  {
  }

  lemma LongReads(number: u64, n: int)
    requires StandsFor(number, n, TWO_64) && -TWO_63 <= n < TWO_63
    ensures LowSigned(number, TWO_63) == n
  {
  }

  /** The low bits of a stored number, as wide as its source, are the source's value in the column's unit; a value
      without a sign is stored as it is. */
  lemma StoredReads(kind: SourceKind, number: u64, v: SourceValue)
    requires Fits(kind, v) && v.Whole? && kind != FromDecimal128 && NumberHeld(number, kind, v.n)
    ensures HalfOf(kind).Some? ==> LowSigned(number, HalfOf(kind).value) == v.n * Scale(kind)
    ensures HalfOf(kind).None? ==> number == v.n
  {
    hide LowSigned;
    if HalfOf(kind) == Some(0x80) {
      ByteReads(number, v.n);
    } else if HalfOf(kind) == Some(0x8000) {
      ShortReads(number, v.n);
    } else if HalfOf(kind) == Some(TWO_31) {
      IntReads(number, v.n);
    } else if HalfOf(kind).Some? {
      LongReads(number, v.n * Scale(kind));
    }
  }

  /** Scaling tells values apart and keeps their order. */
  lemma ScaleKeepsOrder(kind: SourceKind, m: int, n: int)
    ensures m * Scale(kind) < n * Scale(kind) <==> m < n
    ensures m * Scale(kind) == n * Scale(kind) <==> m == n
  {
    var scale := Scale(kind);
    if scale == 1 {
    } else if scale == 1_000 {
    } else {
      assert scale == 1_000_000;
    }
  }

  /** A stored number stands for one value of its kind. */
  lemma HeldOnce(kind: SourceKind, number: u64, v: SourceValue, w: SourceValue)
    requires Fits(kind, v) && Fits(kind, w) && v.Whole? && w.Whole? && kind != FromDecimal128
    requires NumberHeld(number, kind, v.n) && NumberHeld(number, kind, w.n)
    ensures v == w
  {
    hide NumberHeld, Fits, Scale, HalfOf, LowSigned;
    StoredReads(kind, number, v);
    StoredReads(kind, number, w);
    ScaleKeepsOrder(kind, v.n, w.n);
  }
}
