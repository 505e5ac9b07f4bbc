/** Arrow export of NumCode and boolean pages: whole page, row list or bitset. */
module FixedWidthExport {
  import opened Wrappers
  import opened Wire
  import opened Bits
  import opened BitScan
  import opened BitPacking
  import opened ArrayPage
  import opened Selection

  // ---- what one row exports -----------------------------------------------------------------

  datatype Kind = UnsignedCode | SignedCode | BooleanByte

  /** One exported slot: its validity bit and its value, booleans as 0 and 1. */
  datatype Cell = Cell(valid: bool, value: nat)

  function Width(kind: Kind): nat {
    if kind == BooleanByte then 1 else 8
  }

  predicate Covered(kind: Kind, page: Page) {
    |page.data| >= page.rowCount * Width(kind)
  }

  function ReadCode(data: seq<byte>, row: nat): nat
    requires |data| >= 8 * row + 8
  {
    FromLE(data[8 * row..8 * row + 8])
  }

  /** A signed export rejects codes above `i64::MAX`; a boolean byte is checked even under a null. */
  function CellAt(kind: Kind, page: Page, hasNulls: bool, row: nat): Result<Cell>
    requires Covered(kind, page) && row < page.rowCount
  {
    if kind == BooleanByte then
      var byte := page.data[row];
      if byte > 1 then Err(PageCorrupt)
      else
        var isNull :- NullFlag(page, hasNulls, row);
        Ok(Cell(!isNull, if isNull then 0 else byte))
    else
      var isNull :- NullFlag(page, hasNulls, row);
      if isNull then Ok(Cell(false, 0))
      else
        var code := ReadCode(page.data, row);
        if kind == SignedCode && code >= TWO_63 then Err(PageCorrupt) else Ok(Cell(true, code))
  }

  /** The slots of a list of rows, in order; the first failing row decides the error. */
  function Gather(kind: Kind, page: Page, hasNulls: bool, rows: seq<nat>): (r: Result<seq<Cell>>)
    requires Covered(kind, page) && InRange(rows, page.rowCount)
    ensures r.Ok? ==> |r.value| == |rows|
  {
    if rows == [] then Ok([])
    else
      var done :- Gather(kind, page, hasNulls, rows[..|rows| - 1]);
      var cell :- CellAt(kind, page, hasNulls, rows[|rows| - 1]);
      Ok(done + [cell])
  }

  function ValuesOf(cells: seq<Cell>): (values: seq<nat>)
    ensures |values| == |cells| && forall i :: 0 <= i < |cells| ==> values[i] == cells[i].value
  {
    seq(|cells|, i requires 0 <= i < |cells| => cells[i].value)
  }

  function ValidOf(cells: seq<Cell>): (valid: seq<bool>)
    ensures |valid| == |cells| && forall i :: 0 <= i < |cells| ==> valid[i] == cells[i].valid
  {
    seq(|cells|, i requires 0 <= i < |cells| => cells[i].valid)
  }

  function BitsOf(cells: seq<Cell>): (bits: seq<bool>)
    ensures |bits| == |cells| && forall i :: 0 <= i < |cells| ==> bits[i] == (cells[i].value == 1)
  {
    seq(|cells|, i requires 0 <= i < |cells| => cells[i].value == 1)
  }

  datatype Codes = Codes(values: seq<nat>, nulls: Option<NullBuffer>)
  datatype Booleans = Booleans(bytes: seq<byte>, len: nat, nulls: Option<NullBuffer>)

  function ToCodes(cells: Result<seq<Cell>>): Result<Codes> {
    if cells.Err? then Err(cells.error)
    else Ok(Codes(ValuesOf(cells.value), NullsOf(ValidOf(cells.value))))
  }

  function ToBooleans(cells: Result<seq<Cell>>): Result<Booleans> {
    if cells.Err? then Err(cells.error)
    else Ok(Booleans(PackBits(BitsOf(cells.value)), |cells.value|, NullsOf(ValidOf(cells.value))))
  }

  // ---- facts about gathering --------------------------------------------------------------------

  lemma GatherSnoc(kind: Kind, page: Page, hasNulls: bool, rows: seq<nat>, row: nat)
    requires Covered(kind, page) && InRange(rows, page.rowCount) && row < page.rowCount
    ensures InRange(rows + [row], page.rowCount)
    ensures var done, cell := Gather(kind, page, hasNulls, rows), CellAt(kind, page, hasNulls, row);
      Gather(kind, page, hasNulls, rows + [row]) ==
        if done.Err? then done else if cell.Err? then Err(cell.error) else Ok(done.value + [cell.value])
  {
    assert (rows + [row])[..|rows|] == rows;
  }

  /** A failure on some prefix of the rows is the failure of the whole. */
  lemma {:induction false} GatherFails(kind: Kind, page: Page, hasNulls: bool, rows: seq<nat>, n: nat)
    requires Covered(kind, page) && InRange(rows, page.rowCount) && n <= |rows|
    requires InRange(rows[..n], page.rowCount) && Gather(kind, page, hasNulls, rows[..n]).Err?
    ensures Gather(kind, page, hasNulls, rows) == Gather(kind, page, hasNulls, rows[..n])
    decreases |rows|
  {
    hide CellAt;
    if n == |rows| {
      assert rows[..n] == rows;
    } else {
      var init := rows[..|rows| - 1];
      assert init[..n] == rows[..n];
      GatherFails(kind, page, hasNulls, init, n);
    }
  }

  /** Without nulls every slot is valid, so no null buffer comes out. */
  lemma {:induction false} AllValid(kind: Kind, page: Page, rows: seq<nat>)
    requires Covered(kind, page) && InRange(rows, page.rowCount) && Gather(kind, page, false, rows).Ok?
    ensures NullsOf(ValidOf(Gather(kind, page, false, rows).value)) == None
  {
    var cells := Gather(kind, page, false, rows).value;
    if rows != [] {
      AllValid(kind, page, rows[..|rows| - 1]);
      assert ValidOf(cells)[..|cells| - 1] == ValidOf(cells[..|cells| - 1]);
    }
  }

  // ---- the collecting loops ---------------------------------------------------------------------

  /** One turn of every loop below: a slot is read, and the builder, if any, gets its validity bit. */
  method CollectOne(kind: Kind, page: Page, hasNulls: bool, row: nat, builder: ArrowValidityBuilder?)
    returns (r: Result<Cell>)
    requires Covered(kind, page) && row < page.rowCount
    requires builder == null <==> !hasNulls
    requires builder != null ==> builder.Valid() && builder.pos < builder.len
    modifies builder
    ensures r == CellAt(kind, page, hasNulls, row)
    ensures builder != null ==> builder.Valid() && builder.len == old(builder.len)
    ensures builder != null && r.Ok? ==> builder.contents == old(builder.contents) + [r.value.valid]
  {
    hide PackBits, Falses;
    if kind == BooleanByte && page.data[row] > 1 {
      return Err(PageCorrupt);
    }
    var isNull := NullFlag(page, hasNulls, row);
    if isNull.Err? {
      return Err(isNull.error);
    }
    if builder != null {
      builder.Append(!isNull.value);
    }
    if kind == BooleanByte {
      return Ok(Cell(!isNull.value, if isNull.value then 0 else page.data[row]));
    }
    if isNull.value {
      return Ok(Cell(false, 0));
    }
    var code := ReadCode(page.data, row);
    if kind == SignedCode && code >= TWO_63 {
      return Err(PageCorrupt);
    }
    return Ok(Cell(true, code));
  }

  method FinishNulls(builder: ArrowValidityBuilder?, ghost kind: Kind, ghost page: Page, ghost rows: seq<nat>)
    returns (nulls: Option<NullBuffer>)
    requires Covered(kind, page) && InRange(rows, page.rowCount)
    requires Gather(kind, page, builder != null, rows).Ok?
    requires builder != null ==> builder.Valid() && builder.pos == builder.len
    requires builder != null ==> builder.contents == ValidOf(Gather(kind, page, true, rows).value)
    ensures nulls == NullsOf(ValidOf(Gather(kind, page, builder != null, rows).value))
  {
    hide Gather, PackBits;
    if builder == null {
      AllValid(kind, page, rows);
      return None;
    }
    nulls := builder.Finish();
  }

  lemma ValidSnoc(cells: seq<Cell>, cell: Cell)
    ensures ValidOf(cells + [cell]) == ValidOf(cells) + [cell.valid]
    ensures ValuesOf(cells + [cell]) == ValuesOf(cells) + [cell.value]
    ensures BitsOf(cells + [cell]) == BitsOf(cells) + [cell.value == 1]
  {
  }

  /** What a loop knows after the rows `done`: the slots read and the builder in step with them. */
  ghost predicate InStep(kind: Kind, page: Page, hasNulls: bool, builder: ArrowValidityBuilder?, done: seq<nat>,
      cells: seq<Cell>, total: nat)
    requires Covered(kind, page)
    reads builder
  {
    && (builder == null <==> !hasNulls)
    && InRange(done, page.rowCount) && Gather(kind, page, hasNulls, done) == Ok(cells)
    && (builder != null ==>
        builder.Valid() && builder.len == total && builder.contents == ValidOf(cells))
  }

  /** One turn of every loop: the slot of the next row joins the slots read so far. */
  method Advance(kind: Kind, page: Page, hasNulls: bool, row: nat, builder: ArrowValidityBuilder?,
      ghost done: seq<nat>, ghost cells: seq<Cell>, ghost total: nat)
    returns (r: Result<Cell>)
    requires Covered(kind, page) && row < page.rowCount && |done| < total
    requires InStep(kind, page, hasNulls, builder, done, cells, total)
    modifies builder
    ensures InRange(done + [row], page.rowCount)
    ensures r.Err? ==> Gather(kind, page, hasNulls, done + [row]) == Err(r.error)
    ensures r.Ok? ==> InStep(kind, page, hasNulls, builder, done + [row], cells + [r.value], total)
  {
    hide CellAt, PackBits, Falses, Gather, ValidOf;
    GatherSnoc(kind, page, hasNulls, done, row);
    r := CollectOne(kind, page, hasNulls, row, builder);
    if r.Ok? {
      ValidSnoc(cells, r.value);
    }
  }

  lemma StartInStep(kind: Kind, page: Page, hasNulls: bool, builder: ArrowValidityBuilder?, total: nat)
    requires Covered(kind, page) && (builder == null <==> !hasNulls)
    requires builder != null ==> builder.Valid() && builder.len == total && builder.contents == []
    ensures InStep(kind, page, hasNulls, builder, [], [], total)
  {
  }

  /** `collect_numcode_u64_rows` and `collect_numcode_i64_rows`. */
  method CollectCodesRows(kind: Kind, page: Page, rows: seq<nat>, hasNulls: bool) returns (r: Result<Codes>)
    requires kind != BooleanByte && Covered(kind, page) && InRange(rows, page.rowCount)
    ensures r == ToCodes(Gather(kind, page, hasNulls, rows))
  {
    hide Gather, NullsOf, ValidOf, ValuesOf;
    var out: seq<nat> := [];
    var builder := NewBuilder(hasNulls, |rows|);
    ghost var cells: seq<Cell> := [];
    StartInStep(kind, page, hasNulls, builder, |rows|);
    for i := 0 to |rows|
      invariant builder != null ==> fresh(builder)
      invariant InStep(kind, page, hasNulls, builder, rows[..i], cells, |rows|)
      invariant out == ValuesOf(cells)
    {
      hide InStep;
      assert rows[..i + 1] == rows[..i] + [rows[i]];
      var cell := Advance(kind, page, hasNulls, rows[i], builder, rows[..i], cells, |rows|);
      if cell.Err? {
        GatherFails(kind, page, hasNulls, rows, i + 1);
        return Err(cell.error);
      }
      ValidSnoc(cells, cell.value);
      out, cells := out + [cell.value.value], cells + [cell.value];
    }
    assert rows[..|rows|] == rows;
    var nulls := FinishNulls(builder, kind, page, rows);
    return Ok(Codes(out, nulls));
  }

  /** The rows handed to a gather are a prefix of the selected rows. */
  lemma PrefixFails(kind: Kind, page: Page, hasNulls: bool, done: seq<nat>, rows: seq<nat>)
    requires Covered(kind, page) && InRange(rows, page.rowCount) && done <= rows
    requires InRange(done, page.rowCount) && Gather(kind, page, hasNulls, done).Err?
    ensures Gather(kind, page, hasNulls, rows) == Gather(kind, page, hasNulls, done)
  {
    assert rows[..|done|] == done;
    GatherFails(kind, page, hasNulls, rows, |done|);
  }

  /** The inner loop over one word of the bitset. */
  method CollectCodesWord(kind: Kind, page: Page, words: seq<u64>, len: u64, index: nat, hasNulls: bool,
      builder: ArrowValidityBuilder?, ghost before: seq<Cell>)
    returns (out: Result<seq<nat>>, ghost cells: seq<Cell>)
    requires kind != BooleanByte && Covered(kind, page) && len == page.rowCount && index < WordLen(len) <= |words|
    requires InRange(BitRows(words, len), page.rowCount)
    requires InStep(kind, page, hasNulls, builder, RowsUpTo(words, len, index), before, |BitRows(words, len)|)
    modifies builder
    ensures out.Err? ==> Gather(kind, page, hasNulls, BitRows(words, len)) == Err(out.error)
    ensures out.Ok? ==> InStep(kind, page, hasNulls, builder, RowsUpTo(words, len, index + 1), before + cells,
      |BitRows(words, len)|)
    ensures out.Ok? ==> out.value == ValuesOf(cells)
  {
    hide Gather, CellAt, InStep, BitRows, SetBits, And, RowsUpTo, LoopWord, ValuesOf;
    var values: seq<nat> := [];
    cells := [];
    NoCells(before);
    ghost var done: seq<nat> := RowsUpTo(words, len, index);
    WordStart(words, len, index, done);
    var word := LoopWord(words, len, index);
    while word != 0
      invariant InStep(kind, page, hasNulls, builder, done, before + cells, |BitRows(words, len)|)
      invariant values == ValuesOf(cells)
      invariant done + Shifted(SetBits(word), 64 * index) == RowsUpTo(words, len, index + 1)
      decreases word
    {
      NextVisit(words, len, index, done, word);
      var row := 64 * index + TrailingZeros(word);
      var cell := Advance(kind, page, hasNulls, row, builder, done, before + cells, |BitRows(words, len)|);
      if cell.Err? {
        PrefixFails(kind, page, hasNulls, done + [row], BitRows(words, len));
        return Err(cell.error), [];
      }
      ValidSnoc(cells, cell.value);
      assert before + cells + [cell.value] == before + (cells + [cell.value]);
      values, cells, done := values + [cell.value.value], cells + [cell.value], done + [row];
      word := And(word, word - 1);
    }
    NoBitsLeft(done, 64 * index);
    return Ok(values), cells;
  }

  lemma NoCells(before: seq<Cell>)
    ensures before + [] == before && ValuesOf([]) == []
  {
  }

  lemma ValuesAppend(a: seq<Cell>, b: seq<Cell>)
    ensures ValuesOf(a + b) == ValuesOf(a) + ValuesOf(b)
  {
  }

  /** `collect_numcode_u64_bitset` and `collect_numcode_i64_bitset`: the same slots as the row list of
      the selected rows. */
  method CollectCodesBitset(kind: Kind, page: Page, words: seq<u64>, len: u64, hasNulls: bool)
    returns (r: Result<Codes>)
    requires kind != BooleanByte && Covered(kind, page) && len == page.rowCount && WordLen(len) <= |words|
    ensures InRange(BitRows(words, len), page.rowCount)
    ensures r == ToCodes(Gather(kind, page, hasNulls, BitRows(words, len)))
  {
    hide Gather, CellAt, NullsOf, PackBits, Falses, BitRows, ValidOf, ValuesOf;
    BitRowsInRange(words, len);
    var selected := CountBitsetRows(words, len);
    var out: seq<nat> := [];
    var builder := NewBuilder(hasNulls, selected.value);
    ghost var cells: seq<Cell> := [];
    StartInStep(kind, page, hasNulls, builder, |BitRows(words, len)|);
    for index := 0 to WordLen(len)
      invariant builder != null ==> fresh(builder)
      invariant InStep(kind, page, hasNulls, builder, RowsUpTo(words, len, index), cells, |BitRows(words, len)|)
      invariant out == ValuesOf(cells)
    {
      hide RowsUpTo;
      ghost var more;
      var values;
      values, more := CollectCodesWord(kind, page, words, len, index, hasNulls, builder, cells);
      if values.Err? {
        return Err(values.error);
      }
      ValuesAppend(cells, more);
      out, cells := out + values.value, cells + more;
    }
    AllVisited(words, len);
    var nulls := FinishNulls(builder, kind, page, BitRows(words, len));
    return Ok(Codes(out, nulls));
  }

  lemma AllVisited(words: seq<u64>, len: nat)
    requires WordLen(len) <= |words|
    ensures RowsUpTo(words, len, WordLen(len)) == BitRows(words, len)
  {
  }

  // ---- whole pages ----------------------------------------------------------------------------------

  /** What the signed export checks of every row before it copies the page. */
  predicate CodesFit(kind: Kind, page: Page, n: nat)
    requires kind != BooleanByte && Covered(kind, page) && n <= page.rowCount
  {
    forall row :: 0 <= row < n ==> kind == SignedCode ==> ReadCode(page.data, row) < TWO_63
  }

  /** The whole-page copy: the bytes of the page reread as little-endian codes. */
  function CopyCodes(data: seq<byte>, n: nat): (codes: seq<nat>)
    requires |data| >= 8 * n
    ensures |codes| == n && forall i :: 0 <= i < n ==> codes[i] == ReadCode(data, i)
  {
    seq(n, i requires 0 <= i < n => ReadCode(data, i))
  }

  lemma CopySnoc(data: seq<byte>, n: nat)
    requires |data| >= 8 * n + 8
    ensures CopyCodes(data, n + 1) == CopyCodes(data, n) + [ReadCode(data, n)]
  {
  }

  lemma GatherFirst(kind: Kind, page: Page, n: nat)
    requires kind != BooleanByte && Covered(kind, page) && n < page.rowCount
    ensures InRange(FirstRows(n), page.rowCount) && InRange(FirstRows(n + 1), page.rowCount)
    ensures var done, next := Gather(kind, page, false, FirstRows(n)), Gather(kind, page, false, FirstRows(n + 1));
      if done.Err? then next == done
      else if kind == SignedCode && ReadCode(page.data, n) >= TWO_63 then next == Err(PageCorrupt)
      else next.Ok? && ValuesOf(next.value) == ValuesOf(done.value) + [ReadCode(page.data, n)]
  {
    FirstSnoc(n);
    GatherSnoc(kind, page, false, FirstRows(n), n);
    hide Gather, ReadCode, FirstRows;
    if Gather(kind, page, false, FirstRows(n)).Ok? {
      ValidSnoc(Gather(kind, page, false, FirstRows(n)).value, Cell(true, ReadCode(page.data, n)));
    }
  }

  /** Without nulls, gathering every row copies the page, unless a signed code does not fit. */
  lemma {:induction false} GatherAllPresent(kind: Kind, page: Page, n: nat)
    requires kind != BooleanByte && Covered(kind, page) && n <= page.rowCount
    ensures InRange(FirstRows(n), page.rowCount)
    ensures var r := Gather(kind, page, false, FirstRows(n));
      if CodesFit(kind, page, n) then r.Ok? && ValuesOf(r.value) == CopyCodes(page.data, n)
      else r == Err(PageCorrupt)
  {
    hide ReadCode;
    if n == 0 {
      assert FirstRows(0) == [] && ValuesOf([]) == CopyCodes(page.data, 0);
    } else {
      hide Gather, CopyCodes, ValuesOf, FirstRows;
      GatherAllPresent(kind, page, n - 1);
      GatherFirst(kind, page, n - 1);
      CopySnoc(page.data, n - 1);
      assert CodesFit(kind, page, n) ==> CodesFit(kind, page, n - 1);
      assert CodesFit(kind, page, n - 1) ==>
        (CodesFit(kind, page, n) <==> !(kind == SignedCode && ReadCode(page.data, n - 1) >= TWO_63));
    }
  }

  /** `collect_numcode_u64_all` and `collect_numcode_i64_all`. */
  method CollectCodesAll(kind: Kind, page: Page, hasNulls: bool) returns (r: Result<Codes>)
    requires kind != BooleanByte && Covered(kind, page)
    ensures InRange(FirstRows(page.rowCount), page.rowCount)
    ensures r == ToCodes(Gather(kind, page, hasNulls, FirstRows(page.rowCount)))
  {
    hide Gather, CellAt, PackBits, ReadCode;
    if hasNulls {
      r := CollectCodesRows(kind, page, FirstRows(page.rowCount), true);
      return;
    }
    GatherAllPresent(kind, page, page.rowCount);
    if kind == SignedCode {
      for row := 0 to page.rowCount
        invariant CodesFit(kind, page, row)
      {
        if ReadCode(page.data, row) >= TWO_63 {
          assert !CodesFit(kind, page, page.rowCount);
          return Err(PageCorrupt);
        }
      }
    }
    AllValid(kind, page, FirstRows(page.rowCount));
    return Ok(Codes(CopyCodes(page.data, page.rowCount), None));
  }

  // ---- any selection --------------------------------------------------------------------------------

  /** `fixed_width_payload_prefix`: the page must hold a slot for every row. */
  function PayloadPrefix(kind: Kind, page: Page): Result<()> {
    if page.rowCount * Width(kind) >= TWO_64 then Err(ArithOverflow)
    else if |page.data| < page.rowCount * Width(kind) then Err(OffsetRange)
    else Ok(())
  }

  /** The simple form of every fixed-width export: turn the selection into rows, then read them one by one. */
  function ExportSpec(kind: Kind, page: Page, selection: RowSelection): Result<seq<Cell>> {
    var _ :- PayloadPrefix(kind, page);
    var hasNulls :- HasNulls(page);
    var rows :- SelectedRows(selection, page.rowCount);
    SelectedInRange(selection, page.rowCount);
    Gather(kind, page, hasNulls, rows)
  }

  /** `collect_numcode_u64_buffers` and `collect_numcode_i64_buffers`. */
  method ExportCodes(kind: Kind, page: Page, selection: RowSelection) returns (r: Result<Codes>)
    requires kind != BooleanByte
    ensures r == ToCodes(ExportSpec(kind, page, selection))
  {
    hide Gather, NullsOf, ValidOf, ValuesOf, BitRows, HasNulls;
    var prefix := PayloadPrefix(kind, page);
    if prefix.Err? {
      return Err(prefix.error);
    }
    var hasNulls := ArrayHasNulls(page);
    if hasNulls.Err? {
      return Err(hasNulls.error);
    }
    match selection {
      case All =>
        r := CollectCodesAll(kind, page, hasNulls.value);
      case Rows(rows) =>
        if !InRange(rows, page.rowCount) {
          return Err(OffsetRange);
        }
        r := CollectCodesRows(kind, page, rows, hasNulls.value);
      case Bitset(words, len) =>
        var check := ValidateBitset(words, len, page.rowCount);
        if check.Err? {
          return Err(check.error);
        }
        r := CollectCodesBitset(kind, page, words, len, hasNulls.value);
    }
  }

  /** A bitset exports exactly what the ascending list of its rows exports. */
  lemma BitsetExportIsRowExport(kind: Kind, page: Page, words: seq<u64>, rows: seq<u32>)
    requires WordLen(page.rowCount) <= |words| && IsBitRows(rows, words, page.rowCount)
    ensures ExportSpec(kind, page, Bitset(words, page.rowCount)) == ExportSpec(kind, page, Rows(rows))
  {
    BitRowsExact(words, page.rowCount);
    BitRowsUnique(rows, BitRows(words, page.rowCount), words, page.rowCount);
    SelectedInRange(Bitset(words, page.rowCount), page.rowCount);
  }

  // ---- slot by slot -----------------------------------------------------------------------------------

  lemma GatherNone(kind: Kind, page: Page, hasNulls: bool)
    requires Covered(kind, page)
    ensures Gather(kind, page, hasNulls, []) == Ok([])
  {
  }

  /** A gather succeeds exactly when each of its rows does, and holds their slots in order. */
  lemma {:induction false} GatherCells(kind: Kind, page: Page, hasNulls: bool, rows: seq<nat>)
    requires Covered(kind, page) && InRange(rows, page.rowCount)
    ensures var r := Gather(kind, page, hasNulls, rows);
      && (r.Ok? <==> forall i :: 0 <= i < |rows| ==> CellAt(kind, page, hasNulls, rows[i]).Ok?)
      && (r.Ok? ==> forall i :: 0 <= i < |rows| ==> CellAt(kind, page, hasNulls, rows[i]) == Ok(r.value[i]))
  {
    hide Gather, CellAt;
    if rows == [] {
      GatherNone(kind, page, hasNulls);
    } else {
      var init, row := rows[..|rows| - 1], rows[|rows| - 1];
      assert rows == init + [row];
      GatherCells(kind, page, hasNulls, init);
      GatherSnoc(kind, page, hasNulls, init, row);
      assert forall i :: 0 <= i < |init| ==> init[i] == rows[i];
    }
  }

  // ---- signed codes -----------------------------------------------------------------------------------

  /** The row is not null and its code exceeds `i64::MAX`. */
  predicate Exceeds(page: Page, hasNulls: bool, row: nat) {
    8 * row + 8 <= |page.data| && NullFlag(page, hasNulls, row) == Ok(false) && ReadCode(page.data, row) >= TWO_63
  }

  lemma SignedCell(page: Page, hasNulls: bool, row: nat)
    requires Covered(SignedCode, page) && row < page.rowCount
    ensures var plain, checked := CellAt(UnsignedCode, page, hasNulls, row), CellAt(SignedCode, page, hasNulls, row);
      (checked.Ok? <==> plain.Ok? && !Exceeds(page, hasNulls, row)) && (checked.Ok? ==> checked == plain)
  {
  }

  /** The signed export is the unsigned one, and fails beyond it exactly when a selected row that is not
      null has a code above `i64::MAX`. */
  lemma SignedExportExactly(page: Page, selection: RowSelection)
    ensures var plain, checked := ExportSpec(UnsignedCode, page, selection), ExportSpec(SignedCode, page, selection);
      && (plain.Ok? ==> HasNulls(page).Ok? && SelectedRows(selection, page.rowCount).Ok?)
      && (checked.Ok? <==> plain.Ok? && forall row ::
            row in SelectedRows(selection, page.rowCount).value ==> !Exceeds(page, HasNulls(page).value, row))
      && (checked.Ok? ==> checked == plain)
  {
    hide Gather, CellAt, Exceeds, HasNulls, SelectedRows;
    if PayloadPrefix(SignedCode, page).Ok? && HasNulls(page).Ok? && SelectedRows(selection, page.rowCount).Ok? {
      var hasNulls, rows := HasNulls(page).value, SelectedRows(selection, page.rowCount).value;
      SelectedInRange(selection, page.rowCount);
      GatherCells(UnsignedCode, page, hasNulls, rows);
      GatherCells(SignedCode, page, hasNulls, rows);
      forall i | 0 <= i < |rows|
        ensures var plain, checked := CellAt(UnsignedCode, page, hasNulls, rows[i]),
          CellAt(SignedCode, page, hasNulls, rows[i]);
          (checked.Ok? <==> plain.Ok? && !Exceeds(page, hasNulls, rows[i])) && (checked.Ok? ==> checked == plain)
      {
        SignedCell(page, hasNulls, rows[i]);
      }
      var plain, checked := Gather(UnsignedCode, page, hasNulls, rows), Gather(SignedCode, page, hasNulls, rows);
      if checked.Ok? {
        assert forall i :: 0 <= i < |rows| ==> checked.value[i] == plain.value[i];
        assert checked.value == plain.value;
      }
    }
  }
}
