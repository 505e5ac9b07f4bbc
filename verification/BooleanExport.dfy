/** Arrow export of boolean pages: bits packed eight or sixteen rows at a time, or row by row. */
module BooleanExport {
  import opened Wrappers
  import opened Bits
  import opened BitScan
  import opened BitPacking
  import opened Validity
  import opened ArrayPage
  import opened Selection
  import opened FixedWidthExport

  // ---- booleans -----------------------------------------------------------------------------------

  /** `collect_bool_rows`. */
  method CollectBoolRows(page: Page, rows: seq<nat>, hasNulls: bool) returns (r: Result<Booleans>)
    requires Covered(BooleanByte, page) && InRange(rows, page.rowCount)
    ensures r == ToBooleans(Gather(BooleanByte, page, hasNulls, rows))
  {
    hide Gather, NullsOf, PackBits, Falses, ValidOf, BitsOf;
    var values := NewBits(|rows|);
    var builder := NewBuilder(hasNulls, |rows|);
    ghost var cells: seq<Cell> := [];
    StartInStep(BooleanByte, page, hasNulls, builder, |rows|);
    for i := 0 to |rows|
      invariant builder != null ==> fresh(builder)
      invariant InStep(BooleanByte, page, hasNulls, builder, rows[..i], cells, |rows|)
      invariant |cells| == i && values == PackBits(BitsOf(cells) + Falses(|rows| - i))
    {
      hide InStep;
      assert rows[..i + 1] == rows[..i] + [rows[i]];
      var cell := Advance(BooleanByte, page, hasNulls, rows[i], builder, rows[..i], cells, |rows|);
      if cell.Err? {
        GatherFails(BooleanByte, page, hasNulls, rows, i + 1);
        return Err(cell.error);
      }
      ValidSnoc(cells, cell.value);
      values := WriteNext(values, i, cell.value.value == 1, BitsOf(cells), |rows|);
      cells := cells + [cell.value];
    }
    assert rows[..|rows|] == rows;
    NothingPadded(BitsOf(cells));
    var nulls := FinishNulls(builder, BooleanByte, page, rows);
    return Ok(Booleans(values, |rows|, nulls));
  }

  method NewBits(len: nat) returns (values: seq<byte>)
    ensures values == PackBits(BitsOf([]) + Falses(len))
  {
    PackedFalses(len);
    values := seq(BitpackedLen(len), _ => 0);
    hide PackBits, Falses;
    assert BitsOf([]) + Falses(len) == Falses(len);
  }

  lemma NothingPadded(bits: seq<bool>)
    ensures bits + Falses(0) == bits
  {
  }

  /** The inner loop over one word of the bitset. */
  method CollectBoolWord(page: Page, words: seq<u64>, len: u64, index: nat, hasNulls: bool,
      builder: ArrowValidityBuilder?, values: seq<byte>, outRow: nat, ghost before: seq<Cell>)
    returns (r: Result<(seq<byte>, nat)>, ghost cells: seq<Cell>)
    requires Covered(BooleanByte, page) && len == page.rowCount && index < WordLen(len) <= |words|
    requires InRange(BitRows(words, len), page.rowCount)
    requires InStep(BooleanByte, page, hasNulls, builder, RowsUpTo(words, len, index), before, |BitRows(words, len)|)
    requires |before| == |RowsUpTo(words, len, index)| == outRow <= |BitRows(words, len)|
    requires values == PackBits(BitsOf(before) + Falses(|BitRows(words, len)| - outRow))
    modifies builder
    ensures r.Err? ==> Gather(BooleanByte, page, hasNulls, BitRows(words, len)) == Err(r.error)
    ensures r.Ok? ==> InStep(BooleanByte, page, hasNulls, builder, RowsUpTo(words, len, index + 1), cells,
      |BitRows(words, len)|)
    ensures r.Ok? ==> |cells| == |RowsUpTo(words, len, index + 1)| == r.value.1 <= |BitRows(words, len)|
    ensures r.Ok? ==> r.value.0 == PackBits(BitsOf(cells) + Falses(|BitRows(words, len)| - r.value.1))
  {
    hide Gather, InStep, PackBits, Falses, BitRows, SetBits, And, RowsUpTo, LoopWord, BitsOf;
    var bytes, next := values, outRow;
    cells := before;
    ghost var done: seq<nat> := RowsUpTo(words, len, index);
    ghost var total := |BitRows(words, len)|;
    WordStart(words, len, index, done);
    var word := LoopWord(words, len, index);
    while word != 0
      invariant InStep(BooleanByte, page, hasNulls, builder, done, cells, total)
      invariant |done| == |cells| == next <= total
      invariant bytes == PackBits(BitsOf(cells) + Falses(total - next))
      invariant done + Shifted(SetBits(word), 64 * index) == RowsUpTo(words, len, index + 1)
      decreases word
    {
      NextVisit(words, len, index, done, word);
      var row := 64 * index + TrailingZeros(word);
      var cell := Advance(BooleanByte, page, hasNulls, row, builder, done, cells, total);
      if cell.Err? {
        PrefixFails(BooleanByte, page, hasNulls, done + [row], BitRows(words, len));
        return Err(cell.error), [];
      }
      ValidSnoc(cells, cell.value);
      bytes := WriteNext(bytes, next, cell.value.value == 1, BitsOf(cells), total);
      next, cells, done := next + 1, cells + [cell.value], done + [row];
      word := And(word, word - 1);
    }
    NoBitsLeft(done, 64 * index);
    return Ok((bytes, next)), cells;
  }

  /** `collect_bool_bitset`: the same slots as the row list of the selected rows. */
  method CollectBoolBitset(page: Page, words: seq<u64>, len: u64, hasNulls: bool) returns (r: Result<Booleans>)
    requires Covered(BooleanByte, page) && len == page.rowCount && WordLen(len) <= |words|
    ensures InRange(BitRows(words, len), page.rowCount)
    ensures r == ToBooleans(Gather(BooleanByte, page, hasNulls, BitRows(words, len)))
  {
    hide Gather, CellAt, NullsOf, PackBits, Falses, BitRows, ValidOf, BitsOf;
    BitRowsInRange(words, len);
    var selected := CountBitsetRows(words, len);
    var selectedLen := selected.value;
    var values := NewBits(selectedLen);
    var builder := NewBuilder(hasNulls, selectedLen);
    var outRow := 0;
    ghost var cells: seq<Cell> := [];
    StartInStep(BooleanByte, page, hasNulls, builder, selectedLen);
    for index := 0 to WordLen(len)
      invariant builder != null ==> fresh(builder)
      invariant InStep(BooleanByte, page, hasNulls, builder, RowsUpTo(words, len, index), cells, selectedLen)
      invariant |cells| == |RowsUpTo(words, len, index)| == outRow <= selectedLen
      invariant values == PackBits(BitsOf(cells) + Falses(selectedLen - outRow))
    {
      hide RowsUpTo;
      var word;
      word, cells := CollectBoolWord(page, words, len, index, hasNulls, builder, values, outRow, cells);
      if word.Err? {
        return Err(word.error);
      }
      values, outRow := word.value.0, word.value.1;
    }
    AllVisited(words, len);
    NothingPadded(BitsOf(cells));
    var nulls := FinishNulls(builder, BooleanByte, page, BitRows(words, len));
    return Ok(Booleans(values, selectedLen, nulls));
  }

  // ---- booleans eight and sixteen at a time ---------------------------------------------------------

  predicate BoolBytes(data: seq<byte>) {
    forall k :: 0 <= k < |data| ==> data[k] <= 1
  }

  lemma OrAboveOne(a: nat, b: nat)
    ensures Or(a, b) > 1 <==> a > 1 || b > 1
  {
    OrZero(a / 2, b / 2);
    assert a > 0 && b > 0 ==> Or(a, b) / 2 == Or(a / 2, b / 2);
  }

  function BoolBits(data: seq<byte>): (bits: seq<bool>)
    ensures |bits| == |data| && forall i :: 0 <= i < |data| ==> bits[i] == (data[i] == 1)
  {
    seq(|data|, i requires 0 <= i < |data| => data[i] == 1)
  }

  /** `b0 | (b1 << 1) | .. | (b_(n-1) << (n-1))`. */
  function ShiftedOr(chunk: seq<byte>, n: nat): nat
    requires n <= |chunk|
  {
    if n == 0 then 0 else Or(ShiftedOr(chunk, n - 1), Shl(chunk[n - 1], n - 1))
  }

  lemma {:induction false} ShiftedOrBit(chunk: seq<byte>, n: nat, i: nat)
    requires n <= |chunk| && BoolBytes(chunk)
    ensures Bit(ShiftedOr(chunk, n), i) <==> i < n && chunk[i] == 1
  {
    if n == 0 {
      ZeroBits(i);
    } else {
      var head := ShiftedOr(chunk, n - 1);
      OrBit(head, Shl(chunk[n - 1], n - 1), i);
      ShiftedOrBit(chunk, n - 1, i);
      ShlMul(chunk[n - 1], n - 1);
      if chunk[n - 1] == 1 {
        Pow2Bit(n - 1, i);
      } else {
        ZeroBits(i);
      }
    }
  }

  /** `pack_bool_chunk_8`: one comparison of the OR of eight bytes checks them all. */
  method PackBoolChunk8(chunk: seq<byte>) returns (r: Result<byte>)
    requires |chunk| == 8
    ensures r == if BoolBytes(chunk) then Ok(PackBits(BoolBits(chunk))[0]) else Err(PageCorrupt)
  {
    var all := Or(Or(Or(Or(Or(Or(Or(chunk[0], chunk[1]), chunk[2]), chunk[3]), chunk[4]), chunk[5]), chunk[6]),
      chunk[7]);
    EightBytes(chunk);
    if all > 1 {
      return Err(PageCorrupt);
    }
    PackedChunk(chunk);
    return Ok(ShiftedOr(chunk, 8));
  }

  lemma EightBytes(c: seq<byte>)
    requires |c| == 8
    ensures Or(Or(Or(Or(Or(Or(Or(c[0], c[1]), c[2]), c[3]), c[4]), c[5]), c[6]), c[7]) > 1 <==> !BoolBytes(c)
  {
    hide Or;
    var o1 := Or(c[0], c[1]);
    var o2 := Or(o1, c[2]);
    var o3 := Or(o2, c[3]);
    var o4 := Or(o3, c[4]);
    var o5 := Or(o4, c[5]);
    var o6 := Or(o5, c[6]);
    OrAboveOne(c[0], c[1]);
    OrAboveOne(o1, c[2]);
    OrAboveOne(o2, c[3]);
    OrAboveOne(o3, c[4]);
    OrAboveOne(o4, c[5]);
    OrAboveOne(o5, c[6]);
    OrAboveOne(o6, c[7]);
  }

  lemma PackedChunk(chunk: seq<byte>)
    requires |chunk| == 8 && BoolBytes(chunk)
    ensures ShiftedOr(chunk, 8) == PackBits(BoolBits(chunk))[0]
  {
    hide ShiftedOr, PackBits, Bit;
    var packed := PackBits(BoolBits(chunk))[0];
    forall i: nat ensures Bit(ShiftedOr(chunk, 8), i) == Bit(packed, i) {
      ShiftedOrBit(chunk, 8, i);
      PackedBit(BoolBits(chunk), 0, i);
    }
    BitsDetermine(ShiftedOr(chunk, 8), packed);
  }

  /** Bit by bit: a byte of eight more bits behind a whole number of bytes. */
  lemma PackedByteBit(bits: seq<bool>, chunk: seq<bool>, rest: nat, k: nat, m: nat, j: nat)
    requires |bits| == 8 * k && |chunk| == 8 && m < |PackBits(bits + chunk + Falses(rest))|
    ensures Bit(PackBits(bits + chunk + Falses(rest))[m], j) <==>
      if m == k then Bit(PackBits(chunk)[0], j) else Bit(PackBits(bits + Falses(8 + rest))[m], j)
  {
    hide PackBits, Bit, Falses;
    PackedBit(bits + chunk + Falses(rest), m, j);
    if m == k {
      PackedBit(chunk, 0, j);
    } else {
      PackedBit(bits + Falses(8 + rest), m, j);
    }
  }

  lemma PackedByteStep(bits: seq<bool>, chunk: seq<bool>, rest: nat, k: nat)
    requires |bits| == 8 * k && |chunk| == 8
    ensures PackBits(bits + Falses(8 + rest))[k := PackBits(chunk)[0]] == PackBits(bits + chunk + Falses(rest))
  {
    var before, after := PackBits(bits + Falses(8 + rest)), PackBits(bits + chunk + Falses(rest));
    hide PackBits, Bit, Falses;
    forall m: nat, j: nat | m < |after| ensures Bit(before[k := PackBits(chunk)[0]][m], j) == Bit(after[m], j) {
      PackedByteBit(bits, chunk, rest, k, m, j);
    }
    BytesFromBits(before[k := PackBits(chunk)[0]], after);
  }

  function Word16(low: nat, high: nat): nat {
    low + 256 * high
  }

  /** `pack_bool_chunk_16`: a 16-bit word whose low byte holds the first eight rows. */
  method PackBoolChunk16(chunk: seq<byte>) returns (r: Result<nat>)
    requires |chunk| == 16
    ensures r == if BoolBytes(chunk)
      then Ok(Word16(PackBits(BoolBits(chunk[..8]))[0], PackBits(BoolBits(chunk[8..]))[0]))
      else Err(PageCorrupt)
  {
    hide PackBits;
    assert chunk == chunk[..8] + chunk[8..];
    var low := PackBoolChunk8(chunk[..8]);
    if low.Err? {
      return Err(low.error);
    }
    var high := PackBoolChunk8(chunk[8..]);
    if high.Err? {
      return Err(high.error);
    }
    Pow2Values();
    ShlMul(high.value, 8);
    OrDisjoint(low.value, high.value, 8);
    return Ok(Or(low.value, Shl(high.value, 8)));
  }

  lemma BoolBitsSplit(data: seq<byte>, n: nat)
    requires n <= |data|
    ensures BoolBits(data) == BoolBits(data[..n]) + BoolBits(data[n..])
    ensures BoolBytes(data) <==> BoolBytes(data[..n]) && BoolBytes(data[n..])
  {
    assert data == data[..n] + data[n..];
    forall k | n <= k < |data| ensures data[k] == data[n..][k - n] {
    }
  }

  /** The two bytes of a chunk land behind the chunks before it. */
  method WriteChunk(values: seq<byte>, k: nat, word: nat, ghost before: seq<bool>, ghost low: seq<bool>,
      ghost high: seq<bool>, ghost rest: nat)
    returns (r: seq<byte>)
    requires |before| == 8 * k && |low| == |high| == 8
    requires values == PackBits(before + Falses(16 + rest))
    requires word == Word16(PackBits(low)[0], PackBits(high)[0])
    ensures r == PackBits(before + (low + high) + Falses(rest))
  {
    hide PackBits, Falses;
    PackedByteStep(before, low, 8 + rest, k);
    PackedByteStep(before + low, high, rest, k + 1);
    assert before + low + high == before + (low + high);
    assert word % 256 == PackBits(low)[0] && word / 256 == PackBits(high)[0];
    r := values[k := word % 256][k + 1 := word / 256];
  }

  /** Without nulls, gathering every row reads the bytes as booleans, unless one is neither 0 nor 1. */
  lemma {:induction false} GatherAllBooleans(page: Page, n: nat)
    requires Covered(BooleanByte, page) && n <= page.rowCount
    ensures InRange(FirstRows(n), page.rowCount)
    ensures var r := Gather(BooleanByte, page, false, FirstRows(n));
      if BoolBytes(page.data[..n]) then r.Ok? && BitsOf(r.value) == BoolBits(page.data[..n])
      else r == Err(PageCorrupt)
  {
    if n == 0 {
      assert FirstRows(0) == [] && BitsOf([]) == BoolBits(page.data[..0]);
    } else {
      GatherAllBooleans(page, n - 1);
      FirstSnoc(n - 1);
      GatherSnoc(BooleanByte, page, false, FirstRows(n - 1), n - 1);
      hide Gather, FirstRows;
      assert page.data[..n][..n - 1] == page.data[..n - 1];
      assert page.data[..n][n - 1..] == [page.data[n - 1]];
      BoolBitsSplit(page.data[..n], n - 1);
      OneBoolean(page.data[n - 1]);
      if Gather(BooleanByte, page, false, FirstRows(n - 1)).Ok? {
        ValidSnoc(Gather(BooleanByte, page, false, FirstRows(n - 1)).value, Cell(true, page.data[n - 1]));
      }
    }
  }

  lemma OneBoolean(b: byte)
    ensures BoolBits([b]) == [b == 1] && (BoolBytes([b]) <==> b <= 1)
  {
    assert [b][0] == b;
  }

  /** The chunks of sixteen rows. */
  method CollectBoolChunks(data: seq<byte>) returns (r: Result<seq<byte>>)
    ensures var done := 16 * (|data| / 16);
      r == if BoolBytes(data[..done])
           then Ok(PackBits(BoolBits(data[..done]) + Falses(|data| - done)))
           else Err(PageCorrupt)
  {
    hide PackBits, Falses, BoolBits;
    var values := NewBits(|data|);
    NoBits(data);
    for w := 0 to |data| / 16
      invariant BoolBytes(data[..16 * w])
      invariant values == PackBits(BoolBits(data[..16 * w]) + Falses(|data| - 16 * w))
    {
      ghost var before := data[..16 * w];
      var chunk := data[16 * w..16 * w + 16];
      ChunkSplit(data, w);
      var word := PackBoolChunk16(chunk);
      if word.Err? {
        BoolBytesPrefix(data, 16 * w + 16, 16 * (|data| / 16));
        return Err(PageCorrupt);
      }
      values := WriteChunk(values, 2 * w, word.value, BoolBits(before), BoolBits(chunk[..8]), BoolBits(chunk[8..]),
        |data| - 16 * w - 16);
    }
    return Ok(values);
  }

  lemma NoBits(data: seq<byte>)
    ensures BoolBits(data[..0]) == [] && BitsOf([]) == []
  {
  }

  lemma ChunkSplit(data: seq<byte>, w: nat)
    requires 16 * w + 16 <= |data|
    ensures var chunk := data[16 * w..16 * w + 16];
      && BoolBits(data[..16 * w + 16]) == BoolBits(data[..16 * w]) + (BoolBits(chunk[..8]) + BoolBits(chunk[8..]))
      && (BoolBytes(data[..16 * w + 16]) <==> BoolBytes(data[..16 * w]) && BoolBytes(chunk))
  {
    var upTo, chunk := data[..16 * w + 16], data[16 * w..16 * w + 16];
    assert upTo[..16 * w] == data[..16 * w] && upTo[16 * w..] == chunk;
    BoolBitsSplit(upTo, 16 * w);
    BoolBitsSplit(chunk, 8);
  }

  lemma BoolBytesPrefix(data: seq<byte>, n: nat, m: nat)
    requires n <= m <= |data|
    ensures BoolBytes(data[..m]) ==> BoolBytes(data[..n])
  {
    assert data[..m][..n] == data[..n];
    BoolBitsSplit(data[..m], n);
  }

  /** The rows behind the last whole chunk, one bit at a time. */
  method CollectBoolTail(data: seq<byte>, start: nat, bytes: seq<byte>) returns (r: Result<seq<byte>>)
    requires start <= |data| && BoolBytes(data[..start])
    requires bytes == PackBits(BoolBits(data[..start]) + Falses(|data| - start))
    ensures r == if BoolBytes(data) then Ok(PackBits(BoolBits(data))) else Err(PageCorrupt)
  {
    hide PackBits, Falses, BoolBits;
    var values := bytes;
    for row := start to |data|
      invariant BoolBytes(data[..row])
      invariant values == PackBits(BoolBits(data[..row]) + Falses(|data| - row))
    {
      if data[row] > 1 {
        assert !BoolBytes(data);
        return Err(PageCorrupt);
      }
      OneMore(data, row);
      values := WriteNext(values, row, data[row] == 1, BoolBits(data[..row]), |data|);
    }
    assert data[..|data|] == data;
    NothingPadded(BoolBits(data));
    return Ok(values);
  }

  lemma OneMore(data: seq<byte>, row: nat)
    requires row < |data|
    ensures BoolBits(data[..row + 1]) == BoolBits(data[..row]) + [data[row] == 1]
  {
  }

  /** `collect_bool_all`. */
  method CollectBoolAll(page: Page, hasNulls: bool) returns (r: Result<Booleans>)
    requires Covered(BooleanByte, page)
    ensures InRange(FirstRows(page.rowCount), page.rowCount)
    ensures r == ToBooleans(Gather(BooleanByte, page, hasNulls, FirstRows(page.rowCount)))
  {
    hide Gather, PackBits, Falses, BoolBits;
    if hasNulls {
      r := CollectBoolRows(page, FirstRows(page.rowCount), true);
      return;
    }
    var data := page.data[..page.rowCount];
    GatherAllBooleans(page, page.rowCount);
    var done := 16 * (|data| / 16);
    BoolBytesPrefix(data, done, |data|);
    assert data[..|data|] == data;
    var chunks := CollectBoolChunks(data);
    if chunks.Err? {
      return Err(chunks.error);
    }
    var values := CollectBoolTail(data, done, chunks.value);
    if values.Err? {
      return Err(values.error);
    }
    AllValid(BooleanByte, page, FirstRows(page.rowCount));
    return Ok(Booleans(values.value, page.rowCount, None));
  }

  /** `plain_bool_array_for_selection`. */
  method ExportBooleans(page: Page, selection: RowSelection) returns (r: Result<Booleans>)
    ensures r == ToBooleans(ExportSpec(BooleanByte, page, selection))
  {
    hide Gather, PackBits, BitRows, HasNulls;
    var prefix := PayloadPrefix(BooleanByte, page);
    if prefix.Err? {
      return Err(prefix.error);
    }
    var hasNulls := ArrayHasNulls(page);
    if hasNulls.Err? {
      return Err(hasNulls.error);
    }
    match selection {
      case All =>
        r := CollectBoolAll(page, hasNulls.value);
      case Rows(rows) =>
        if !InRange(rows, page.rowCount) {
          return Err(OffsetRange);
        }
        r := CollectBoolRows(page, rows, hasNulls.value);
      case Bitset(words, len) =>
        var check := ValidateBitset(words, len, page.rowCount);
        if check.Err? {
          return Err(check.error);
        }
        r := CollectBoolBitset(page, words, len, hasNulls.value);
    }
  }
}
