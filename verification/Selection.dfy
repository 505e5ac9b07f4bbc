/** Row selections and the word-at-a-time bitset traversal (`ArrowRowSelection`). */
module Selection {
  import opened Wrappers
  import opened Sequences
  import opened Bits
  import opened BitScan

  datatype RowSelection = All | Rows(rows: seq<u32>) | Bitset(words: seq<u64>, len: u64)

  function WordLen(len: nat): nat {
    (len + 63) / 64
  }

  /** Row `row` is selected: its bit is set in its word. */
  predicate Selected(words: seq<u64>, row: nat) {
    row / 64 < |words| && Bit(words[row / 64], row % 64)
  }

  /** What a traversal of the bitset must produce: the selected rows below `len`, ascending. */
  ghost predicate IsBitRows(rows: seq<nat>, words: seq<u64>, len: nat) {
    StrictlyAscending(rows) && forall r: nat :: r in rows <==> r < len && Selected(words, r)
  }

  lemma BitRowsUnique(a: seq<nat>, b: seq<nat>, words: seq<u64>, len: nat)
    requires IsBitRows(a, words, len) && IsBitRows(b, words, len)
    ensures a == b
  {
    forall x ensures x in a <==> x in b {
      assert x in a ==> x >= 0;
      assert x in b ==> x >= 0;
    }
    StrictlySortedUnique(a, b, (x: nat, y: nat) => x < y);
  }

  // ---- one word -----------------------------------------------------------------------------

  /** The word the loop looks at: the last one loses its bits at or beyond `len`. */
  function LoopWord(words: seq<u64>, len: nat, index: nat): nat
    requires index < |words|
  {
    if index + 1 == WordLen(len) then MaskSelectionTail(words[index], len) else words[index]
  }

  lemma LoopWordBit(words: seq<u64>, len: nat, index: nat, i: nat)
    requires index < WordLen(len) <= |words|
    ensures Bit(LoopWord(words, len, index), i) <==> i < 64 && 64 * index + i < len && Selected(words, 64 * index + i)
  {
    Pow2Values();
    TailSplit(len, index, i);
    MaskedBits(words[index], len, i);
    if i >= 64 {
      HighBitsClear(words[index], 64, i);
    } else {
      assert (64 * index + i) / 64 == index && (64 * index + i) % 64 == i;
    }
  }

  lemma TailSplit(len: nat, index: nat, i: nat)
    requires index < WordLen(len)
    ensures index + 1 == WordLen(len) ==>
      (i < (if len % 64 == 0 then 64 else len % 64) <==> 64 * index + i < len)
    ensures index + 1 < WordLen(len) && i < 64 ==> 64 * index + i < len
  {
  }

  function Shifted(bits: seq<nat>, base: nat): (r: seq<nat>)
    ensures |r| == |bits| && forall i :: 0 <= i < |bits| ==> r[i] == base + bits[i]
  {
    seq(|bits|, i requires 0 <= i < |bits| => base + bits[i])
  }

  /** Adding the rows of one more word to the rows of the words before it. */
  lemma ExtendByWord(rows: seq<nat>, words: seq<u64>, len: nat, index: nat)
    requires index < WordLen(len) <= |words|
    requires IsBitRows(rows, words, Min(64 * index, len))
    ensures IsBitRows(rows + Shifted(SetBits(LoopWord(words, len, index)), 64 * index), words,
      Min(64 * (index + 1), len))
  {
    var bits := SetBits(LoopWord(words, len, index));
    var more := Shifted(bits, 64 * index);
    SetBitsExact(LoopWord(words, len, index));
    hide SetBits, LoopWord, Selected, WordLen;
    forall i, j | 0 <= i < |rows| && 0 <= j < |more| ensures rows[i] < more[j] {
      assert rows[i] in rows;
    }
    forall r: nat ensures r in rows + more <==> r < Min(64 * (index + 1), len) && Selected(words, r) {
      InShifted(bits, 64 * index, r);
      if r >= 64 * index {
        LoopWordBit(words, len, index, r - 64 * index);
      }
    }
  }

  lemma InShifted(bits: seq<nat>, base: nat, r: nat)
    ensures r in Shifted(bits, base) <==> r >= base && (r - base) in bits
  {
    if r >= base && (r - base) in bits {
      var i :| 0 <= i < |bits| && bits[i] == r - base;
      assert Shifted(bits, base)[i] == r;
    }
  }

  function Min(a: nat, b: nat): nat {
    if a < b then a else b
  }

  /** The rows the traversal visits in the first `k` words, in the order it visits them. */
  function RowsUpTo(words: seq<u64>, len: nat, k: nat): seq<nat>
    requires k <= WordLen(len) <= |words|
  {
    if k == 0 then []
    else RowsUpTo(words, len, k - 1) + Shifted(SetBits(LoopWord(words, len, k - 1)), 64 * (k - 1))
  }

  function BitRows(words: seq<u64>, len: nat): seq<nat>
    requires WordLen(len) <= |words|
  {
    RowsUpTo(words, len, WordLen(len))
  }

  lemma {:induction false} RowsUpToExact(words: seq<u64>, len: nat, k: nat)
    requires k <= WordLen(len) <= |words|
    ensures IsBitRows(RowsUpTo(words, len, k), words, Min(64 * k, len))
  {
    hide SetBits, LoopWord, Selected;
    if k > 0 {
      RowsUpToExact(words, len, k - 1);
      ExtendByWord(RowsUpTo(words, len, k - 1), words, len, k - 1);
    }
  }

  /** The traversal visits exactly the selected rows below `len`, ascending, once each. */
  lemma BitRowsExact(words: seq<u64>, len: nat)
    requires WordLen(len) <= |words|
    ensures IsBitRows(BitRows(words, len), words, len)
  {
    RowsUpToExact(words, len, WordLen(len));
  }

  lemma {:induction false} RowsUpToPrefix(words: seq<u64>, len: nat, k: nat, m: nat)
    requires k <= m <= WordLen(len) <= |words|
    ensures RowsUpTo(words, len, k) <= RowsUpTo(words, len, m)
  {
    hide SetBits, LoopWord;
    if k < m {
      RowsUpToPrefix(words, len, k, m - 1);
    }
  }

  /** A row about to be visited continues the rows visited so far. */
  lemma NextVisit(words: seq<u64>, len: nat, index: nat, done: seq<nat>, word: nat)
    requires index < WordLen(len) <= |words| && word > 0
    requires done + Shifted(SetBits(word), 64 * index) == RowsUpTo(words, len, index + 1)
    ensures done + [64 * index + TrailingZeros(word)] <= BitRows(words, len)
    ensures 64 * index + TrailingZeros(word) < len && |done| < |BitRows(words, len)|
    ensures And(word, word - 1) < word
    ensures done + [64 * index + TrailingZeros(word)] + Shifted(SetBits(And(word, word - 1)), 64 * index)
            == RowsUpTo(words, len, index + 1)
  {
    hide SetBits, RowsUpTo, Selected, And, TrailingZeros, Shifted, LoopWord;
    TakeLowest(done, word, 64 * index);
    RowsUpToPrefix(words, len, index + 1, WordLen(len));
    BitRowsExact(words, len);
    var row := 64 * index + TrailingZeros(word);
    assert done + [row] <= RowsUpTo(words, len, index + 1);
    assert BitRows(words, len)[|done|] == row;
    assert row in BitRows(words, len);
  }

  lemma WordStart(words: seq<u64>, len: nat, index: nat, done: seq<nat>)
    requires index < WordLen(len) <= |words| && done == RowsUpTo(words, len, index)
    ensures done + Shifted(SetBits(LoopWord(words, len, index)), 64 * index) == RowsUpTo(words, len, index + 1)
  {
  }

  // ---- the selection API ----------------------------------------------------------------------

  predicate InRange(rows: seq<nat>, rowCount: nat) {
    forall i :: 0 <= i < |rows| ==> rows[i] < rowCount
  }

  function ValidateBitset(words: seq<u64>, len: nat, rowCount: nat): Result<()> {
    if len != rowCount then Err(OffsetRange)
    else if |words| < WordLen(len) then Err(BufferTooShort)
    else Ok(())
  }

  function FirstRows(n: nat): (rows: seq<nat>)
    ensures |rows| == n && forall i :: 0 <= i < n ==> rows[i] == i
  {
    seq(n, i requires i >= 0 => i)
  }

  /** `for_each_row`, with a visitor that collects its rows. */
  method ToRows(selection: RowSelection, rowCount: u64) returns (r: Result<seq<nat>>)
    ensures selection.All? ==> r == Ok(FirstRows(rowCount))
    ensures selection.Rows? ==> r == if InRange(selection.rows, rowCount) then Ok(selection.rows) else Err(OffsetRange)
    ensures selection.Bitset? ==>
      var check := ValidateBitset(selection.words, selection.len, rowCount);
      if check.Err? then r == Err(check.error)
      else r == Ok(BitRows(selection.words, selection.len))
  {
    var rows: seq<nat> := [];
    match selection {
      case All =>
        for row := 0 to rowCount
          invariant rows == FirstRows(row)
        {
          rows := rows + [row];
        }
        return Ok(rows);
      case Rows(chosen) =>
        for i := 0 to |chosen|
          invariant rows == chosen[..i] && InRange(chosen[..i], rowCount)
        {
          if chosen[i] >= rowCount {
            assert !InRange(chosen, rowCount);
            return Err(OffsetRange);
          }
          rows := rows + [chosen[i]];
        }
        assert chosen[..|chosen|] == chosen;
        return Ok(rows);
      case Bitset(words, len) =>
        if len != rowCount {
          return Err(OffsetRange);
        }
        var wordLen := WordLen(len);
        if |words| < wordLen {
          return Err(BufferTooShort);
        }
        rows := BitsetRows(words, len);
        return Ok(rows);
    }
  }

  /** The traversal: word by word, clearing the lowest set bit until the word is empty. */
  method BitsetRows(words: seq<u64>, len: u64) returns (rows: seq<nat>)
    requires WordLen(len) <= |words|
    ensures rows == BitRows(words, len)
  {
    hide SetBits, And, LoopWord, Shifted, TrailingZeros;
    rows := [];
    for index := 0 to WordLen(len)
      invariant rows == RowsUpTo(words, len, index)
    {
      hide RowsUpTo;
      WordStart(words, len, index, rows);
      var word := LoopWord(words, len, index);
      while word != 0
        invariant rows + Shifted(SetBits(word), 64 * index) == RowsUpTo(words, len, index + 1)
        decreases word
      {
        NextVisit(words, len, index, rows, word);
        rows := rows + [64 * index + TrailingZeros(word)];
        word := And(word, word - 1);
      }
      NoBitsLeft(rows, 64 * index);
    }
  }

  lemma TakeLowest(rows: seq<nat>, word: nat, base: nat)
    requires word > 0
    ensures And(word, word - 1) < word
    ensures rows + Shifted(SetBits(word), base) ==
            rows + [base + TrailingZeros(word)] + Shifted(SetBits(And(word, word - 1)), base)
  {
    ClearLowest(word, 0);
    var rest := SetBits(And(word, word - 1));
    assert SetBits(word) == [TrailingZeros(word)] + rest;
    hide SetBits, And;
    assert Shifted([TrailingZeros(word)] + rest, base) == [base + TrailingZeros(word)] + Shifted(rest, base);
  }

  lemma NoBitsLeft(rows: seq<nat>, base: nat)
    ensures rows + Shifted(SetBits(0), base) == rows
  {
  }

  /** `count_bitset_rows` is the number of rows the traversal visits. */
  method CountBitsetRows(words: seq<u64>, len: u64) returns (r: Result<nat>)
    ensures r == if |words| < WordLen(len) then Err(BufferTooShort) else Ok(|BitRows(words, len)|)
  {
    hide SetBits, LoopWord;
    if |words| < WordLen(len) {
      return Err(BufferTooShort);
    }
    var count := 0;
    for index := 0 to WordLen(len)
      invariant count == |RowsUpTo(words, len, index)|
    {
      var word := LoopWord(words, len, index);
      SetBitsExact(word);
      count := count + CountOnes(word);
    }
    return Ok(count);
  }

  /** `words.get(index).unwrap_or(0)`, with the tail masked: missing words select nothing. */
  function WordOrZero(words: seq<u64>, len: nat, index: nat): nat {
    var word := if index < |words| then words[index] else 0;
    if index + 1 == WordLen(len) then MaskSelectionTail(word, len) else word
  }

  lemma WordOrZeroBit(words: seq<u64>, len: nat, index: nat, i: nat)
    requires index < WordLen(len)
    ensures Bit(WordOrZero(words, len, index), i) <==> i < 64 && 64 * index + i < len && Selected(words, 64 * index + i)
  {
    Pow2Values();
    TailSplit(len, index, i);
    var word := if index < |words| then words[index] else 0;
    MaskedBits(word, len, i);
    if i >= 64 {
      HighBitsClear(word, 64, i);
    } else {
      assert (64 * index + i) / 64 == index && (64 * index + i) % 64 == i;
      ZeroBits(i);
    }
  }

  /** `last_selected_bitset_row`, scanning the words from the end, is the greatest selected row. */
  method LastSelectedBitsetRow(words: seq<u64>, len: u64) returns (r: Option<nat>)
    ensures r.None? <==> forall row: nat :: row < len ==> !Selected(words, row)
    ensures r.Some? ==> r.value < len && Selected(words, r.value)
    ensures r.Some? ==> forall row: nat :: row < len && Selected(words, row) ==> row <= r.value
  {
    hide Selected, WordOrZero;
    var index := WordLen(len);
    while index > 0
      invariant index <= WordLen(len)
      invariant forall row: nat :: 64 * index <= row < len ==> !Selected(words, row)
    {
      index := index - 1;
      var word := WordOrZero(words, len, index);
      forall row: nat | 64 * index <= row < len && row < 64 * index + 64
        ensures Selected(words, row) <==> Bit(word, row - 64 * index)
      {
        WordOrZeroBit(words, len, index, row - 64 * index);
      }
      if word != 0 {
        var top := TopBit(word);
        TopIsLast(words, len, index);
        return Some(64 * index + top);
      }
      forall row: nat | 64 * index <= row < len ensures !Selected(words, row) {
        if row < 64 * index + 64 {
          ZeroBits(row - 64 * index);
        }
      }
    }
    return None;
  }

  lemma TopIsLast(words: seq<u64>, len: nat, index: nat)
    requires index < WordLen(len) && WordOrZero(words, len, index) > 0
    ensures var last := 64 * index + TopBit(WordOrZero(words, len, index));
      && last < len && Selected(words, last)
      && forall row: nat :: row < len && row < 64 * index + 64 && Selected(words, row) ==> row <= last
  {
    hide Selected, WordOrZero;
    var word := WordOrZero(words, len, index);
    var top := TopBit(word);
    HighestBit(word, 0);
    WordOrZeroBit(words, len, index, top);
    forall row: nat | row < len && row < 64 * index + 64 && Selected(words, row) ensures row <= 64 * index + top {
      if row >= 64 * index {
        WordOrZeroBit(words, len, index, row - 64 * index);
        HighestBit(word, row - 64 * index);
      }
    }
  }

  lemma BitRowsInRange(words: seq<u64>, len: nat)
    requires WordLen(len) <= |words|
    ensures InRange(BitRows(words, len), len)
  {
    BitRowsExact(words, len);
    forall i | 0 <= i < |BitRows(words, len)| ensures BitRows(words, len)[i] < len {
      assert BitRows(words, len)[i] in BitRows(words, len);
    }
  }

  /** The rows a selection names, or why it is refused. */
  function SelectedRows(selection: RowSelection, rowCount: u64): (r: Result<seq<nat>>)
  {
    match selection
    case All => Ok(FirstRows(rowCount))
    case Rows(rows) => if InRange(rows, rowCount) then Ok(rows) else Err(OffsetRange)
    case Bitset(words, len) =>
      var _ :- ValidateBitset(words, len, rowCount);
      Ok(BitRows(words, len))
  }

  /** A row list is taken exactly when its rows are rows of the page, and then as it is; a bitset exactly when it has
      one bit for every row of the page, and then as the rows whose bit is set. */
  lemma SelectionMeans(selection: RowSelection, rowCount: u64, row: nat)
    ensures selection.All? ==>
      SelectedRows(selection, rowCount).Ok? && (row in SelectedRows(selection, rowCount).value <==> row < rowCount)
    ensures selection.Rows? ==>
      (SelectedRows(selection, rowCount) == Ok(selection.rows) <==> InRange(selection.rows, rowCount))
    ensures selection.Rows? && SelectedRows(selection, rowCount).Ok? ==>
      SelectedRows(selection, rowCount).value == selection.rows
    ensures selection.Bitset? ==>
      (SelectedRows(selection, rowCount).Ok? <==> selection.len == rowCount <= 64 * |selection.words|)
    ensures selection.Bitset? && SelectedRows(selection, rowCount).Ok? ==>
      (row in SelectedRows(selection, rowCount).value <==> row < rowCount && Selected(selection.words, row))
  {
    if selection.Bitset? && SelectedRows(selection, rowCount).Ok? {
      BitRowsExact(selection.words, selection.len);
    }
    hide BitRows;
    if selection.All? && row < rowCount {
      assert FirstRows(rowCount)[row] == row;
    }
  }

  lemma SelectedInRange(selection: RowSelection, rowCount: u64)
    requires SelectedRows(selection, rowCount).Ok?
    ensures InRange(SelectedRows(selection, rowCount).value, rowCount)
  {
    if selection.Bitset? {
      BitRowsInRange(selection.words, selection.len);
    }
  }

  lemma FirstSnoc(n: nat)
    ensures FirstRows(n + 1) == FirstRows(n) + [n]
  {
  }
}
