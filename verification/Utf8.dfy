/** UTF-8 well-formedness (section 4 of RFC 3629) and the exporter's check of a whole string column
    at once: one pass over the row boundaries and one over the concatenated bytes. */
module Utf8 {
  import opened Wrappers

  /** A byte of the form 10xxxxxx: `(b & 0b1100_0000) == 0b1000_0000`. */
  predicate IsTail(b: byte) {
    b / 64 == 2
  }

  /** Length of the character at the head of `s`; 0 when no well-formed character starts there. */
  function CharLen(s: seq<byte>): (n: nat)
    ensures n <= |s|
    ensures n > 0 ==> !IsTail(s[0])
    ensures forall k :: 1 <= k < n ==> IsTail(s[k])
  {
    if s == [] then 0
    else if s[0] <= 0x7F then 1
    else if |s| >= 2 && 0xC2 <= s[0] <= 0xDF && IsTail(s[1]) then 2
    else if |s| >= 3 && IsTail(s[2]) && (
        || (s[0] == 0xE0 && 0xA0 <= s[1] <= 0xBF)
        || (0xE1 <= s[0] <= 0xEC && IsTail(s[1]))
        || (s[0] == 0xED && 0x80 <= s[1] <= 0x9F)
        || (0xEE <= s[0] <= 0xEF && IsTail(s[1])))
    then 3
    else if |s| >= 4 && IsTail(s[2]) && IsTail(s[3]) && (
        || (s[0] == 0xF0 && 0x90 <= s[1] <= 0xBF)
        || (0xF1 <= s[0] <= 0xF3 && IsTail(s[1]))
        || (s[0] == 0xF4 && 0x80 <= s[1] <= 0x8F))
    then 4
    else 0
  }

  predicate Utf8Valid(s: seq<byte>) {
    s == [] || (CharLen(s) > 0 && Utf8Valid(s[CharLen(s)..]))
  }

  predicate IsAscii(s: seq<byte>) {
    forall k :: 0 <= k < |s| ==> s[k] < 0x80
  }

  lemma {:induction false} AsciiIsValid(s: seq<byte>)
    requires IsAscii(s)
    ensures Utf8Valid(s)
  {
    if s != [] {
      AsciiIsValid(s[1..]);
    }
  }

  /** Only the bytes of the character itself decide its length. */
  lemma CharLenLocal(s: seq<byte>, t: seq<byte>)
    requires 0 < CharLen(s) <= |t|
    requires forall k :: 0 <= k < CharLen(s) ==> s[k] == t[k]
    ensures CharLen(t) == CharLen(s)
  {
  }

  lemma {:induction false} ValidConcat(a: seq<byte>, b: seq<byte>)
    requires Utf8Valid(a) && Utf8Valid(b)
    ensures Utf8Valid(a + b)
  {
    hide CharLen;
    if a == [] {
      assert a + b == b;
    } else {
      var n := CharLen(a);
      ValidConcat(a[n..], b);
      CharLenLocal(a, a + b);
      assert (a + b)[n..] == a[n..] + b;
    }
  }

  /** A valid string may be cut at any place where no continuation byte starts. */
  lemma {:induction false} ValidCut(s: seq<byte>, k: nat)
    requires Utf8Valid(s) && k <= |s|
    requires k < |s| ==> !IsTail(s[k])
    ensures Utf8Valid(s[..k]) && Utf8Valid(s[k..])
  {
    hide CharLen;
    if k > 0 {
      var n := CharLen(s);
      assert k >= n;
      ValidCut(s[n..], k - n);
      CharLenLocal(s, s[..k]);
      assert s[..k][n..] == s[n..][..k - n];
      assert s[k..] == s[n..][k - n..];
    } else {
      assert s[..k] == [] && s[k..] == s;
    }
  }

  // ---- the column check -------------------------------------------------------------------

  /** Arrow offsets into a buffer of `len` bytes: from 0, never decreasing, up to the end. */
  predicate WellFormedOffsets(offsets: seq<int>, len: nat) {
    && |offsets| >= 1 && offsets[0] == 0 && offsets[|offsets| - 1] == len
    && forall i :: 0 < i < |offsets| ==> offsets[i - 1] <= offsets[i]
  }

  /** What the boundary pass asks of row `i`. */
  predicate BoundaryOk(offsets: seq<int>, values: seq<byte>, i: nat)
    requires i + 1 < |offsets|
  {
    && 0 <= offsets[i] <= offsets[i + 1] <= |values|
    && (offsets[i] != 0 && offsets[i] != offsets[i + 1] ==> !IsTail(values[offsets[i]]))
  }

  /** `validate_utf8_offsets_slice`. The SIMD validator it ends with decides `Utf8Valid`. */
  method ValidateUtf8OffsetsSlice(offsets: seq<int>, values: seq<byte>) returns (r: Result<()>)
    ensures r.Ok? <==> (forall i :: 0 <= i < |offsets| - 1 ==> BoundaryOk(offsets, values, i)) && Utf8Valid(values)
    ensures r.Err? ==> r.error == OffsetRange || r.error == BadSection
    ensures WellFormedOffsets(offsets, |values|) ==> (r.Ok? <==> RowsValid(offsets, values))
  {
    if WellFormedOffsets(offsets, |values|) {
      ConcatenatedCheckIsRowwise(offsets, values);
    }
    var i := 0;
    while i + 1 < |offsets|
      invariant 0 <= i && (i == 0 || i < |offsets|)
      invariant forall j :: 0 <= j < i ==> BoundaryOk(offsets, values, j)
    {
      var start, end := offsets[i], offsets[i + 1];
      if start < 0 || end < 0 {
        assert !BoundaryOk(offsets, values, i);
        return Err(OffsetRange);
      }
      if start > end || end > |values| {
        assert !BoundaryOk(offsets, values, i);
        return Err(OffsetRange);
      }
      if start != 0 && start != end && values[start] / 64 == 2 {
        assert !BoundaryOk(offsets, values, i);
        return Err(BadSection);
      }
      i := i + 1;
    }
    var ascii := true;
    for k := 0 to |values|
      invariant ascii <==> IsAscii(values[..k])
    {
      ascii := ascii && values[k] < 0x80;
    }
    assert values[..|values|] == values;
    if ascii {
      AsciiIsValid(values);
      return Ok(());
    }
    if Utf8Valid(values) {
      return Ok(());
    }
    return Err(BadSection);
  }

  /** Row `i`, taken on its own, is valid UTF-8. */
  predicate RowValid(offsets: seq<int>, values: seq<byte>, i: nat)
    requires i + 1 < |offsets|
  {
    0 <= offsets[i] <= offsets[i + 1] <= |values| && Utf8Valid(values[offsets[i]..offsets[i + 1]])
  }

  predicate RowsValid(offsets: seq<int>, values: seq<byte>) {
    forall i :: 0 <= i < |offsets| - 1 ==> RowValid(offsets, values, i)
  }

  lemma {:induction false} OffsetsOrdered(offsets: seq<int>, len: nat, i: nat, j: nat)
    requires WellFormedOffsets(offsets, len) && i <= j < |offsets|
    ensures offsets[i] <= offsets[j]
    decreases j - i
  {
    if i < j {
      OffsetsOrdered(offsets, len, i + 1, j);
    }
  }

  /** The column check decides row by row validity. */
  lemma ConcatenatedCheckIsRowwise(offsets: seq<int>, values: seq<byte>)
    requires WellFormedOffsets(offsets, |values|)
    ensures (forall i :: 0 <= i < |offsets| - 1 ==> BoundaryOk(offsets, values, i)) && Utf8Valid(values)
            <==> RowsValid(offsets, values)
  {
    var n := |offsets| - 1;
    OffsetsOrdered(offsets, |values|, 0, n);
    if (forall i :: 0 <= i < n ==> BoundaryOk(offsets, values, i)) && Utf8Valid(values) {
      assert values[offsets[0]..] == values;
      BoundariesGiveRows(offsets, values, 0);
    }
    if RowsValid(offsets, values) {
      RowsGiveBoundaries(offsets, values, 0);
      assert values[offsets[0]..] == values;
    }
  }

  lemma {:induction false} BoundariesGiveRows(offsets: seq<int>, values: seq<byte>, i: nat)
    requires WellFormedOffsets(offsets, |values|) && i < |offsets|
    requires forall j :: 0 <= j < |offsets| - 1 ==> BoundaryOk(offsets, values, j)
    requires Utf8Valid(values)
    requires 0 <= offsets[i] <= |values| && Utf8Valid(values[offsets[i]..])
    ensures forall j :: i <= j < |offsets| - 1 ==> RowValid(offsets, values, j)
    decreases |offsets| - i
  {
    if i + 1 < |offsets| {
      assert BoundaryOk(offsets, values, i);
      var start, end := offsets[i], offsets[i + 1];
      if end < |values| {
        NoTailAtBoundary(offsets, values, i + 1);
      }
      CutSuffix(values, start, end);
      BoundariesGiveRows(offsets, values, i + 1);
    }
  }

  lemma CutSuffix(values: seq<byte>, start: nat, end: nat)
    requires start <= end <= |values| && Utf8Valid(values[start..])
    requires end < |values| ==> !IsTail(values[end])
    ensures Utf8Valid(values[start..end]) && Utf8Valid(values[end..])
  {
    var rest := values[start..];
    ValidCut(rest, end - start);
    assert rest[..end - start] == values[start..end];
    assert rest[end - start..] == values[end..];
  }

  /** The first non-empty row from `i` on starts at `offsets[i]`, so that byte has been looked at. */
  lemma {:induction false} NoTailAtBoundary(offsets: seq<int>, values: seq<byte>, i: nat)
    requires WellFormedOffsets(offsets, |values|) && 0 < i < |offsets|
    requires forall j :: 0 <= j < |offsets| - 1 ==> BoundaryOk(offsets, values, j)
    requires 0 <= offsets[i] < |values|
    requires Utf8Valid(values)
    ensures !IsTail(values[offsets[i]])
    decreases |offsets| - i
  {
    if offsets[i] != 0 {
      assert i + 1 < |offsets|;
      assert BoundaryOk(offsets, values, i);
      if offsets[i] == offsets[i + 1] {
        NoTailAtBoundary(offsets, values, i + 1);
      }
    }
  }

  lemma HeadIsNoTail(s: seq<byte>)
    requires Utf8Valid(s) && s != []
    ensures !IsTail(s[0])
  {
  }

  lemma {:induction false} RowsGiveBoundaries(offsets: seq<int>, values: seq<byte>, i: nat)
    requires WellFormedOffsets(offsets, |values|) && i < |offsets|
    requires RowsValid(offsets, values)
    ensures 0 <= offsets[i] <= |values| && Utf8Valid(values[offsets[i]..])
    ensures forall j :: i <= j < |offsets| - 1 ==> BoundaryOk(offsets, values, j)
    decreases |offsets| - i
  {
    hide CharLen, Utf8Valid;
    OffsetsOrdered(offsets, |values|, 0, i);
    if i + 1 < |offsets| {
      RowsGiveBoundaries(offsets, values, i + 1);
      assert RowValid(offsets, values, i);
      var row := values[offsets[i]..offsets[i + 1]];
      ValidConcat(row, values[offsets[i + 1]..]);
      assert values[offsets[i]..] == row + values[offsets[i + 1]..];
      assert row != [] ==> row[0] == values[offsets[i]];
      if row != [] {
        HeadIsNoTail(row);
      }
    } else {
      assert values[offsets[i]..] == [];
      AsciiIsValid([]);
    }
  }
}
