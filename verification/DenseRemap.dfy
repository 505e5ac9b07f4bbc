/** Arrow dictionary keys of a FileCode page: the raw codes, or dense keys into the entries a selection uses. */
module DenseRemap {
  import opened Wrappers
  import opened Sequences
  import opened Ordered
  import opened FieldCodec
  import opened BitPacking
  import opened ArrayPage
  import opened Selection

  /** A dictionary key array: one key per selected row, 0 under a null. */
  datatype Keys = Keys(keys: seq<nat>, nulls: Option<NullBuffer>)

  /** The FileCode of a selected row, or null. */
  type RowCode = Option<u32>

  predicate CodesCovered(page: Page) {
    |page.data| >= 4 * page.rowCount
  }

  function CodeAt(page: Page, hasNulls: bool, row: nat): Result<RowCode>
    requires CodesCovered(page) && row < page.rowCount
  {
    var isNull :- NullFlag(page, hasNulls, row);
    Ok(if isNull then None else Some(U32At(page.data, 4 * row)))
  }

  function RowCodes(page: Page, hasNulls: bool, rows: seq<nat>): (r: Result<seq<RowCode>>)
    requires CodesCovered(page) && InRange(rows, page.rowCount)
    ensures r.Ok? ==> |r.value| == |rows|
  {
    if rows == [] then Ok([])
    else
      var done :- RowCodes(page, hasNulls, rows[..|rows| - 1]);
      var code :- CodeAt(page, hasNulls, rows[|rows| - 1]);
      Ok(done + [code])
  }

  function NotNull(codes: seq<RowCode>): (valid: seq<bool>)
    ensures |valid| == |codes| && forall i :: 0 <= i < |codes| ==> valid[i] == codes[i].Some?
  {
    seq(|codes|, i requires 0 <= i < |codes| => codes[i].Some?)
  }

  /** The codes of the rows that are not null, in row order. */
  function PresentCodes(codes: seq<RowCode>): seq<int> {
    if codes == [] then []
    else PresentCodes(codes[..|codes| - 1]) + (if codes[|codes| - 1].Some? then [codes[|codes| - 1].value] else [])
  }

  lemma {:induction false} PresentMembers(codes: seq<RowCode>, c: u32)
    ensures c in PresentCodes(codes) <==> Some(c) in codes
  {
    if codes != [] {
      PresentMembers(codes[..|codes| - 1], c);
      assert codes == codes[..|codes| - 1] + [codes[|codes| - 1]];
    }
  }

  lemma {:induction false} PresentAreCodes(codes: seq<RowCode>, i: nat)
    requires i < |PresentCodes(codes)|
    ensures 0 <= PresentCodes(codes)[i] < TWO_32
  {
    if i < |PresentCodes(codes[..|codes| - 1])| {
      PresentAreCodes(codes[..|codes| - 1], i);
    }
  }

  lemma RowCodesSnoc(page: Page, hasNulls: bool, rows: seq<nat>, row: nat)
    requires CodesCovered(page) && InRange(rows, page.rowCount) && row < page.rowCount
    ensures InRange(rows + [row], page.rowCount)
    ensures var done, code := RowCodes(page, hasNulls, rows), CodeAt(page, hasNulls, row);
      RowCodes(page, hasNulls, rows + [row]) ==
        if done.Err? then done else if code.Err? then Err(code.error) else Ok(done.value + [code.value])
  {
    assert (rows + [row])[..|rows|] == rows;
  }

  lemma {:induction false} RowCodesFail(page: Page, hasNulls: bool, rows: seq<nat>, n: nat)
    requires CodesCovered(page) && InRange(rows, page.rowCount) && n < |rows|
    requires CodeAt(page, hasNulls, rows[n]).Err?
    ensures RowCodes(page, hasNulls, rows).Err?
  {
    if n < |rows| - 1 {
      RowCodesFail(page, hasNulls, rows[..|rows| - 1], n);
    }
  }

  lemma {:induction false} RowCodesEach(page: Page, hasNulls: bool, rows: seq<nat>, i: nat)
    requires CodesCovered(page) && InRange(rows, page.rowCount) && i < |rows| && RowCodes(page, hasNulls, rows).Ok?
    ensures CodeAt(page, hasNulls, rows[i]) == Ok(RowCodes(page, hasNulls, rows).value[i])
  {
    if i < |rows| - 1 {
      RowCodesEach(page, hasNulls, rows[..|rows| - 1], i);
    }
  }

  // ---- the two forms ------------------------------------------------------------------------------

  /** The codes a selection uses, each once, ascending: the keys of `dense_by_code`. */
  function UsedCodes(codes: seq<RowCode>): seq<int> {
    Collect(PresentCodes(codes), Less)
  }

  function RawKey(code: RowCode): nat {
    if code.Some? then code.value else 0
  }

  /** The dense key of a code: its place among the used codes. */
  function DenseKey(used: seq<int>, code: RowCode): nat
    requires code.Some? ==> code.value in used
  {
    if code.Some? then Position(used, code.value) else 0
  }

  lemma {:induction false} UsedMembers(codes: seq<RowCode>, i: nat)
    requires i < |codes| && codes[i].Some?
    ensures codes[i].value in UsedCodes(codes)
  {
    PresentMembers(codes, codes[i].value);
    CollectMembers(PresentCodes(codes), Less, codes[i].value);
  }

  function RawKeys(codes: seq<RowCode>): (keys: seq<nat>)
    ensures |keys| == |codes| && forall i :: 0 <= i < |codes| ==> keys[i] == RawKey(codes[i])
  {
    seq(|codes|, i requires 0 <= i < |codes| => RawKey(codes[i]))
  }

  predicate Covers(used: seq<int>, codes: seq<RowCode>) {
    forall i :: 0 <= i < |codes| && codes[i].Some? ==> codes[i].value in used
  }

  function DenseKeys(used: seq<int>, codes: seq<RowCode>): (keys: seq<nat>)
    requires Covers(used, codes)
    ensures |keys| == |codes| && forall i :: 0 <= i < |codes| ==> keys[i] == DenseKey(used, codes[i])
  {
    seq(|codes|, i requires 0 <= i < |codes| => DenseKey(used, codes[i]))
  }

  lemma UsedCovers(codes: seq<RowCode>)
    ensures Covers(UsedCodes(codes), codes)
  {
    forall i | 0 <= i < |codes| && codes[i].Some? ensures codes[i].value in UsedCodes(codes) {
      UsedMembers(codes, i);
    }
  }

  /** The dictionary of the remapped form: the entries of the used codes, in order. */
  function Entries<V>(entry: nat -> Result<V>, used: seq<int>): (r: Result<seq<V>>)
    requires forall i :: 0 <= i < |used| ==> used[i] >= 0
    ensures r.Ok? ==> |r.value| == |used| && forall i :: 0 <= i < |used| ==> entry(used[i]) == Ok(r.value[i])
  {
    if used == [] then Ok([])
    else
      var done :- Entries(entry, used[..|used| - 1]);
      var last :- entry(used[|used| - 1]);
      Ok(done + [last])
  }

  /** The remapped dictionary holds each used code once, in ascending order, and nothing else. */
  lemma UsedExactly(codes: seq<RowCode>, c: u32)
    ensures SortedBy(UsedCodes(codes), Less)
    ensures c in UsedCodes(codes) <==> Some(c) in codes
    ensures forall i :: 0 <= i < |UsedCodes(codes)| ==> 0 <= UsedCodes(codes)[i] < TWO_32
  {
    LessIsStrict();
    CollectSorts(PresentCodes(codes), Less);
    CollectMembers(PresentCodes(codes), Less, c);
    PresentMembers(codes, c);
    forall i | 0 <= i < |UsedCodes(codes)| ensures 0 <= UsedCodes(codes)[i] < TWO_32 {
      CollectMembers(PresentCodes(codes), Less, UsedCodes(codes)[i]);
      var j :| 0 <= j < |PresentCodes(codes)| && PresentCodes(codes)[j] == UsedCodes(codes)[i];
      PresentAreCodes(codes, j);
    }
  }

  /** The whole remap: keys and dictionary. */
  datatype Remapped<V> = Remapped(keys: Keys, values: seq<V>)

  function RemapCodes<V>(entry: nat -> Result<V>, codes: seq<RowCode>): Result<Remapped<V>> {
    UsedExactly(codes, 0);
    UsedCovers(codes);
    var used := UsedCodes(codes);
    var values :- Entries(entry, used);
    Ok(Remapped(Keys(DenseKeys(used, codes), NullsOf(NotNull(codes))), values))
  }

  /** The raw form: the FileCodes themselves, into the whole file dictionary. */
  function RawCodes(codes: seq<RowCode>): Keys {
    Keys(RawKeys(codes), NullsOf(NotNull(codes)))
  }

  /** Remapping preserves the column: nulls are the same, and a row's dense key finds the entry that its
      FileCode names. Keys order as the FileCodes do, and tell them apart. */
  lemma RemapPreservesColumn<V>(entry: nat -> Result<V>, codes: seq<RowCode>, i: nat, j: nat)
    requires RemapCodes(entry, codes).Ok? && i < |codes| && j < |codes|
    ensures var dense, raw := RemapCodes(entry, codes).value, RawCodes(codes);
      && dense.keys.nulls == raw.nulls && |dense.keys.keys| == |raw.keys| == |codes|
      && (codes[i].Some? ==>
            && dense.keys.keys[i] < |dense.values|
            && entry(raw.keys[i]) == Ok(dense.values[dense.keys.keys[i]]))
      && (codes[i].Some? && codes[j].Some? ==>
            && (dense.keys.keys[i] == dense.keys.keys[j] <==> raw.keys[i] == raw.keys[j])
            && (dense.keys.keys[i] < dense.keys.keys[j] <==> raw.keys[i] < raw.keys[j]))
  {
    var used := UsedCodes(codes);
    UsedExactly(codes, 0);
    UsedCovers(codes);
    hide UsedCodes, NullsOf;
    if codes[i].Some? && codes[j].Some? {
      var p, q := Position(used, codes[i].value), Position(used, codes[j].value);
      assert p < q ==> Less(used[p], used[q]);
      assert q < p ==> Less(used[q], used[p]);
    }
  }

  // ---- the loops ------------------------------------------------------------------------------------

  /** The rows of a selection on a page that holds a code for each of its rows. */
  function SelectedCodes(page: Page, selection: RowSelection): Result<seq<RowCode>> {
    if page.rowCount * 4 >= TWO_64 then Err(ArithOverflow)
    else if |page.data| < page.rowCount * 4 then Err(OffsetRange)
    else
      var hasNulls :- HasNulls(page);
      var rows :- SelectedRows(selection, page.rowCount);
      SelectedInRange(selection, page.rowCount);
      RowCodes(page, hasNulls, rows)
  }

  /** The first pass: the codes in use. */
  method CollectUsed(page: Page, hasNulls: bool, rows: seq<nat>)
    returns (r: Result<seq<int>>, ghost codes: seq<RowCode>)
    requires CodesCovered(page) && InRange(rows, page.rowCount)
    ensures r.Ok? <==> RowCodes(page, hasNulls, rows).Ok?
    ensures r.Ok? ==> RowCodes(page, hasNulls, rows) == Ok(codes) && r.value == UsedCodes(codes)
  {
    hide RowCodes;
    var used: seq<int> := [];
    codes := [];
    NoCodes(page, hasNulls);
    for i := 0 to |rows|
      invariant RowCodes(page, hasNulls, rows[..i]) == Ok(codes) && used == UsedCodes(codes)
    {
      assert rows[..i + 1] == rows[..i] + [rows[i]];
      RowCodesSnoc(page, hasNulls, rows[..i], rows[i]);
      var code := CodeAt(page, hasNulls, rows[i]);
      if code.Err? {
        RowCodesFail(page, hasNulls, rows, i);
        return Err(code.error), [];
      }
      UsedSnoc(codes, code.value);
      if code.value.Some? {
        used := InsertUnique(code.value.value, used, Less);
      }
      codes := codes + [code.value];
    }
    assert rows[..|rows|] == rows;
    return Ok(used), codes;
  }

  lemma UsedSnoc(codes: seq<RowCode>, code: RowCode)
    ensures UsedCodes(codes + [code]) ==
      if code.Some? then InsertUnique(code.value, UsedCodes(codes), Less) else UsedCodes(codes)
  {
    assert (codes + [code])[..|codes|] == codes;
    if code.Some? {
      var present := PresentCodes(codes) + [code.value];
      assert present[..|present| - 1] == PresentCodes(codes);
    } else {
      assert PresentCodes(codes) + [] == PresentCodes(codes);
    }
  }

  lemma NoCodes(page: Page, hasNulls: bool)
    requires CodesCovered(page)
    ensures RowCodes(page, hasNulls, []) == Ok([]) && UsedCodes([]) == [] && NotNull([]) == [] && RawKeys([]) == []
  {
  }

  /** The second pass: a dense key and a validity bit per row. */
  method CollectDenseKeys(page: Page, hasNulls: bool, rows: seq<nat>, used: seq<int>, ghost codes: seq<RowCode>)
    returns (r: Keys)
    requires CodesCovered(page) && InRange(rows, page.rowCount) && RowCodes(page, hasNulls, rows) == Ok(codes)
    requires Covers(used, codes)
    ensures r == Keys(DenseKeys(used, codes), NullsOf(NotNull(codes)))
  {
    hide RowCodes, CodeAt, NullsOf, PackBits, Falses, UsedCodes;
    var keys: seq<nat> := [];
    var builder := NewBuilder(hasNulls, |rows|);
    NoCodes(page, hasNulls);
    assert codes[..0] == [];
    for i := 0 to |rows|
      invariant builder == null <==> !hasNulls
      invariant builder != null ==> fresh(builder) && builder.Valid() && builder.len == |rows|
      invariant builder != null ==> builder.contents == NotNull(codes[..i])
      invariant keys == DenseKeys(used, codes)[..i]
    {
      RowCodesEach(page, hasNulls, rows, i);
      var code := CodeAt(page, hasNulls, rows[i]).value;
      if builder != null {
        assert NotNull(codes[..i + 1]) == NotNull(codes[..i]) + [code.Some?];
        builder.Append(code.Some?);
      }
      keys := keys + [DenseKey(used, code)];
    }
    assert codes[..|rows|] == codes;
    if builder == null {
      NothingNull(page, rows);
      return Keys(keys, None);
    }
    var nulls := builder.Finish();
    return Keys(keys, nulls);
  }

  /** The only pass of the raw form. */
  method CollectRawKeys(page: Page, hasNulls: bool, rows: seq<nat>) returns (r: Result<Keys>, ghost codes: seq<RowCode>)
    requires CodesCovered(page) && InRange(rows, page.rowCount)
    ensures r.Ok? <==> RowCodes(page, hasNulls, rows).Ok?
    ensures r.Ok? ==> RowCodes(page, hasNulls, rows) == Ok(codes) && r.value == RawCodes(codes)
  {
    hide RowCodes, CodeAt, NullsOf, PackBits, Falses, UsedCodes;
    var keys: seq<nat> := [];
    var builder := NewBuilder(hasNulls, |rows|);
    codes := [];
    NoCodes(page, hasNulls);
    for i := 0 to |rows|
      invariant builder == null <==> !hasNulls
      invariant builder != null ==> fresh(builder) && builder.Valid() && builder.len == |rows|
      invariant builder != null ==> builder.contents == NotNull(codes)
      invariant |codes| == i && RowCodes(page, hasNulls, rows[..i]) == Ok(codes) && keys == RawKeys(codes)
    {
      assert rows[..i + 1] == rows[..i] + [rows[i]];
      RowCodesSnoc(page, hasNulls, rows[..i], rows[i]);
      var code := CodeAt(page, hasNulls, rows[i]);
      if code.Err? {
        RowCodesFail(page, hasNulls, rows, i);
        return Err(code.error), [];
      }
      KeysSnoc(codes, code.value);
      if builder != null {
        builder.Append(code.value.Some?);
      }
      keys, codes := keys + [RawKey(code.value)], codes + [code.value];
    }
    assert rows[..|rows|] == rows;
    if builder == null {
      NothingNull(page, rows);
      return Ok(Keys(keys, None)), codes;
    }
    var nulls := builder.Finish();
    return Ok(Keys(keys, nulls)), codes;
  }

  lemma KeysSnoc(codes: seq<RowCode>, code: RowCode)
    ensures RawKeys(codes + [code]) == RawKeys(codes) + [RawKey(code)]
    ensures NotNull(codes + [code]) == NotNull(codes) + [code.Some?]
  {
  }

  lemma {:induction false} NothingNull(page: Page, rows: seq<nat>)
    requires CodesCovered(page) && InRange(rows, page.rowCount) && RowCodes(page, false, rows).Ok?
    ensures NullsOf(NotNull(RowCodes(page, false, rows).value)) == None
  {
    var codes := RowCodes(page, false, rows).value;
    if rows != [] {
      NothingNull(page, rows[..|rows| - 1]);
      assert NotNull(codes)[..|codes| - 1] == NotNull(codes[..|codes| - 1]);
    }
  }

  /** `filecode_key_array`. */
  method ExportRawKeys(page: Page, selection: RowSelection) returns (r: Result<Keys>)
    ensures r.Ok? <==> SelectedCodes(page, selection).Ok?
    ensures r.Ok? ==> r.value == RawCodes(SelectedCodes(page, selection).value)
  {
    hide RowCodes, BitRows, HasNulls, UsedCodes, NullsOf;
    if page.rowCount * 4 >= TWO_64 {
      return Err(ArithOverflow);
    }
    if |page.data| < page.rowCount * 4 {
      return Err(OffsetRange);
    }
    var hasNulls := ArrayHasNulls(page);
    if hasNulls.Err? {
      return Err(hasNulls.error);
    }
    var rows := ToRows(selection, page.rowCount);
    if rows.Err? {
      return Err(rows.error);
    }
    SelectedInRange(selection, page.rowCount);
    ghost var codes;
    r, codes := CollectRawKeys(page, hasNulls.value, rows.value);
  }

  /** `encoded_filecode_array_to_arrow_dictionary_remapped`. */
  method ExportRemapped<V>(entry: nat -> Result<V>, page: Page, selection: RowSelection)
    returns (r: Result<Remapped<V>>)
    ensures SelectedCodes(page, selection).Err? ==> r.Err?
    ensures SelectedCodes(page, selection).Ok? ==> r == RemapCodes(entry, SelectedCodes(page, selection).value)
  {
    hide RowCodes, BitRows, HasNulls, UsedCodes, NullsOf;
    if page.rowCount * 4 >= TWO_64 {
      return Err(ArithOverflow);
    }
    if |page.data| < page.rowCount * 4 {
      return Err(OffsetRange);
    }
    var hasNulls := ArrayHasNulls(page);
    if hasNulls.Err? {
      return Err(hasNulls.error);
    }
    var rows := ToRows(selection, page.rowCount);
    if rows.Err? {
      return Err(rows.error);
    }
    SelectedInRange(selection, page.rowCount);
    var used, codes := CollectUsed(page, hasNulls.value, rows.value);
    if used.Err? {
      return Err(used.error);
    }
    UsedExactly(codes, 0);
    UsedCovers(codes);
    var values := Entries(entry, used.value);
    if values.Err? {
      return Err(values.error);
    }
    var keys := CollectDenseKeys(page, hasNulls.value, rows.value, used.value, codes);
    return Ok(Remapped(keys, values.value));
  }
}
