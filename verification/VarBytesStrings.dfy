/** `BytePayloadPlan::materialize` and `materialize_utf8`: which path runs, and what it guarantees. */
module VarBytesStrings {
  import opened Wrappers
  import opened Sequences
  import opened Utf8
  import opened ArrayPage
  import opened Selection
  import opened VarBytes
  import opened VarBytesExport
  import opened VarBytesSelection

  /** The whole-page path, the forward scan, or parse-then-gather when the scan declines. */
  function Exported(layout: Layout, page: Page, selection: RowSelection): Result<Column> {
    if selection.All? then SelectedSpec(layout, page, selection)
    else
      var forward :- ForwardResult(layout, page, selection);
      match forward
      case Some(column) => Ok(column)
      case None => SelectedSpec(layout, page, selection)
  }

  /** Every page that parse-then-gather exports is exported the same by `materialize`. */
  lemma ExportedIsSelected(layout: Layout, page: Page, selection: RowSelection)
    requires SelectedSpec(layout, page, selection).Ok?
    ensures Exported(layout, page, selection) == SelectedSpec(layout, page, selection)
  {
    hide SelectedSpec, ForwardResult;
    if layout == U32Prefixed {
      ForwardRefinesSelected(page, selection);
    } else {
      LebDeclines(page, selection);
    }
  }

  lemma LebDeclines(page: Page, selection: RowSelection)
    ensures ForwardResult(Leb128Prefixed, page, selection) == Ok(None)
  {
  }

  method Materialize(layout: Layout, page: Page, selection: RowSelection) returns (r: Result<Column>)
    requires InMemory(page.data)
    ensures SameSuccess(r, Exported(layout, page, selection))
  {
    hide SelectedSpec, ForwardResult;
    if selection.All? {
      r := MaterializeAllRows(layout, page);
      return;
    }
    var forward := MaterializeForward(layout, page, selection);
    if forward.Err? {
      return Err(forward.error);
    }
    if forward.value.Some? {
      return Ok(forward.value.value);
    }
    r := ParseThenGather(layout, page, selection);
  }

  method ParseThenGather(layout: Layout, page: Page, selection: RowSelection) returns (r: Result<Column>)
    ensures SameSuccess(r, SelectedSpec(layout, page, selection))
  {
    hide RangesOf, Slots, ToColumn, HasNulls, SelectedRows;
    var ranges := ParseRanges(layout, page.data, page.rowCount);
    if ranges.Err? {
      return Err(ranges.error);
    }
    var hasNulls := ArrayHasNulls(page);
    if hasNulls.Err? {
      return Err(hasNulls.error);
    }
    r := MaterializeSelected(page, selection, ranges.value, hasNulls.value);
  }

  // ---- strings --------------------------------------------------------------------------------------

  /** `ArrowStringValidationPolicy`: the first two check the rows, the third trusts the page. */
  datatype StringPolicy = Strict | StrictOrCachedProof | TrustedPageProof

  predicate Checks(policy: StringPolicy) {
    !policy.TrustedPageProof?
  }

  /** The export, refused when the policy checks and some row is not valid UTF-8. */
  function Utf8Spec(layout: Layout, page: Page, selection: RowSelection, policy: StringPolicy): Result<Column> {
    var _ :- HasNulls(page);
    var column :- Exported(layout, page, selection);
    if Checks(policy) && !RowsValid(column.offsets, column.values) then Err(BadSection) else Ok(column)
  }

  /** What comes out of any path is a well-formed offset buffer over its values. */
  lemma ColumnWellFormed(slots: seq<Slot>)
    requires ToColumn(slots).Ok?
    ensures WellFormedOffsets(ToColumn(slots).value.offsets, |ToColumn(slots).value.values|)
  {
    RowsUtf8Columnwise(Contents(slots));
  }

  lemma SelectedWellFormed(layout: Layout, page: Page, selection: RowSelection)
    requires SelectedSpec(layout, page, selection).Ok?
    ensures WellFormedOffsets(SelectedSpec(layout, page, selection).value.offsets,
      |SelectedSpec(layout, page, selection).value.values|)
  {
    hide RangesOf, Slots, ToColumn, HasNulls, SelectedRows, WellFormedOffsets;
    var ranges := RangesOf(layout, page.data, page.rowCount).value;
    SelectedInRange(selection, page.rowCount);
    ColumnWellFormed(Slots(page, HasNulls(page).value, ranges, SelectedRows(selection, page.rowCount).value).value);
  }

  lemma ForwardWellFormed(page: Page, hasNulls: bool, rows: seq<nat>)
    requires Ascends(rows) && rows != [] && InRange(rows, page.rowCount) && ForwardSpec(page, hasNulls, rows).Ok?
    ensures WellFormedOffsets(ForwardSpec(page, hasNulls, rows).value.offsets,
      |ForwardSpec(page, hasNulls, rows).value.values|)
  {
    hide ForwardFrames, Slots, ToColumn, WellFormedOffsets;
    LastIsGreatest(rows);
    ColumnWellFormed(Slots(page, hasNulls, ForwardFrames(page, rows[|rows| - 1]).value, rows).value);
  }

  lemma ForwardResultWellFormed(layout: Layout, page: Page, selection: RowSelection, column: Column)
    requires ForwardResult(layout, page, selection) == Ok(Some(column))
    ensures WellFormedOffsets(column.offsets, |column.values|)
  {
    hide ForwardSpec, BitRows, HasNulls;
    if selection.Rows? && selection.rows != [] {
      LastIsGreatest(selection.rows);
      ForwardWellFormed(page, HasNulls(page).value, selection.rows);
    } else if selection.Bitset? {
      BitRowsAscend(selection.words, selection.len);
      if BitRows(selection.words, selection.len) != [] {
        ForwardWellFormed(page, HasNulls(page).value, BitRows(selection.words, selection.len));
      }
    }
  }

  lemma ExportedWellFormed(layout: Layout, page: Page, selection: RowSelection, column: Column)
    requires Exported(layout, page, selection) == Ok(column)
    ensures WellFormedOffsets(column.offsets, |column.values|)
  {
    hide SelectedSpec, ForwardResult, WellFormedOffsets;
    if SelectedSpec(layout, page, selection) == Ok(column) {
      SelectedWellFormed(layout, page, selection);
    } else {
      ForwardResultWellFormed(layout, page, selection, column);
    }
  }

  /** The fused path of a whole page without nulls refuses what the separate check refuses. */
  lemma FusedIsSeparate(page: Page, policy: StringPolicy)
    requires HasNulls(page) == Ok(false)
    ensures SameSuccess(NoNulls(Checks(policy), page.data, page.rowCount), Utf8Spec(U32Prefixed, page, All, policy))
  {
    NoNullsIsSpec(page);
    var ranges := RangesOf(U32Prefixed, page.data, page.rowCount);
    assert SelectedSpec(U32Prefixed, page, All) == NoNullsSpec(page.data, page.rowCount);
    hide RangesOf, SelectedSpec, ColumnSpec, Offsets, Flatten, RowsValid, RowsAreUtf8;
    if ranges.Ok? {
      RowsUtf8Columnwise(RowsOf(page.data, ranges.value));
    }
  }

  method MaterializeUtf8(layout: Layout, page: Page, selection: RowSelection, policy: StringPolicy)
    returns (r: Result<Column>)
    requires InMemory(page.data)
    ensures SameSuccess(r, Utf8Spec(layout, page, selection, policy))
  {
    hide Exported, RowsValid, NoNulls, HasNulls, WellFormedOffsets;
    var hasNulls := ArrayHasNulls(page);
    if hasNulls.Err? {
      return Err(hasNulls.error);
    }
    if selection.All? && !hasNulls.value && layout == U32Prefixed {
      FusedIsSeparate(page, policy);
      r := MaterializeNoNulls(Checks(policy), page.data, page.rowCount);
      return;
    }
    var column := Materialize(layout, page, selection);
    if column.Err? {
      return Err(column.error);
    }
    if Checks(policy) {
      ExportedWellFormed(layout, page, selection, column.value);
      var check := ValidateUtf8OffsetsSlice(column.value.offsets, column.value.values);
      if check.Err? {
        return Err(check.error);
      }
    }
    return Ok(column.value);
  }
}
