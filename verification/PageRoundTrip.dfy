/** Reading pages back: the bulk decode of the pages cut from a row range gives the rows of that range. */
module PageRoundTrip {
  import opened Wrappers
  import opened Wire
  import opened Bits
  import opened BitPacking
  import PageWriter
  import Validity
  import opened ArrayPage
  import opened ColumnTypes
  import opened ConvertedColumns
  import opened RowLayout
  import opened RowAccess
  import opened Paging
  import ZoneStats
  import VarBytesPages = VarBytes

  // ---- from a page to an array ----------------------------------------------------------------------

  /** `encode_scan_page_payload` and the page reader: the null bitmap leads a page that has nulls, and the
      writer rechecks it. */
  function ArrayOf(c: Column, spec: PageSpec): Result<EncodedArray> {
    if spec.nullCount == 0 then
      Ok(EncodedArray(c.logical, c.physical, spec.encoding, Page(spec.rowCount, None, spec.payload), None))
    else
      var bitmapLen := BitpackedLen(spec.rowCount);
      if |spec.payload| < bitmapLen then Err(PageCorrupt)
      else
        var _ :- PageWriter.CheckBitmap(spec.payload[..bitmapLen], spec.rowCount, spec.nullCount);
        Ok(EncodedArray(c.logical, c.physical, spec.encoding,
        Page(spec.rowCount, Some(Validity.Bitmap(spec.payload[..bitmapLen], spec.rowCount)), spec.payload[bitmapLen..]),
        None))
  }

  /** The encoding a column's values are written in (`materialized_page_encoding`), and the width of its slots. */
  predicate WellTyped(c: Column) {
    match c.values
    case Booleans(_) => c.encoding == PlainFixed && FixedWidthOf(c.logical) == Some(1)
    case FileCodes(_) => c.encoding == FileCodeEncoding
    case NumCodes(_) => c.encoding == NumCodeEncoding
    case VarBytes(_) => c.encoding == VarBytesEncoding
    case FixedBytes(width, _) => c.encoding == PlainFixed && FixedWidthOf(c.logical) == Some(width)
  }

  /** What a reader must see in a row. */
  function ValueOf(c: Column, row: nat): CoveValue
    requires row < RowCount(c.values)
  {
    if IsNull(c, row) then NullValue
    else match c.values
      case Booleans(v) => Bytes([v[row]])
      case FileCodes(v) => FileCodeValue(v[row])
      case NumCodes(v) => NumCodeValue(v[row])
      case VarBytes(v) => Bytes(v[row])
      case FixedBytes(_, v) => Bytes(v[row])
  }

  function ValuesOf(c: Column, start: nat, len: nat): (values: seq<CoveValue>)
    requires start + len <= RowCount(c.values)
    ensures |values| == len && forall i :: 0 <= i < len ==> values[i] == ValueOf(c, start + i)
  {
    seq(len, i requires 0 <= i < len => ValueOf(c, start + i))
  }

  // ---- fixed-width slots ----------------------------------------------------------------------------

  predicate SlotWidth(pieces: seq<seq<byte>>, w: nat) {
    forall i :: 0 <= i < |pieces| ==> |pieces[i]| == w
  }

  lemma {:induction false} SlotAt(pieces: seq<seq<byte>>, w: nat, i: nat)
    requires SlotWidth(pieces, w) && i < |pieces|
    ensures |Slots(pieces)| == |pieces| * w
    ensures i * w + w <= |Slots(pieces)| && Slots(pieces)[i * w..i * w + w] == pieces[i]
  {
    var n := |pieces| - 1;
    var init := pieces[..n];
    assert (n + 1) * w == n * w + w;
    if n > 0 {
      SlotAt(init, w, if i < n then i else 0);
    }
    if i < n {
      assert Slots(pieces)[i * w..i * w + w] == Slots(init)[i * w..i * w + w];
    }
  }

  function WidthOf(values: Values): nat {
    match values
    case Booleans(_) => 1
    case FileCodes(_) => 4
    case NumCodes(_) => 8
    case VarBytes(_) => 0
    case FixedBytes(width, _) => width
  }

  lemma SlotsHaveWidth(values: Values, start: nat, len: nat)
    requires start + len <= RowCount(values) && !values.VarBytes? && !values.Booleans?
      && EncodeRows(values, start, len).Ok?
    ensures SlotWidth(SlotsOf(values, start, len), WidthOf(values))
    ensures EncodeRows(values, start, len).value == Slots(SlotsOf(values, start, len))
  {
  }

  /** A row's slot is found at its place in the payload. */
  lemma SlotOfRow(values: Values, start: nat, len: nat, i: nat)
    requires start + len <= RowCount(values) && !values.VarBytes? && i < len && EncodeRows(values, start, len).Ok?
    ensures var data, w := EncodeRows(values, start, len).value, WidthOf(values);
      i * w + w <= |data| && data[i * w..i * w + w] == SlotOf(values, start + i)
  {
    if !values.Booleans? {
      SlotsHaveWidth(values, start, len);
      hide EncodeRows, Slots, SlotOf;
      SlotAt(SlotsOf(values, start, len), WidthOf(values), i);
    }
  }

  /** A slot of `width` bytes at `at`, read as plain bytes. */
  lemma PlainReads(d: Decoders, a: EncodedArray, width: nat, row: nat)
    requires a.encoding == PlainFixed && FixedWidthOf(a.logical) == Some(width)
    requires row * width + width <= |a.page.data| < TWO_64
    ensures PresentRow(d, a, row) == Ok(Bytes(a.page.data[row * width..row * width + width]))
  {
  }

  lemma CodeReads(d: Decoders, a: EncodedArray, row: nat, code: u32)
    requires a.encoding == FileCodeEncoding && a.dictionary.None?
    requires row * 4 + 4 <= |a.page.data| < TWO_64 && a.page.data[row * 4..row * 4 + 4] == ToLE(code, 4)
    ensures PresentRow(d, a, row) == Ok(FileCodeValue(code))
  {
    Pow256Values();
    FromToLE(code, 4);
    hide ToLE, FromLE;
  }

  lemma NumberReads(d: Decoders, a: EncodedArray, row: nat, number: u64)
    requires a.encoding == NumCodeEncoding
    requires row * 8 + 8 <= |a.page.data| < TWO_64 && a.page.data[row * 8..row * 8 + 8] == ToLE(number, 8)
    ensures PresentRow(d, a, row) == Ok(NumCodeValue(number))
  {
    Pow256Values();
    FromToLE(number, 8);
    hide ToLE, FromLE;
  }

  /** `a` holds the rows of `c` from `start` on. */
  predicate Reads(c: Column, start: nat, len: nat, a: EncodedArray) {
    && start + len <= RowCount(c.values) && EncodeRows(c.values, start, len) == Ok(a.page.data)
      && |a.page.data| < TWO_63
    && a.logical == c.logical && a.encoding == c.encoding && a.dictionary.None?
  }

  /** The scalar read of a fixed-width row. */
  lemma FixedRowReads(d: Decoders, c: Column, a: EncodedArray, start: nat, len: nat, i: nat)
    requires Reads(c, start, len, a) && !c.values.VarBytes? && WellTyped(c) && i < len && !IsNull(c, start + i)
    ensures PresentRow(d, a, i) == Ok(ValueOf(c, start + i))
  {
    hide PresentRow, EncodeRows, ToLE, FixedWidthOf;
    SlotOfRow(c.values, start, len, i);
    match c.values {
      case Booleans(_) => PlainReads(d, a, 1, i);
      case FileCodes(v) => CodeReads(d, a, i, v[start + i]);
      case NumCodes(v) => NumberReads(d, a, i, v[start + i]);
      case FixedBytes(width, _) => PlainReads(d, a, width, i);
    }
  }

  // ---- variable-width records ---------------------------------------------------------------------

  lemma {:induction false} U32PageAppend(a: seq<seq<byte>>, b: seq<seq<byte>>)
    ensures VarBytesPages.U32Page(a + b) == VarBytesPages.U32Page(a) + VarBytesPages.U32Page(b)
  {
    if b == [] {
      assert a + b == a;
    } else {
      hide VarBytesPages.U32Record;
      U32PageAppend(a, b[..|b| - 1]);
      assert (a + b)[..|a + b| - 1] == a + b[..|b| - 1];
      Associates(VarBytesPages.U32Page(a), VarBytesPages.U32Page(b[..|b| - 1]), VarBytesPages.U32Record(b[|b| - 1]));
    }
  }

  lemma Associates(a: seq<byte>, b: seq<byte>, c: seq<byte>)
    ensures a + b + c == a + (b + c)
  {
  }

  /** A record the exporter can frame is one the row reader can skip and read. */
  lemma RecordReads(data: seq<byte>, pos: nat)
    requires pos <= |data| < TWO_63 && VarBytesPages.U32RangeAt(data, pos).Ok?
    ensures var r := VarBytesPages.U32RangeAt(data, pos).value;
      && Skip(U32Stream, data, pos) == Ok(r.end)
      && StreamValue(U32Stream, data, pos) == Ok(Bytes(data[r.start..r.end]))
  {
    hide FromLE;
  }

  /** A reader standing behind the first `i` records finds record `i`. */
  lemma RecordOfPage(rows: seq<seq<byte>>, i: nat)
    requires VarBytesPages.PrefixesFit(rows) && i < |rows| && |VarBytesPages.U32Page(rows)| < TWO_63
    ensures var data, pos := VarBytesPages.U32Page(rows), |VarBytesPages.U32Page(rows[..i])|;
      && pos <= |data|
      && Skip(U32Stream, data, pos) == Ok(|VarBytesPages.U32Page(rows[..i + 1])|)
      && StreamValue(U32Stream, data, pos) == Ok(Bytes(rows[i]))
  {
    var data := VarBytesPages.U32Page(rows);
    var before, after := VarBytesPages.U32Page(rows[..i]), VarBytesPages.U32Page(rows[i + 1..]);
    assert rows == rows[..i + 1] + rows[i + 1..];
    U32PageAppend(rows[..i + 1], rows[i + 1..]);
    assert rows[..i + 1][..i] == rows[..i];
    hide VarBytesPages.U32RangeAt, Skip, StreamValue;
    assert data == before + VarBytesPages.U32Record(rows[i]) + after;
    VarBytesPages.U32RecordRead(before, rows[i], after);
    RecordReads(data, |before|);
  }

  lemma {:induction false} SkipsToRecord(rows: seq<seq<byte>>, i: nat)
    requires VarBytesPages.PrefixesFit(rows) && i <= |rows| && |VarBytesPages.U32Page(rows)| < TWO_63
    ensures SkipTo(U32Stream, VarBytesPages.U32Page(rows), i) == Ok(|VarBytesPages.U32Page(rows[..i])|)
  {
    if i > 0 {
      hide Skip, VarBytesPages.U32Page;
      SkipsToRecord(rows, i - 1);
      RecordOfPage(rows, i - 1);
    } else {
      assert rows[..0] == [];
    }
  }

  lemma VarBytesRowReads(d: Decoders, c: Column, a: EncodedArray, start: nat, len: nat, i: nat)
    requires Reads(c, start, len, a) && c.values.VarBytes? && WellTyped(c) && i < len
    ensures StreamOf(a) == Some(U32Stream) && PresentRow(d, a, i) == Ok(Bytes(c.values.blobs[start + i]))
  {
    var rows := SlotsOf(c.values, start, len);
    SkipsToRecord(rows, i);
    RecordOfPage(rows, i);
    assert rows[i] == c.values.blobs[start + i];
    hide SkipTo, StreamValue, VarBytesPages.U32Page;
  }

  // ---- one page -----------------------------------------------------------------------------------

  /** The null bitmap of a page says of each row whether it is null. */
  lemma BitmapReads(flags: seq<bool>, rowCount: u64, i: nat)
    requires |flags| == rowCount && i < rowCount
    ensures IsNullRow(Page(rowCount, Some(Validity.Bitmap(PackBits(flags), rowCount)), []), i) == Ok(flags[i])
  {
    PackedBit(flags, i / 8, i % 8);
    hide PackBits, Bit;
  }

  /** The array read from a page: the right data, and the right null flags. */
  lemma ArrayOfPage(c: Column, start: nat, len: u32, spec: PageSpec)
    requires start + len <= RowCount(c.values) && CutPage(c, start, len) == Ok(spec) && |spec.payload| < TWO_63
    ensures ArrayOf(c, spec).Ok?
    ensures var a := ArrayOf(c, spec).value;
      && a.page.rowCount == len && Reads(c, start, len, a)
      && forall i :: 0 <= i < len ==> IsNullRow(a.page, i) == Ok(IsNull(c, start + i))
  {
    hide EncodeRows, PackBits;
    var physical := EncodeRows(c.values, start, len).value;
    var flags := NullFlags(c, start, len);
    var bitmap := PackBits(flags);
    ZoneStats.NonNullRowsExact(c, start, len);
    if spec.nullCount == 0 {
      AllNonNull(c, start, len);
      forall i | 0 <= i < len ensures IsNullRow(ArrayOf(c, spec).value.page, i) == Ok(IsNull(c, start + i)) {
        assert start <= start + i < start + len;
      }
    } else {
      assert spec.payload[..|bitmap|] == bitmap && spec.payload[|bitmap|..] == physical;
      PageWriter.BitmapPasses(c, start, len);
      hide PageWriter.CheckBitmap;
      var a := ArrayOf(c, spec).value;
      forall i | 0 <= i < len ensures IsNullRow(a.page, i) == Ok(IsNull(c, start + i)) {
        BitmapReads(flags, len, i);
      }
    }
  }

  lemma {:induction false} AllNonNull(c: Column, start: nat, len: nat)
    requires |ZoneStats.NonNullRows(c, start, len)| == len
    ensures forall row: nat :: start <= row < start + len ==> !IsNull(c, row)
  {
    if len > 0 {
      ZoneStats.NonNullRowsExact(c, start, len - 1);
      AllNonNull(c, start, len - 1);
    }
  }

  lemma BulkRowReads(d: Decoders, c: Column, a: EncodedArray, start: nat, len: nat, i: nat)
    requires Reads(c, start, len, a) && WellTyped(c) && i < len && a.page.rowCount == len
    requires IsNullRow(a.page, i) == Ok(IsNull(c, start + i))
    ensures BulkRow(d, a, i) == Ok(ValueOf(c, start + i))
  {
    hide EncodeRows, PresentRow, IsNullRow;
    if c.values.VarBytes? {
      VarBytesRowReads(d, c, a, start, len, i);
    } else if !IsNull(c, start + i) {
      FixedRowReads(d, c, a, start, len, i);
    }
  }

  lemma {:induction false} BulkRowsRead(d: Decoders, c: Column, a: EncodedArray, start: nat, len: nat, n: nat)
    requires Reads(c, start, len, a) && WellTyped(c) && n <= len && a.page.rowCount == len
    requires forall i :: 0 <= i < len ==> IsNullRow(a.page, i) == Ok(IsNull(c, start + i))
    ensures BulkRows(d, a, n) == Ok(ValuesOf(c, start, n))
  {
    hide Reads, BulkRow, IsNullRow, ValueOf;
    if n > 0 {
      BulkRowsRead(d, c, a, start, len, n - 1);
      BulkRowReads(d, c, a, start, len, n - 1);
      ReadsWithin(c, start, len, a);
      ValuesSnoc(c, start, n - 1);
    }
  }

  lemma ReadsWithin(c: Column, start: nat, len: nat, a: EncodedArray)
    requires Reads(c, start, len, a)
    ensures start + len <= RowCount(c.values)
  {
  }

  lemma ValuesSnoc(c: Column, start: nat, n: nat)
    requires start + n + 1 <= RowCount(c.values)
    ensures ValuesOf(c, start, n + 1) == ValuesOf(c, start, n) + [ValueOf(c, start + n)]
  {
  }

  /** The bulk decode of a page is the rows it was cut from, nulls as `Null`; its counts add up. */
  lemma PageDecodesRows(d: Decoders, c: Column, start: nat, len: u32, spec: PageSpec)
    requires start + len <= RowCount(c.values) && CutPage(c, start, len) == Ok(spec) && WellTyped(c)
      && |spec.payload| < TWO_63
    ensures ArrayOf(c, spec).Ok? && AllRows(d, ArrayOf(c, spec).value) == Ok(ValuesOf(c, start, len))
    ensures spec.rowCount == len == spec.nonNull + spec.nullCount
    ensures spec.nullCount == Validity.CountTrue(NullFlags(c, start, len))
  {
    PageWriter.FlagsCount(c, start, len);
    hide BulkRows, EncodeRows, ArrayOf, Reads, IsNullRow;
    ArrayOfPage(c, start, len, spec);
    var a := ArrayOf(c, spec).value;
    BulkRowsRead(d, c, a, start, len, len);
    ReadsPlainly(c, start, len, a);
  }

  /** The encodings of converted columns need no page check. */
  lemma ReadsPlainly(c: Column, start: nat, len: nat, a: EncodedArray)
    requires Reads(c, start, len, a) && WellTyped(c)
    ensures !IsCascade(a.encoding) && a.encoding != LocalCodebook && a.encoding != CanonicalEncoding
  {
    hide EncodeRows;
  }

  // ---- all pages of a row range -----------------------------------------------------------------------

  /** The bulk decodes of the pages, one after the other. */
  function DecodePages(d: Decoders, c: Column, pages: seq<PageSpec>): Result<seq<CoveValue>> {
    if pages == [] then Ok([])
    else
      var before :- DecodePages(d, c, pages[..|pages| - 1]);
      var a :- ArrayOf(c, pages[|pages| - 1]);
      var rows :- AllRows(d, a);
      Ok(before + rows)
  }

  predicate PagesInMemory(pages: seq<PageSpec>) {
    forall i :: 0 <= i < |pages| ==> |pages[i].payload| < TWO_63
  }

  lemma ValuesAppend(c: Column, start: nat, n: nat, m: nat)
    requires start + n + m <= RowCount(c.values)
    ensures ValuesOf(c, start, n) + ValuesOf(c, start + n, m) == ValuesOf(c, start, n + m)
  {
  }

  /** Tiles cut at the last one still tile. */
  lemma {:induction false} TilesInit(morsels: seq<Segment>, start: nat, end: nat, id: nat)
    requires Tiles(morsels, start, end, id) && morsels != []
    ensures var last := morsels[|morsels| - 1];
      Tiles(morsels[..|morsels| - 1], start, last.rowStart, id) && last.rowStart + last.rowCount == end
        && start <= last.rowStart
  {
    if |morsels| > 1 {
      TilesInit(morsels[1..], start + morsels[0].rowCount, end, id + 1);
      assert morsels[..|morsels| - 1][1..] == morsels[1..][..|morsels| - 2];
    }
  }

  /** One more page behind pages that decode. */
  lemma DecodeOneMore(d: Decoders, c: Column, pages: seq<PageSpec>, page: PageSpec, start: nat, n: nat, len: u32)
    requires start + n + len <= RowCount(c.values) && WellTyped(c)
    requires DecodePages(d, c, pages) == Ok(ValuesOf(c, start, n))
    requires CutPage(c, start + n, len) == Ok(page) && |page.payload| < TWO_63
    ensures DecodePages(d, c, pages + [page]) == Ok(ValuesOf(c, start, n + len))
  {
    hide ArrayOf, AllRows, CutPage, ValuesOf, WellTyped;
    PageDecodesRows(d, c, start + n, len, page);
    assert (pages + [page])[..|pages|] == pages;
    ValuesAppend(c, start, n, len);
  }

  lemma {:induction false} PagesDecodeTiles(d: Decoders, c: Column, morsels: seq<Segment>, start: nat, end: nat,
      id: nat)
    requires WellTyped(c) && RangesInside(c, morsels) && Tiles(morsels, start, end, id) && end <= RowCount(c.values)
    requires CutPages(c, morsels).Ok? && PagesInMemory(CutPages(c, morsels).value)
    ensures start <= end && DecodePages(d, c, CutPages(c, morsels).value) == Ok(ValuesOf(c, start, end - start))
  {
    hide CutPage, ArrayOf, AllRows, Tiles, WellTyped, ValuesOf;
    TileEnd(morsels, start, end, id);
    if morsels == [] {
      EmptyTiles(start, end, id);
    } else {
      var init, last := morsels[..|morsels| - 1], morsels[|morsels| - 1];
      TilesInit(morsels, start, end, id);
      var pages := CutPages(c, morsels).value;
      var before, page := CutPages(c, init).value, pages[|pages| - 1];
      assert pages == before + [page];
      hide CutPages, DecodePages;
      PagesInitInMemory(before, page);
      PagesDecodeTiles(d, c, init, start, last.rowStart, id);
      DecodeOneMore(d, c, before, page, start, last.rowStart - start, last.rowCount);
    }
  }

  lemma PagesInitInMemory(pages: seq<PageSpec>, page: PageSpec)
    requires PagesInMemory(pages + [page])
    ensures PagesInMemory(pages) && |page.payload| < TWO_63
  {
    var all := pages + [page];
    assert all[|pages|] == page;
    assert forall i :: 0 <= i < |pages| ==> pages[i] == all[i];
  }

  lemma EmptyTiles(start: nat, end: nat, id: nat)
    requires Tiles([], start, end, id)
    ensures start == end
  {
  }

  /** Paging round trip: the pages cut from a row range decode to exactly the rows of the range, in order. */
  lemma PagingRoundTrip(d: Decoders, c: Column, start: nat, count: nat, step: u32)
    requires WellTyped(c) && PagesOf(c, start, count, step).Ok? && PagesInMemory(PagesOf(c, start, count, step).value)
    ensures start + count <= RowCount(c.values)
    ensures DecodePages(d, c, PagesOf(c, start, count, step).value) == Ok(ValuesOf(c, start, count))
  {
    hide PagesOf, CutPages, LayoutsFrom, Tiles, WellTyped, DecodePages, ValuesOf, PagesInMemory, RangesInside,
      PageRangeCheck;
    PagesChecked(c, start, count, step);
    LayoutsTile(start, start + count, step, 0);
    PagesDecodeTiles(d, c, LayoutsFrom(start, start + count, step, 0), start, start + count, 0);
  }
}
