/** What the row reader finds in a page of every format: the value that was laid out for the row. */
module RowFormats {
  import opened Wrappers
  import opened Sequences
  import opened Wire
  import opened Bits
  import opened BitPacking
  import opened ArrayPage
  import opened ColumnTypes
  import opened RowAccess

  /** The scalar read of a row whose null flag is `isNull` and whose value is `value`. */
  predicate RowIs(d: Decoders, a: EncodedArray, i: nat, isNull: bool, value: CoveValue) {
    DecodeRow(d, a, i) == Ok(if isNull then NullValue else value)
  }

  lemma PresentRowIs(d: Decoders, a: EncodedArray, i: nat, isNull: bool, value: CoveValue)
    requires IsNullRow(a.page, i) == Ok(isNull) && PresentRow(d, a, i) == Ok(value)
    ensures RowIs(d, a, i, isNull, value)
  {
    hide PresentRow, IsNullRow;
  }

  // ---- records end to end -------------------------------------------------------------------------------

  /** A value that a record of this kind can hold. */
  predicate IsRecordValue(kind: StreamKind, v: CoveValue) {
    match kind
    case VarintStream => v.Varint? && v.varint < TWO_64
    case U32Stream => v.Bytes? && |v.bytes| < TWO_32
    case LebStream => v.Bytes? && |v.bytes| < TWO_63
  }

  /** Its bytes: a varint, or a length and the bytes behind it. */
  function Record(kind: StreamKind, v: CoveValue): seq<byte>
    requires IsRecordValue(kind, v)
  {
    match kind
    case VarintStream => EncodeLeb(v.varint)
    case U32Stream => ToLE(|v.bytes|, 4) + v.bytes
    case LebStream => EncodeLeb(|v.bytes|) + v.bytes
  }

  predicate AreRecords(kind: StreamKind, values: seq<CoveValue>) {
    forall i :: 0 <= i < |values| ==> IsRecordValue(kind, values[i])
  }

  function Records(kind: StreamKind, values: seq<CoveValue>): (pieces: seq<seq<byte>>)
    requires AreRecords(kind, values)
    ensures |pieces| == |values| && forall i :: 0 <= i < |values| ==> pieces[i] == Record(kind, values[i])
  {
    seq(|values|, i requires 0 <= i < |values| => Record(kind, values[i]))
  }

  lemma LengthPrefix(data: seq<byte>, pos: nat, prefix: seq<byte>, body: seq<byte>, rest: seq<byte>)
    requires pos <= |data| && data[pos..] == prefix + body + rest
    ensures pos + |prefix| + |body| <= |data|
    ensures data[pos..pos + |prefix|] == prefix
    ensures data[pos + |prefix|..pos + |prefix| + |body|] == body
  {
    assert data == data[..pos] + (prefix + body + rest);
    var head := data[..pos] + prefix;
    assert data == head + (body + rest);
    assert data[|head|..|head| + |body|] == body;
  }

  /** A reader standing at a record steps over it, and reads its value. */
  lemma RecordReads(kind: StreamKind, data: seq<byte>, pos: nat, v: CoveValue, rest: seq<byte>)
    requires IsRecordValue(kind, v) && pos <= |data| < TWO_63 && data[pos..] == Record(kind, v) + rest
    ensures Skip(kind, data, pos) == Ok(pos + |Record(kind, v)|) && StreamValue(kind, data, pos) == Ok(v)
  {
    hide EncodeLeb, DecodeLeb, ToLE, FromLE, Pow256;
    match kind {
      case VarintStream =>
        LebRoundTrip(v.varint, rest);
      case U32Stream =>
        Pow256Values();
        FromToLE(|v.bytes|, 4);
        LengthPrefix(data, pos, ToLE(|v.bytes|, 4), v.bytes, rest);
      case LebStream =>
        LebRoundTrip(|v.bytes|, v.bytes + rest);
        assert data[pos..] == EncodeLeb(|v.bytes|) + (v.bytes + rest);
        LengthPrefix(data, pos, EncodeLeb(|v.bytes|), v.bytes, rest);
    }
  }

  /** Behind the first `i` records stands record `i`. */
  lemma RecordStands(pieces: seq<seq<byte>>, i: nat)
    requires i < |pieces|
    ensures var data, pos := Flatten(pieces), |Flatten(pieces[..i])|;
      && pos + |pieces[i]| == |Flatten(pieces[..i + 1])| <= |data|
      && data[pos..] == pieces[i] + Flatten(pieces[i + 1..])
  {
    hide Flatten;
    var before, after := Flatten(pieces[..i]), Flatten(pieces[i + 1..]);
    assert pieces[..i + 1] == pieces[..i] + [pieces[i]];
    FlattenSnoc(pieces[..i], pieces[i]);
    assert pieces == pieces[..i + 1] + pieces[i + 1..];
    FlattenAppend(pieces[..i + 1], pieces[i + 1..]);
    assert Flatten(pieces) == before + (pieces[i] + after);
  }

  lemma {:induction false} ScanFinds(kind: StreamKind, values: seq<CoveValue>, i: nat)
    requires AreRecords(kind, values) && i <= |values| && |Flatten(Records(kind, values))| < TWO_63
    ensures var pieces := Records(kind, values);
      SkipTo(kind, Flatten(pieces), i) == Ok(|Flatten(pieces[..i])|)
  {
    hide Skip, Flatten, Record;
    var pieces := Records(kind, values);
    if i > 0 {
      ScanFinds(kind, values, i - 1);
      RecordStands(pieces, i - 1);
      RecordReads(kind, Flatten(pieces), |Flatten(pieces[..i - 1])|, values[i - 1], Flatten(pieces[i..]));
    } else {
      assert pieces[..0] == [];
      NothingFlat();
    }
  }

  lemma NothingFlat()
    ensures Flatten<byte>([]) == []
  {
  }

  /** Row `i` of a page of records is value `i`: varints, and byte strings behind either kind of length. */
  lemma StreamPageReads(d: Decoders, a: EncodedArray, kind: StreamKind, values: seq<CoveValue>, i: nat, isNull: bool)
    requires StreamOf(a) == Some(kind) && AreRecords(kind, values) && i < |values|
    requires a.page.data == Flatten(Records(kind, values)) && |a.page.data| < TWO_63
    requires IsNullRow(a.page, i) == Ok(isNull)
    ensures RowIs(d, a, i, isNull, values[i])
  {
    hide Skip, StreamValue, Flatten, IsNullRow, Record, SkipTo, StreamOf;
    var pieces := Records(kind, values);
    ScanFinds(kind, values, i);
    RecordStands(pieces, i);
    RecordReads(kind, a.page.data, |Flatten(pieces[..i])|, values[i], Flatten(pieces[i + 1..]));
    PresentRowIs(d, a, i, isNull, values[i]);
  }

  // ---- slots --------------------------------------------------------------------------------------------

  predicate ReadsSlots(a: EncodedArray) {
    a.encoding == PlainFixed || (a.encoding == CanonicalEncoding && a.logical != Bool)
  }

  /** Row `i` of a page of fixed-width slots, plain or canonical, is slot `i`. */
  lemma SlotPageReads(d: Decoders, a: EncodedArray, width: nat, i: nat, slot: seq<byte>, isNull: bool)
    requires ReadsSlots(a) && FixedWidthOf(a.logical) == Some(width) && |slot| == width
    requires i * width + width <= |a.page.data| < TWO_64 && a.page.data[i * width..i * width + width] == slot
    requires IsNullRow(a.page, i) == Ok(isNull)
    ensures RowIs(d, a, i, isNull, Bytes(slot))
  {
    SlotRead(a, i * width, slot);
    hide IsNullRow, FixedSlot, FixedWidthOf;
    WidthIsFixed(a);
    PresentRowIs(d, a, i, isNull, Bytes(slot));
  }

  lemma SlotRead(a: EncodedArray, at: nat, slot: seq<byte>)
    requires at + |slot| <= |a.page.data| < TWO_64 && a.page.data[at..at + |slot|] == slot
    ensures FixedSlot(a, at, |slot|) == Ok(Bytes(slot))
  {
  }

  /** Types of fixed width are neither nested nor length-prefixed. */
  lemma WidthIsFixed(a: EncodedArray)
    requires FixedWidthOf(a.logical).Some?
    ensures a.logical != NullType && !IsLengthPrefixed(a.logical)
  {
  }

  /** Every row of a constant page is its one slot. */
  lemma ConstantPageReads(d: Decoders, a: EncodedArray, slot: seq<byte>, i: nat, isNull: bool)
    requires a.encoding == ConstantEncoding && FixedWidthOf(a.logical) == Some(|slot|)
    requires slot <= a.page.data && IsNullRow(a.page, i) == Ok(isNull)
    ensures RowIs(d, a, i, isNull, Bytes(slot))
  {
    hide IsNullRow;
    assert a.page.data[0..|slot|] == slot;
    PresentRowIs(d, a, i, isNull, Bytes(slot));
  }

  /** Row `i` of a page of packed bits is bit `i`. */
  lemma BitPageReads(d: Decoders, a: EncodedArray, flags: seq<bool>, i: nat, isNull: bool)
    requires a.encoding == ValidityEncoding && a.page.data == PackBits(flags) && i < |flags|
    requires IsNullRow(a.page, i) == Ok(isNull)
    ensures RowIs(d, a, i, isNull, ValidityBit(flags[i]))
  {
    hide IsNullRow, PackBits, Bit;
    PackedBit(flags, i / 8, i % 8);
    PresentRowIs(d, a, i, isNull, ValidityBit(flags[i]));
  }

  // ---- pages decoded whole ------------------------------------------------------------------------------

  /** What an integer stands for in a column of this physical kind, without a dictionary. */
  predicate StandsForInt(physical: PhysicalKind, v: i64, value: CoveValue) {
    match value
    case FileCodeValue(code) => physical == FileCodeKind && v == code && code < TWO_32
    case NumCodeValue(number) => physical == NumCodeKind && v == number
    case BooleanValue(b) => physical == BooleanKind && v == (if b then 1 else 0)
    case Int64Value(n) =>
      v == n && physical != FileCodeKind && physical != NumCodeKind && physical != BooleanKind
    case _ => false
  }

  /** Row `i` of a transformed page is what integer `i` of the decoded page stands for; the row fails if that is
      nothing, unless it is null. */
  lemma TransformedPageReads(d: Decoders, a: EncodedArray, ints: seq<i64>, i: nat, isNull: bool)
    requires IsCascade(a.encoding) && d.cascade(a.encoding, a.page.data) == Ok(ints)
    requires |ints| == a.page.rowCount && i < |ints| && a.dictionary.None? && IsNullRow(a.page, i) == Ok(isNull)
    ensures isNull ==> DecodeRow(d, a, i) == Ok(NullValue)
    ensures !isNull ==>
      forall value :: DecodeRow(d, a, i) == Ok(value) <==> StandsForInt(a.physical, ints[i], value)
  {
    hide IsNullRow;
  }

  /** Row `i` of a local codebook page is value `i` of what it decodes to. */
  lemma CodebookPageReads(d: Decoders, a: EncodedArray, values: seq<CodebookValue>, i: nat, isNull: bool)
    requires a.encoding == LocalCodebook && d.codebook(a.page.data) == Ok(values)
    requires |values| == a.page.rowCount && i < |values| && a.dictionary.None? && IsNullRow(a.page, i) == Ok(isNull)
    ensures values[i].CodebookFileCode? ==> RowIs(d, a, i, isNull, FileCodeValue(values[i].code))
    ensures values[i].CodebookNumCode? ==> RowIs(d, a, i, isNull, NumCodeValue(values[i].number))
    ensures values[i].CodebookBoolean? ==> RowIs(d, a, i, isNull, BooleanValue(values[i].boolean))
    ensures values[i].CodebookBytes? ==> RowIs(d, a, i, isNull, OwnedBytes(values[i].bytes))
  {
    hide IsNullRow;
  }
}
