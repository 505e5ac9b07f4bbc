/** The file dictionary sections (`dictionary.rs`): header, index entries, lazy view and full parse. */
module DictionaryFormat {
  import opened Wrappers
  import opened Sequences
  import opened Wire
  import opened Canonical
  import opened FieldCodec

  const DICT_HEADER_SIZE := 44
  const DICT_INDEX_ENTRY_SIZE := 48

  // Wire numbers of `StorageClass`.
  const INLINE: byte := 0
  const PAYLOAD: byte := 1
  const REDACTED: byte := 2

  type u16 = x: int | 0 <= x < TWO_16
  type Bytes3 = s: seq<byte> | |s| == 3 witness [0, 0, 0]
  type Bytes16 = s: seq<byte> | |s| == 16 witness seq(16, _ => 0)
  type Bytes24 = s: seq<byte> | |s| == 24 witness seq(24, _ => 0)

  datatype DictHeader = DictHeader(entryCount: u32, flags: u32, indexEntryLen: u16, hashAlgorithm: u16,
    payloadLength: u64, reserved: Bytes24)

  datatype IndexEntry = IndexEntry(
    valueTag: u16, storageClass: byte, flags: byte, inlineLen: byte, reserved0: Bytes3, inlineData: Bytes16,
    payloadOffset: u64, payloadLength: u32, hash64: u64, reserved1: u32)

  datatype FileDictionary = FileDictionary(header: DictHeader, entries: seq<IndexEntry>, payload: seq<byte>)

  datatype DictionaryValue = RawBytes(bytes: seq<byte>) | RedactedPresent

  function Zeros(n: nat): (s: seq<byte>)
    ensures |s| == n && forall i :: 0 <= i < n ==> s[i] == 0
  {
    seq(n, _ => 0)
  }

  predicate AllZero(s: seq<byte>) {
    forall i :: 0 <= i < |s| ==> s[i] == 0
  }

  // ---- header and entries ---------------------------------------------------------------------

  function HeaderPieces(h: DictHeader): seq<seq<byte>> {
    [ToLE(h.entryCount, 4), ToLE(h.flags, 4), ToLE(h.indexEntryLen, 2), ToLE(h.hashAlgorithm, 2),
      ToLE(h.payloadLength, 8), h.reserved]
  }

  function ParseHeader(buf: seq<byte>): Result<DictHeader> {
    if |buf| < DICT_HEADER_SIZE then Err(BufferTooShort)
    else
      var h := DictHeader(U32At(buf, 0), U32At(buf, 4), U16At(buf, 8), U16At(buf, 10), U64At(buf, 12), buf[20..44]);
      if h.indexEntryLen != DICT_INDEX_ENTRY_SIZE then Err(BadSection)
      else if h.hashAlgorithm > 2 then Err(BadSection)
      else if !AllZero(h.reserved) then Err(ReservedNotZero)
      else Ok(h)
  }

  predicate HeaderWellFormed(h: DictHeader) {
    h.indexEntryLen == DICT_INDEX_ENTRY_SIZE && h.hashAlgorithm <= 2 && AllZero(h.reserved)
  }

  lemma HeaderReadsBack(h: DictHeader)
    requires HeaderWellFormed(h)
    ensures |Flatten(HeaderPieces(h))| == DICT_HEADER_SIZE && ParseHeader(Flatten(HeaderPieces(h))) == Ok(h)
  {
    var p := HeaderPieces(h);
    assert PieceStart(p, 0) == 0;
    assert PieceStart(p, 1) == 4;
    assert PieceStart(p, 2) == 8;
    assert PieceStart(p, 3) == 10;
    assert PieceStart(p, 4) == 12;
    assert PieceStart(p, 5) == 20;
    RecordLength(p);
    hide ToLE, FromLE, Flatten, PieceStart, Pow256;
    Pow256Values();
    var none: seq<byte> := [];
    assert Flatten(p) + none == Flatten(p);
    NumberReadsBack(p, 0, h.entryCount, 4, none);
    NumberReadsBack(p, 1, h.flags, 4, none);
    NumberReadsBack(p, 2, h.indexEntryLen, 2, none);
    NumberReadsBack(p, 3, h.hashAlgorithm, 2, none);
    NumberReadsBack(p, 4, h.payloadLength, 8, none);
    PieceReadsBack(p, 5, none);
  }

  function EntryPieces(e: IndexEntry): seq<seq<byte>> {
    [ToLE(e.valueTag, 2), [e.storageClass], [e.flags], [e.inlineLen], e.reserved0, e.inlineData,
     ToLE(e.payloadOffset, 8), ToLE(e.payloadLength, 4), ToLE(e.hash64, 8), ToLE(e.reserved1, 4)]
  }

  function EntryAt(buf: seq<byte>, at: nat): IndexEntry
    requires at + DICT_INDEX_ENTRY_SIZE <= |buf|
  {
    IndexEntry(U16At(buf, at), buf[at + 2], buf[at + 3], buf[at + 4], buf[at + 5..at + 8], buf[at + 8..at + 24],
      U64At(buf, at + 24), U32At(buf, at + 32), U64At(buf, at + 36), U32At(buf, at + 44))
  }

  /** What `FileDictionaryIndexEntryV1::parse` asks of an entry, in its order. */
  function CheckEntry(e: IndexEntry): (r: Result<IndexEntry>)
    ensures r.Ok? ==> r.value == e
  {
    if !AllZero(e.reserved0) then Err(ReservedNotZero)
    else if e.reserved1 != 0 then Err(ReservedNotZero)
    else if e.valueTag > 18 then Err(BadSection)
    else if e.storageClass > REDACTED then Err(BadSection)
    else if e.inlineLen > 16 then Err(BadSection)
    else Ok(e)
  }

  lemma EntryStarts(e: IndexEntry)
    ensures var p := EntryPieces(e);
      && PieceStart(p, 0) == 0 && PieceStart(p, 1) == 2 && PieceStart(p, 2) == 3 && PieceStart(p, 3) == 4
      && PieceStart(p, 4) == 5 && PieceStart(p, 5) == 8 && PieceStart(p, 6) == 24 && PieceStart(p, 7) == 32
      && PieceStart(p, 8) == 36 && PieceStart(p, 9) == 44 && |Flatten(p)| == DICT_INDEX_ENTRY_SIZE
  {
    var p := EntryPieces(e);
    assert PieceStart(p, 0) == 0;
    assert PieceStart(p, 1) == 2;
    assert PieceStart(p, 2) == 3;
    assert PieceStart(p, 3) == 4;
    assert PieceStart(p, 4) == 5;
    assert PieceStart(p, 5) == 8;
    assert PieceStart(p, 6) == 24;
    assert PieceStart(p, 7) == 32;
    assert PieceStart(p, 8) == 36;
    assert PieceStart(p, 9) == 44;
    RecordLength(p);
  }

  lemma EntryReadsBack(e: IndexEntry, after: seq<byte>)
    ensures var bytes := Flatten(EntryPieces(e)) + after;
      |Flatten(EntryPieces(e))| == DICT_INDEX_ENTRY_SIZE && EntryAt(bytes, 0) == e
  {
    var p := EntryPieces(e);
    EntryStarts(e);
    hide ToLE, FromLE, Flatten, PieceStart, Pow256;
    Pow256Values();
    NumberReadsBack(p, 0, e.valueTag, 2, after);
    PieceReadsBack(p, 1, after);
    PieceReadsBack(p, 2, after);
    PieceReadsBack(p, 3, after);
    PieceReadsBack(p, 4, after);
    PieceReadsBack(p, 5, after);
    NumberReadsBack(p, 6, e.payloadOffset, 8, after);
    NumberReadsBack(p, 7, e.payloadLength, 4, after);
    NumberReadsBack(p, 8, e.hash64, 8, after);
    NumberReadsBack(p, 9, e.reserved1, 4, after);
    ByteOfPiece(Flatten(p) + after, 2, e.storageClass);
    ByteOfPiece(Flatten(p) + after, 3, e.flags);
    ByteOfPiece(Flatten(p) + after, 4, e.inlineLen);
  }

  lemma ByteOfPiece(bytes: seq<byte>, at: nat, b: byte)
    requires at + 1 <= |bytes| && bytes[at..at + 1] == [b]
    ensures bytes[at] == b
  {
    assert bytes[at..at + 1][0] == b;
  }

  // ---- the index section ------------------------------------------------------------------------

  function EntriesBytes(entries: seq<IndexEntry>): (bytes: seq<byte>)
  {
    if entries == [] then []
    else EntriesBytes(entries[..|entries| - 1]) + Flatten(EntryPieces(entries[|entries| - 1]))
  }

  /** The index section of a dictionary: its header and its entries. */
  function IndexBytes(d: FileDictionary): seq<byte> {
    Flatten(HeaderPieces(d.header)) + EntriesBytes(d.entries)
  }

  lemma {:induction false} EntriesReadBack(bytes: seq<byte>, before: seq<byte>, entries: seq<IndexEntry>,
      after: seq<byte>, i: nat)
    requires bytes == before + EntriesBytes(entries) + after && i < |entries|
    ensures |EntriesBytes(entries)| == DICT_INDEX_ENTRY_SIZE * |entries|
    ensures EntryAt(bytes, |before| + DICT_INDEX_ENTRY_SIZE * i) == entries[i]
  {
    var init, last := entries[..|entries| - 1], entries[|entries| - 1];
    var piece := Flatten(EntryPieces(last));
    assert bytes == before + EntriesBytes(init) + (piece + after);
    EntriesSize(init);
    EntryReadsBack(last, after);
    hide EntriesBytes, Flatten, EntryAt;
    if i < |init| {
      EntriesReadBack(bytes, before, init, piece + after, i);
    } else {
      EntryShift(bytes, piece + after, |before| + DICT_INDEX_ENTRY_SIZE * i);
    }
  }

  lemma {:induction false} EntriesSize(entries: seq<IndexEntry>)
    ensures |EntriesBytes(entries)| == DICT_INDEX_ENTRY_SIZE * |entries|
  {
    if entries != [] {
      EntriesSize(entries[..|entries| - 1]);
      EntryStarts(entries[|entries| - 1]);
    }
  }

  /** An entry looks only at its own bytes. */
  lemma EntryShift(bytes: seq<byte>, tail: seq<byte>, at: nat)
    requires at + |tail| == |bytes| && bytes[at..] == tail && |tail| >= DICT_INDEX_ENTRY_SIZE
    ensures EntryAt(bytes, at) == EntryAt(tail, 0)
  {
    SliceShift(bytes, tail, at, 0, 2);
    SliceShift(bytes, tail, at, 5, 8);
    SliceShift(bytes, tail, at, 8, 24);
    SliceShift(bytes, tail, at, 24, 32);
    SliceShift(bytes, tail, at, 32, 36);
    SliceShift(bytes, tail, at, 36, 44);
    SliceShift(bytes, tail, at, 44, 48);
    assert bytes[at + 2] == tail[2] && bytes[at + 3] == tail[3] && bytes[at + 4] == tail[4];
  }

  lemma SliceShift(bytes: seq<byte>, tail: seq<byte>, at: nat, i: nat, n: nat)
    requires at + |tail| == |bytes| && bytes[at..] == tail && i <= n <= |tail|
    ensures bytes[at + i..at + n] == tail[i..n]
  {
    assert bytes[at + i..at + n] == bytes[at..][i..n];
  }

  // ---- the view, validation and parse -----------------------------------------------------------

  /** `FileDictionaryView::parse`: the section lengths must match the header. */
  function ParseView(index: seq<byte>, payload: seq<byte>): (r: Result<DictHeader>)
    ensures r.Ok? ==> |index| == DICT_HEADER_SIZE + DICT_INDEX_ENTRY_SIZE * r.value.entryCount
  {
    if |index| < DICT_HEADER_SIZE then Err(BufferTooShort)
    else
      var h :- ParseHeader(index[..DICT_HEADER_SIZE]);
      if |index| != DICT_HEADER_SIZE + DICT_INDEX_ENTRY_SIZE * h.entryCount then Err(BadSection)
      else if |payload| != h.payloadLength then Err(BadSection)
      else Ok(h)
  }

  /** `FileDictionaryView::get_entry`. */
  function ViewEntry(index: seq<byte>, entryCount: u32, code: nat): (r: Result<IndexEntry>)
    requires |index| == DICT_HEADER_SIZE + DICT_INDEX_ENTRY_SIZE * entryCount
    ensures r.Ok? ==> CheckEntry(r.value).Ok?
  {
    if code >= entryCount then Err(BadFileCode)
    else CheckEntry(EntryAt(index, DICT_HEADER_SIZE + DICT_INDEX_ENTRY_SIZE * code))
  }

  function PayloadOf(e: IndexEntry, payload: seq<byte>): Result<seq<byte>> {
    ReadRangeChecked(payload, e.payloadOffset, e.payloadLength)
  }

  /** `validate_dictionary_entry`. */
  function ValidateEntry(json: JsonCheck, e: IndexEntry, payload: seq<byte>, payloadTotal: nat): Result<()>
    requires CheckEntry(e).Ok?
  {
    if e.payloadOffset + e.payloadLength >= TWO_64 then Err(ArithOverflow)
    else if e.payloadOffset + e.payloadLength > payloadTotal then Err(OffsetRange)
    else if e.storageClass == INLINE then
      if e.payloadLength != 0 then Err(BadSection)
      else ValidateCanonicalPayload(json, e.valueTag, e.inlineData[..e.inlineLen])
    else if e.storageClass == PAYLOAD then
      if e.inlineLen != 0 then Err(BadSection)
      else
        var bytes :- PayloadOf(e, payload);
        ValidateCanonicalPayload(json, e.valueTag, bytes)
    else if e.valueTag == 0 then Err(BadSection) else Ok(())
  }

  /** `decode_dictionary_entry`. */
  function DecodeEntry(e: IndexEntry, payload: seq<byte>): Result<DictionaryValue> {
    if e.storageClass > REDACTED then Err(BadSection)
    else if e.storageClass == REDACTED then Ok(RedactedPresent)
    else if e.storageClass == INLINE then
      if e.inlineLen > 16 then Err(BadSection) else Ok(RawBytes(e.inlineData[..e.inlineLen]))
    else
      var bytes :- PayloadOf(e, payload);
      Ok(RawBytes(bytes))
  }

  /** `FileDictionary::decode_value`. */
  function DecodeValue(d: FileDictionary, code: nat): Result<DictionaryValue> {
    if code >= |d.entries| then Err(BadFileCode) else DecodeEntry(d.entries[code], d.payload)
  }

  /** The entry at `code` of an index section passes `validate_all`. */
  predicate EntryAccepted(json: JsonCheck, index: seq<byte>, payload: seq<byte>, h: DictHeader, code: nat)
    requires |index| == DICT_HEADER_SIZE + DICT_INDEX_ENTRY_SIZE * h.entryCount
  {
    var entry := ViewEntry(index, h.entryCount, code);
    entry.Ok? && ValidateEntry(json, entry.value, payload, h.payloadLength).Ok?
  }

  /** `FileDictionary::parse`: the view, then every entry checked, then the entries collected. */
  method ParseDictionary(json: JsonCheck, index: seq<byte>, payload: seq<byte>) returns (r: Result<FileDictionary>)
    ensures ParseView(index, payload).Err? ==> r.Err?
    ensures ParseView(index, payload).Ok? ==> var h := ParseView(index, payload).value;
      (r.Ok? <==> forall code: nat :: code < h.entryCount ==> EntryAccepted(json, index, payload, h, code))
    ensures r.Ok? ==> var h := ParseView(index, payload).value;
      && r.value.header == h && r.value.payload == payload && |r.value.entries| == h.entryCount
      && forall code: nat :: code < h.entryCount ==> ViewEntry(index, h.entryCount, code) == Ok(r.value.entries[code])
  {
    hide ViewEntry, CheckEntry, ValidateEntry, ParseView;
    var view := ParseView(index, payload);
    if view.Err? {
      return Err(view.error);
    }
    var h := view.value;
    for code := 0 to h.entryCount
      invariant forall c: nat :: c < code ==> EntryAccepted(json, index, payload, h, c)
    {
      var entry := ViewEntry(index, h.entryCount, code);
      if entry.Err? {
        assert !EntryAccepted(json, index, payload, h, code);
        return Err(entry.error);
      }
      var check := ValidateEntry(json, entry.value, payload, h.payloadLength);
      if check.Err? {
        assert !EntryAccepted(json, index, payload, h, code);
        return Err(check.error);
      }
    }
    var entries: seq<IndexEntry> := [];
    for code := 0 to h.entryCount
      invariant |entries| == code
      invariant forall c: nat :: c < code ==> ViewEntry(index, h.entryCount, c) == Ok(entries[c])
    {
      assert EntryAccepted(json, index, payload, h, code);
      var entry := ViewEntry(index, h.entryCount, code);
      entries := entries + [entry.value];
    }
    return Ok(FileDictionary(h, entries, payload));
  }

  // ---- writing and parsing ----------------------------------------------------------------------

  /** A dictionary whose header agrees with its entries and payload. */
  predicate Consistent(d: FileDictionary) {
    HeaderWellFormed(d.header) && d.header.entryCount == |d.entries| && d.header.payloadLength == |d.payload|
  }

  /** The view of written sections has the header, and each entry at its place. */
  lemma ViewOfWritten(d: FileDictionary)
    requires Consistent(d)
    ensures ParseView(IndexBytes(d), d.payload) == Ok(d.header)
    ensures |IndexBytes(d)| == DICT_HEADER_SIZE + DICT_INDEX_ENTRY_SIZE * |d.entries|
  {
    HeaderReadsBack(d.header);
    EntriesSize(d.entries);
    hide ParseHeader, Flatten, EntriesBytes;
    assert IndexBytes(d)[..DICT_HEADER_SIZE] == Flatten(HeaderPieces(d.header));
  }

  lemma WrittenEntry(d: FileDictionary, code: nat)
    requires Consistent(d) && code < |d.entries|
    ensures |IndexBytes(d)| == DICT_HEADER_SIZE + DICT_INDEX_ENTRY_SIZE * |d.entries|
    ensures ViewEntry(IndexBytes(d), d.header.entryCount, code) == CheckEntry(d.entries[code])
  {
    ViewOfWritten(d);
    HeaderReadsBack(d.header);
    var head, none: seq<byte> := Flatten(HeaderPieces(d.header)), [];
    hide Flatten, EntriesBytes, EntryAt, CheckEntry, HeaderPieces;
    assert IndexBytes(d) == head + EntriesBytes(d.entries) + none;
    EntriesReadBack(IndexBytes(d), head, d.entries, none, code);
  }

  /** What makes `parse` accept the sections a dictionary was written to. */
  predicate Acceptable(json: JsonCheck, d: FileDictionary) {
    forall code :: 0 <= code < |d.entries| ==>
      CheckEntry(d.entries[code]).Ok? && ValidateEntry(json, d.entries[code], d.payload, |d.payload|).Ok?
  }

  /** Parsing the written sections gives the dictionary back, when every entry is valid, and fails otherwise. */
  method ReparseWritten(json: JsonCheck, d: FileDictionary) returns (r: Result<FileDictionary>)
    requires Consistent(d)
    ensures r.Ok? <==> Acceptable(json, d)
    ensures r.Ok? ==> r.value == d
  {
    ViewOfWritten(d);
    r := ParseDictionary(json, IndexBytes(d), d.payload);
    hide ViewEntry, CheckEntry, ValidateEntry, ParseView, IndexBytes;
    forall code: nat | code < |d.entries|
      ensures ViewEntry(IndexBytes(d), d.header.entryCount, code) == CheckEntry(d.entries[code])
    {
      WrittenEntry(d, code);
    }
    if r.Ok? {
      forall code: nat | code < |d.entries|
        ensures CheckEntry(d.entries[code]).Ok? && ValidateEntry(json, d.entries[code], d.payload, |d.payload|).Ok?
      {
        assert EntryAccepted(json, IndexBytes(d), d.payload, d.header, code);
      }
      assert r.value.entries == d.entries;
    }
  }
}
