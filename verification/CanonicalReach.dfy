/** The encoder reaches every accepted payload whose varints are all shortest. */
module CanonicalReach {
  import opened Wrappers
  import opened Sequences
  import opened Utf8
  import opened Wire
  import opened Canonical
  import opened CanonicalOrder
  import opened CanonicalAcceptance
  import opened CanonicalIdentity
  import opened CanonicalJson
  import opened CanonicalMinimal

  /** The JSON check takes only strings. */
  ghost predicate ChecksStrings(json: JsonCheck) {
    forall x :: json(x) ==> Utf8Valid(x)
  }

  predicate Good(json: JsonCheck, v: Value) {
    Addressable(v) && JsonWellFormed(json, v)
  }

  // ---- fixed-width payloads ---------------------------------------------------------------------------

  /** Every pattern of `n` bytes is some two's complement number. */
  lemma SignedFromBytes(bytes: seq<byte>, half: int) returns (v: int)
    requires bytes != [] && 2 * half == Pow256(|bytes|)
    ensures -half <= v < half && SignedLE(v, |bytes|) == bytes
  {
    ToFromLE(bytes);
    var n := FromLE(bytes);
    v := if n < half then n else n - 2 * half;
  }

  lemma WideReached(tag: Tag, bytes: seq<byte>) returns (v: Value)
    requires FixedWidth(tag) == Some(8) && |bytes| == 8
    ensures TagOf(v) == tag && Encode(v) == Ok(bytes) && IsScalar(v) && !v.Json? && !v.Text? && !v.Binary?
  {
    hide ToLE, FromLE, SignedLE;
    Pow256Values();
    ToFromLE(bytes);
    var x := SignedFromBytes(bytes, TWO_63);
    v := if tag == TAG_INT64 then Int(8, x)
         else if tag == TAG_UINT64 then Uint(8, FromLE(bytes))
         else if tag == TAG_FLOAT64 then Float64(FromLE(bytes))
         else if tag == TAG_DECIMAL64 then Decimal64(x)
         else if tag == TAG_TIMESTAMP_MICROS then TimestampMicros(x)
         else TimestampNanos(x);
  }

  lemma OtherWidthsReached(tag: Tag, bytes: seq<byte>) returns (v: Value)
    requires FixedWidth(tag).Some? && FixedWidth(tag) != Some(8) && |bytes| == FixedWidth(tag).value
    ensures TagOf(v) == tag && Encode(v) == Ok(bytes) && IsScalar(v) && !v.Json? && !v.Text? && !v.Binary?
  {
    hide ToLE, FromLE, SignedLE;
    Pow256Values();
    ToFromLE(bytes);
    if tag == TAG_UUID {
      v := Uuid(bytes);
    } else if tag == TAG_FLOAT32 {
      v := Float32(FromLE(bytes));
    } else if tag == TAG_DATE_DAYS {
      var x := SignedFromBytes(bytes, TWO_31);
      v := DateDays(x);
    } else if tag == TAG_DECIMAL128 {
      var x := SignedFromBytes(bytes, TWO_127);
      v := Decimal128(x);
    } else {
      v := if tag == 0 then Null else Bool(tag == 2);
    }
  }

  // ---- length-prefixed payloads -----------------------------------------------------------------------

  lemma PrefixedReached(bytes: seq<byte>)
    requires DecodeLengthPrefixed(bytes).Ok? && Shortest(bytes)
    ensures var (payload, used) := DecodeLengthPrefixed(bytes).value;
      |payload| < TWO_64 && LengthPrefixed(payload) == bytes[..used] && |LengthPrefixed(payload)| < TWO_64
  {
    hide EncodeLeb;
    ShortestIsEncoding(bytes);
    var (len, prefix) := DecodeVarint(bytes).value;
    assert bytes[..prefix + len] == bytes[..prefix] + bytes[prefix..prefix + len];
  }

  lemma VarintBefore(bytes: seq<byte>)
    requires DecodeLengthPrefixed(bytes).Ok?
    ensures DecodeVarint(bytes).Ok?
  {
  }

  lemma StringReached(json: JsonCheck, tag: Tag, bytes: seq<byte>) returns (v: Value)
    requires tag == TAG_UTF8 || tag == TAG_BINARY || tag == TAG_JSON
    requires ChecksStrings(json) && ValidatePayload(json, tag, bytes).Ok? && MinimalPayload(tag, bytes)
    ensures TagOf(v) == tag && Good(json, v) && Encode(v) == Ok(bytes[..ValidatePayload(json, tag, bytes).value])
  {
    hide LengthPrefixed, Utf8Valid, DecodeLengthPrefixed, DecodeVarint, Shortest;
    VarintBefore(bytes);
    PrefixedReached(bytes);
    var payload := DecodeLengthPrefixed(bytes).value.0;
    if tag == TAG_UTF8 {
      v := Text(payload);
    } else if tag == TAG_BINARY {
      v := Binary(payload);
    } else {
      v := Json(payload);
    }
  }

  // ---- lists ------------------------------------------------------------------------------------------

  /** Cutting at `n` what was cut at `m`. */
  lemma CutTwice(bytes: seq<byte>, n: nat, m: nat)
    requires n + m <= |bytes|
    ensures bytes[..n] + bytes[n..][..m] == bytes[..n + m]
  {
  }

  lemma ElementsReached(json: JsonCheck, count: nat, bytes: seq<byte>) returns (vs: seq<Value>)
    requires ChecksStrings(json) && ValidateElements(json, count, bytes).Ok? && MinimalElements(count, bytes)
    ensures |vs| == count && forall v :: v in vs ==> Good(json, v)
    ensures EncodeElements(vs).Ok?
    ensures Flatten(EncodeElements(vs).value) == bytes[..ValidateElements(json, count, bytes).value]
    decreases |bytes|, 2
  {
    hide ValidateTagged, MinimalTagged, EncodeTagged, Good, ChecksStrings;
    if count == 0 {
      vs := [];
    } else {
      TaggedUnchecked(json, bytes);
      var used := ValidateTagged(json, bytes).value.1;
      var v := TaggedReached(json, bytes);
      var rest := ElementsReached(json, count - 1, bytes[used..]);
      vs := [v] + rest;
      assert vs[1..] == rest;
      var rows := EncodeElements(rest).value;
      assert EncodeElements(vs) == Ok([EncodeTagged(v).value] + rows);
      assert ([EncodeTagged(v).value] + rows)[1..] == rows;
      CutTwice(bytes, used, ValidateElements(json, count - 1, bytes[used..]).value);
    }
  }

  // ---- structs ----------------------------------------------------------------------------------------

  predicate IdsAbove(prev: Option<nat>, fields: seq<Field>) {
    && (prev.Some? ==> forall i :: 0 <= i < |fields| ==> prev.value < fields[i].id)
    && forall i, j :: 0 <= i < j < |fields| ==> fields[i].id < fields[j].id
  }

  lemma FieldReached(json: JsonCheck, prev: Option<nat>, bytes: seq<byte>) returns (f: Field)
    requires ChecksStrings(json) && ValidateField(json, prev, bytes).Ok? && MinimalFields(1, bytes)
    ensures var (id, used) := ValidateField(json, prev, bytes).value;
      && f.id == id && (prev.Some? ==> prev.value < id) && Good(json, f.value) && EncodeTagged(f.value).Ok?
      && EncodeLeb(f.id) + EncodeTagged(f.value).value == bytes[..used]
    decreases |bytes|, 2
  {
    hide ValidateTagged, MinimalTagged, EncodeTagged, Good, ChecksStrings, EncodeLeb, DecodeVarint, Shortest;
    ShortestIsEncoding(bytes);
    var (id, pos) := DecodeVarint(bytes).value;
    var v := TaggedReached(json, bytes[pos..]);
    f := Field(id, v);
    CutTwice(bytes, pos, ValidateTagged(json, bytes[pos..]).value.1);
  }

  /** Minimal fields: the first one, then the others behind it. */
  lemma MinimalFieldsSplit(json: JsonCheck, count: nat, prev: Option<nat>, bytes: seq<byte>)
    requires count > 0 && ValidateField(json, prev, bytes).Ok? && MinimalFields(count, bytes)
    ensures MinimalFields(1, bytes) && MinimalFields(count - 1, bytes[ValidateField(json, prev, bytes).value.1..])
  {
    hide ValidateTagged, MinimalTagged, DecodeVarint, Shortest;
    var pos := DecodeVarint(bytes).value.1;
    TaggedUnchecked(json, bytes[pos..]);
    var used := ValidateTagged(json, bytes[pos..]).value.1;
    assert bytes[pos..][used..] == bytes[pos + used..];
  }

  lemma FieldsReached(json: JsonCheck, count: nat, prev: Option<nat>, bytes: seq<byte>)
    returns (fields: seq<Field>, rows: seq<FieldRow>)
    requires ChecksStrings(json) && ValidateFields(json, count, prev, bytes).Ok? && MinimalFields(count, bytes)
    ensures |fields| == count && IdsAbove(prev, fields) && forall f :: f in fields ==> Good(json, f.value)
    ensures CollectRows(EncodeFields(fields)) == Ok(rows)
    ensures Flatten(FieldRows(rows)) == bytes[..ValidateFields(json, count, prev, bytes).value]
    decreases |bytes|, 3
  {
    hide ValidateField, MinimalFields, EncodeTagged, Good, ChecksStrings, EncodeLeb, IdsAbove, CollectRows,
      EncodeFields;
    if count == 0 {
      fields, rows := [], [];
      NoFields(prev);
    } else {
      MinimalFieldsSplit(json, count, prev, bytes);
      var (id, used) := ValidateField(json, prev, bytes).value;
      var f := FieldReached(json, prev, bytes);
      var more, tail := FieldsReached(json, count - 1, Some(id), bytes[used..]);
      fields, rows := [f] + more, [FieldRow(id, EncodeTagged(f.value).value)] + tail;
      FirstFieldCollected(f, more, tail);
      FirstIdLeast(prev, f, more);
      FirstFieldRow(rows[0], tail);
      CutTwice(bytes, used, ValidateFields(json, count - 1, Some(id), bytes[used..]).value);
    }
  }

  lemma NoFields(prev: Option<nat>)
    ensures IdsAbove(prev, []) && CollectRows(EncodeFields([])) == Ok([])
  {
  }

  lemma FirstIdLeast(prev: Option<nat>, first: Field, tail: seq<Field>)
    requires IdsAbove(Some(first.id), tail) && (prev.Some? ==> prev.value < first.id)
    ensures IdsAbove(prev, [first] + tail)
  {
  }

  lemma FirstFieldRow(row: FieldRow, tail: seq<FieldRow>)
    ensures Flatten(FieldRows([row] + tail)) == EncodeLeb(row.id) + row.tagged + Flatten(FieldRows(tail))
  {
    hide EncodeLeb;
    assert ([row] + tail)[1..] == tail;
    assert ([EncodeLeb(row.id) + row.tagged] + FieldRows(tail))[1..] == FieldRows(tail);
  }

  lemma FirstFieldCollected(f: Field, more: seq<Field>, tail: seq<FieldRow>)
    requires EncodeTagged(f.value).Ok? && CollectRows(EncodeFields(more)) == Ok(tail)
    ensures CollectRows(EncodeFields([f] + more)) == Ok([FieldRow(f.id, EncodeTagged(f.value).value)] + tail)
  {
    hide EncodeTagged;
    var fields := [f] + more;
    assert fields[0] == f && fields[1..] == more;
    assert EncodeFields(fields) == [EncodeField(f)] + EncodeFields(more);
    assert ([EncodeField(f)] + EncodeFields(more))[1..] == EncodeFields(more);
  }

  lemma {:induction false} SortOfSorted<T>(s: seq<T>, le: (T, T) -> bool)
    requires SortedBy(s, le)
    ensures StableSort(s, le) == s
  {
    if s != [] {
      SortOfSorted(s[1..], le);
    }
  }

  /** Fields in ascending order need no sorting. */
  lemma AscendingFieldsOrder(fields: seq<Field>, rows: seq<FieldRow>)
    requires IdsAbove(None, fields) && CollectRows(EncodeFields(fields)) == Ok(rows)
    ensures OrderedFields(EncodeFields(fields)) == Ok(rows)
  {
    var encoded := EncodeFields(fields);
    forall i | 0 <= i < |fields| ensures encoded[i].id == fields[i].id {
      EncodedIdAt(fields, i);
    }
    hide EncodeFields, CollectRows;
    assert SortedBy(encoded, ById());
    SortOfSorted(encoded, ById());
  }

  // ---- maps -------------------------------------------------------------------------------------------

  predicate KeysAbove(prev: Option<seq<byte>>, pairs: seq<Pair>) {
    && (prev.Some? ==> forall i :: 0 <= i < |pairs| ==> LexLt(prev.value, pairs[i].key))
    && AscendingKeys(pairs)
  }

  lemma ScalarByTag(v: Value)
    ensures IsScalar(v) <==> IsScalarTag(TagOf(v))
  {
  }

  lemma EntryReached(json: JsonCheck, prev: Option<seq<byte>>, bytes: seq<byte>) returns (e: Entry, p: Pair)
    requires ChecksStrings(json) && ValidateEntry(json, prev, bytes).Ok? && MinimalEntries(1, bytes)
    ensures var (key, used) := ValidateEntry(json, prev, bytes).value;
      && p.key == key && (prev.Some? ==> LexLt(prev.value, key)) && p.key + p.value == bytes[..used]
    ensures EncodeEntry(e) == Ok(p) && Good(json, e.key) && Good(json, e.value)
    decreases |bytes|, 2
  {
    hide ValidateTagged, MinimalTagged, EncodeTagged, Good, ChecksStrings, LexLt;
    TaggedUnchecked(json, bytes);
    var keyLen := ValidateTagged(json, bytes).value.1;
    var k := TaggedReached(json, bytes);
    ScalarByTag(k);
    var v := TaggedReached(json, bytes[keyLen..]);
    e, p := Entry(k, v), Pair(EncodeTagged(k).value, EncodeTagged(v).value);
    CutTwice(bytes, keyLen, ValidateTagged(json, bytes[keyLen..]).value.1);
  }

  lemma MinimalEntriesSplit(json: JsonCheck, count: nat, prev: Option<seq<byte>>, bytes: seq<byte>)
    requires count > 0 && ValidateEntry(json, prev, bytes).Ok? && MinimalEntries(count, bytes)
    ensures MinimalEntries(1, bytes) && MinimalEntries(count - 1, bytes[ValidateEntry(json, prev, bytes).value.1..])
  {
    hide ValidateTagged, MinimalTagged, LexLt;
    TaggedUnchecked(json, bytes);
    var pos := ValidateTagged(json, bytes).value.1;
    TaggedUnchecked(json, bytes[pos..]);
    var used := ValidateTagged(json, bytes[pos..]).value.1;
    assert bytes[pos..][used..] == bytes[pos + used..];
  }

  lemma FirstKeyLeast(prev: Option<seq<byte>>, first: Pair, tail: seq<Pair>)
    requires KeysAbove(Some(first.key), tail) && (prev.Some? ==> LexLt(prev.value, first.key))
    ensures KeysAbove(prev, [first] + tail)
  {
    hide LexLt;
    var pairs := [first] + tail;
    if prev.Some? {
      forall i | 0 <= i < |pairs| ensures LexLt(prev.value, pairs[i].key) {
        if i > 0 {
          LexTransitive(prev.value, first.key, tail[i - 1].key);
        }
      }
    }
    forall i, j | 0 <= i < j < |pairs| ensures KeyLt(pairs[i], pairs[j]) {
      if i > 0 {
        assert KeyLt(tail[i - 1], tail[j - 1]);
      }
    }
  }

  lemma EntriesReached(json: JsonCheck, count: nat, prev: Option<seq<byte>>, bytes: seq<byte>)
    returns (entries: seq<Entry>, pairs: seq<Pair>)
    requires ChecksStrings(json) && ValidateEntries(json, count, prev, bytes).Ok? && MinimalEntries(count, bytes)
    ensures |entries| == count && forall e :: e in entries ==> Good(json, e.key) && Good(json, e.value)
    ensures EncodeEntries(entries) == Ok(pairs) && KeysAbove(prev, pairs)
    ensures Flatten(EntryRows(pairs)) == bytes[..ValidateEntries(json, count, prev, bytes).value]
    decreases |bytes|, 3
  {
    hide ValidateEntry, MinimalEntries, EncodeEntry, Good, ChecksStrings, KeysAbove;
    if count == 0 {
      entries, pairs := [], [];
      NoKeys(prev);
    } else {
      MinimalEntriesSplit(json, count, prev, bytes);
      var (key, used) := ValidateEntry(json, prev, bytes).value;
      var e, p := EntryReached(json, prev, bytes);
      var more, tail := EntriesReached(json, count - 1, Some(key), bytes[used..]);
      entries, pairs := [e] + more, [p] + tail;
      assert entries[1..] == more && pairs[1..] == tail;
      FirstKeyLeast(prev, p, tail);
      FirstRow(p.key + p.value, EntryRows(tail), []);
      assert Flatten(EntryRows(pairs)) == p.key + p.value + Flatten(EntryRows(tail));
      CutTwice(bytes, used, ValidateEntries(json, count - 1, Some(key), bytes[used..]).value);
    }
  }

  lemma NoKeys(prev: Option<seq<byte>>)
    ensures KeysAbove(prev, [])
  {
  }

  lemma AscendingEntriesOrder(pairs: seq<Pair>)
    requires KeysAbove(None, pairs)
    ensures OrderedEntries(Ok(pairs)) == Ok(pairs)
  {
    hide LexLt;
    forall i, j | 0 <= i < j < |pairs| ensures ByKey()(pairs[i], pairs[j]) && pairs[i].key != pairs[j].key {
      assert KeyLt(pairs[i], pairs[j]);
      LexIrreflexive(pairs[i].key);
    }
    SortOfSorted(pairs, ByKey());
  }

  // ---- any payload ------------------------------------------------------------------------------------

  /** The count and the body of a nested payload. */
  lemma BodyOf(json: JsonCheck, tag: Tag, bytes: seq<byte>) returns (count: u64, pos: nat)
    requires tag >= TAG_LIST && ValidatePayload(json, tag, bytes).Ok? && MinimalPayload(tag, bytes)
    ensures 1 <= pos <= |bytes| && EncodeLeb(count) == bytes[..pos]
    ensures ValidateBody(json, tag, count, bytes[pos..]).Ok?
    ensures ValidatePayload(json, tag, bytes).value == pos + ValidateBody(json, tag, count, bytes[pos..]).value
    ensures tag == TAG_LIST ==> MinimalElements(count, bytes[pos..])
    ensures tag == TAG_STRUCT ==> MinimalFields(count, bytes[pos..])
    ensures tag == TAG_MAP ==> MinimalEntries(count, bytes[pos..])
  {
    hide ValidateElements, ValidateFields, ValidateEntries, MinimalElements, MinimalFields, MinimalEntries, EncodeLeb;
    ShortestIsEncoding(bytes);
    count, pos := DecodeVarint(bytes).value.0, DecodeVarint(bytes).value.1;
  }

  /** A body written behind its count. */
  lemma CountedIs(count: u64, body: seq<byte>, bytes: seq<byte>, pos: nat, used: nat)
    requires pos + used <= |bytes| && EncodeLeb(count) == bytes[..pos] && body == bytes[pos..][..used]
    ensures EncodeLeb(count) + body == bytes[..pos + used]
  {
    CutTwice(bytes, pos, used);
  }

  lemma ListReached(json: JsonCheck, bytes: seq<byte>) returns (v: Value)
    requires ChecksStrings(json) && ValidatePayload(json, TAG_LIST, bytes).Ok? && MinimalPayload(TAG_LIST, bytes)
    ensures v.List? && Good(json, v) && Encode(v) == Ok(bytes[..ValidatePayload(json, TAG_LIST, bytes).value])
    decreases |bytes|, 0
  {
    hide EncodeLeb, ChecksStrings, ValidatePayload, MinimalPayload, ValidateElements, MinimalElements, Flatten;
    var count, pos := BodyOf(json, TAG_LIST, bytes);
    var vs := ElementsReached(json, count, bytes[pos..]);
    CountedIs(count, Flatten(EncodeElements(vs).value), bytes, pos, ValidateElements(json, count, bytes[pos..]).value);
    v := List(vs);
    hide EncodeElements;
  }

  lemma StructReached(json: JsonCheck, bytes: seq<byte>) returns (v: Value)
    requires ChecksStrings(json) && ValidatePayload(json, TAG_STRUCT, bytes).Ok? && MinimalPayload(TAG_STRUCT, bytes)
    ensures v.Struct? && Good(json, v) && Encode(v) == Ok(bytes[..ValidatePayload(json, TAG_STRUCT, bytes).value])
    decreases |bytes|, 0
  {
    hide EncodeLeb, ChecksStrings, ValidatePayload, MinimalPayload, ValidateFields, MinimalFields, Flatten;
    hide OrderedFields, EncodeFields, CollectRows, FieldRows;
    var count, pos := BodyOf(json, TAG_STRUCT, bytes);
    var fields, rows := FieldsReached(json, count, None, bytes[pos..]);
    AscendingFieldsOrder(fields, rows);
    CountedIs(count, Flatten(FieldRows(rows)), bytes, pos, ValidateFields(json, count, None, bytes[pos..]).value);
    v := Struct(fields);
  }

  lemma MapReached(json: JsonCheck, bytes: seq<byte>) returns (v: Value)
    requires ChecksStrings(json) && ValidatePayload(json, TAG_MAP, bytes).Ok? && MinimalPayload(TAG_MAP, bytes)
    ensures v.Map? && Good(json, v) && Encode(v) == Ok(bytes[..ValidatePayload(json, TAG_MAP, bytes).value])
    decreases |bytes|, 0
  {
    hide EncodeLeb, ChecksStrings, ValidatePayload, MinimalPayload, ValidateEntries, MinimalEntries, Flatten;
    hide OrderedEntries, EncodeEntries, EntryRows, KeysAbove;
    var count, pos := BodyOf(json, TAG_MAP, bytes);
    var entries, pairs := EntriesReached(json, count, None, bytes[pos..]);
    AscendingEntriesOrder(pairs);
    CountedIs(count, Flatten(EntryRows(pairs)), bytes, pos, ValidateEntries(json, count, None, bytes[pos..]).value);
    v := Map(entries);
  }

  /** Every accepted minimal payload is the encoding of a value. */
  lemma PayloadReached(json: JsonCheck, tag: Tag, bytes: seq<byte>) returns (v: Value)
    requires ChecksStrings(json) && ValidatePayload(json, tag, bytes).Ok? && MinimalPayload(tag, bytes)
    ensures TagOf(v) == tag && Good(json, v) && Encode(v) == Ok(bytes[..ValidatePayload(json, tag, bytes).value])
    decreases |bytes|, 1
  {
    if tag == TAG_LIST {
      v := ListReached(json, bytes);
    } else if tag == TAG_STRUCT {
      v := StructReached(json, bytes);
    } else if tag == TAG_MAP {
      v := MapReached(json, bytes);
    } else if FixedWidth(tag).None? {
      v := StringReached(json, tag, bytes);
    } else if FixedWidth(tag) == Some(8) {
      v := WideReached(tag, bytes[..8]);
    } else {
      v := OtherWidthsReached(tag, bytes[..FixedWidth(tag).value]);
    }
  }

  lemma TaggedReached(json: JsonCheck, bytes: seq<byte>) returns (v: Value)
    requires ChecksStrings(json) && ValidateTagged(json, bytes).Ok? && MinimalTagged(bytes)
    ensures var (tag, used) := ValidateTagged(json, bytes).value;
      TagOf(v) == tag && Good(json, v) && EncodeTagged(v) == Ok(bytes[..used])
    decreases |bytes|, 1
  {
    hide DecodeVarint, ValidatePayload, MinimalPayload, EncodeLeb, Encode, ChecksStrings, Good, Shortest;
    ShortestIsEncoding(bytes);
    var (raw, pos) := DecodeVarint(bytes).value;
    v := PayloadReached(json, raw, bytes[pos..]);
    CutTwice(bytes, pos, ValidatePayload(json, raw, bytes[pos..]).value);
  }

  /** Acceptance means canonicity exactly for payloads with shortest varints: these, and no others, are what
      the encoder writes for values with well-formed JSON. */
  lemma CanonicalExactly(json: JsonCheck, tag: Tag, bytes: seq<byte>)
    requires ChecksStrings(json)
    ensures ValidateCanonicalPayload(json, tag, bytes).Ok? && MinimalPayload(tag, bytes) <==>
      exists v :: Addressable(v) && JsonWellFormed(json, v) && TagOf(v) == tag && Encode(v) == Ok(bytes)
  {
    hide ValidatePayload, MinimalPayload, Encode, Addressable, JsonWellFormed, ChecksStrings;
    if ValidateCanonicalPayload(json, tag, bytes).Ok? && MinimalPayload(tag, bytes) {
      var v := PayloadReached(json, tag, bytes);
      assert bytes[..|bytes|] == bytes;
      assert Addressable(v) && JsonWellFormed(json, v) && TagOf(v) == tag && Encode(v) == Ok(bytes);
    }
    if v :| Addressable(v) && JsonWellFormed(json, v) && TagOf(v) == tag && Encode(v) == Ok(bytes) {
      assert bytes + [] == bytes;
      PayloadAccepted(json, v, []);
      EncodedIsMinimal(v, []);
    }
  }
}
