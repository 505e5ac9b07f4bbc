/** What canonical bytes say. A reader built only from the wire numbers of the tags, little-endian numbers and
    two's complement finds in the bytes of an encoded value what the value means. */
module CanonicalDecode {
  import opened Wrappers
  import opened Sequences
  import opened Utf8
  import opened Wire
  import opened Canonical
  import opened CanonicalOrder
  import opened CanonicalAcceptance
  import opened CanonicalIdentity

  // ---- reading ------------------------------------------------------------------------------------------

  /** Two's complement, little-endian: the top bit of the last byte is the sign. */
  function TwosComplement(bytes: seq<byte>): (v: int)
    requires bytes != []
    ensures -(Pow256(|bytes|) as int) <= 2 * v < Pow256(|bytes|)
  {
    TopBit(bytes);
    if bytes[|bytes| - 1] < 128 then FromLE(bytes) else FromLE(bytes) - Pow256(|bytes|)
  }

  lemma {:induction false} TopBit(bytes: seq<byte>)
    requires bytes != []
    ensures FromLE(bytes) < Pow256(|bytes|)
    ensures bytes[|bytes| - 1] < 128 <==> 2 * FromLE(bytes) < Pow256(|bytes|)
  {
    if |bytes| > 1 {
      TopBit(bytes[1..]);
      assert Pow256(|bytes| - 1) == 256 * Pow256(|bytes| - 2);
    } else {
      assert FromLE(bytes[1..]) == 0 && Pow256(0) == 1;
    }
  }

  /** The value of a fixed-width payload. */
  function FixedValue(tag: Tag, bytes: seq<byte>): Value
    requires FixedWidth(tag) == Some(|bytes|)
  {
    Pow256Values();
    ToFromLE(bytes);
    match tag
    case 0 => Null
    case 1 => Bool(false)
    case 2 => Bool(true)
    case 3 => Int(8, TwosComplement(bytes))
    case 4 => Uint(8, FromLE(bytes))
    case 5 => Float32(FromLE(bytes))
    case 6 => Float64(FromLE(bytes))
    case 7 => Decimal64(TwosComplement(bytes))
    case 8 => Decimal128(TwosComplement(bytes))
    case 9 => DateDays(TwosComplement(bytes))
    case 10 => TimestampMicros(TwosComplement(bytes))
    case 11 => TimestampNanos(TwosComplement(bytes))
    case _ => Uuid(bytes)
  }

  /** The value of a length-prefixed payload. */
  function PrefixedValue(tag: Tag, payload: seq<byte>): Result<Value> {
    if |payload| >= TWO_64 then Err(BadSection)
    else if tag == 13 then Ok(Binary(payload))
    else if !Utf8Valid(payload) then Err(BadSection)
    else Ok(if tag == 12 then Text(payload) else Json(payload))
  }

  /** The value at the front of the bytes and how many of them it takes. */
  function ReadPayload(tag: Tag, bytes: seq<byte>): (r: Result<(Logical, nat)>)
    ensures r.Ok? ==> r.value.1 <= |bytes|
    decreases |bytes|, 1
  {
    if FixedWidth(tag).Some? then
      var used :- MinWidth(bytes, FixedWidth(tag).value);
      Ok((LScalar(FixedValue(tag, bytes[..used])), used))
    else if tag == 12 || tag == 13 || tag == 15 then
      var (payload, used) :- DecodeLengthPrefixed(bytes);
      var value :- PrefixedValue(tag, payload);
      Ok((LScalar(value), used))
    else
      var (count, pos) :- DecodeVarint(bytes);
      if tag == 16 then
        var (elements, used) :- ReadElements(count, bytes[pos..]);
        Ok((LList(elements), pos + used))
      else if tag == 17 then
        var (fields, used) :- ReadFields(count, bytes[pos..]);
        Ok((LStruct(fields), pos + used))
      else
        var (entries, used) :- ReadEntries(count, bytes[pos..]);
        Ok((LMap(entries), pos + used))
  }

  function ReadTagged(bytes: seq<byte>): (r: Result<(Logical, nat)>)
    ensures r.Ok? ==> 1 <= r.value.1 <= |bytes|
    decreases |bytes|, 1
  {
    var (tag, pos) :- DecodeVarint(bytes);
    if tag > 18 then Err(BadSection)
    else
      var (value, used) :- ReadPayload(tag, bytes[pos..]);
      Ok((value, pos + used))
  }

  function ReadElements(count: nat, bytes: seq<byte>): (r: Result<(seq<Logical>, nat)>)
    ensures r.Ok? ==> r.value.1 <= |bytes|
    decreases |bytes|, 2
  {
    if count == 0 then Ok(([], 0))
    else
      var (first, used) :- ReadTagged(bytes);
      var (rest, more) :- ReadElements(count - 1, bytes[used..]);
      Ok(([first] + rest, used + more))
  }

  function ReadFields(count: nat, bytes: seq<byte>): (r: Result<(map<u64, Logical>, nat)>)
    ensures r.Ok? ==> r.value.1 <= |bytes|
    decreases |bytes|, 2
  {
    if count == 0 then Ok((map[], 0))
    else
      var (id, pos) :- DecodeVarint(bytes);
      var (first, used) :- ReadTagged(bytes[pos..]);
      var (rest, more) :- ReadFields(count - 1, bytes[pos + used..]);
      Ok((rest[id := first], pos + used + more))
  }

  function ReadEntries(count: nat, bytes: seq<byte>): (r: Result<(map<Logical, Logical>, nat)>)
    ensures r.Ok? ==> r.value.1 <= |bytes|
    decreases |bytes|, 2
  {
    if count == 0 then Ok((map[], 0))
    else
      var (key, pos) :- ReadTagged(bytes);
      var (value, used) :- ReadTagged(bytes[pos..]);
      var (rest, more) :- ReadEntries(count - 1, bytes[pos + used..]);
      Ok((rest[key := value], pos + used + more))
  }

  // ---- scalars ------------------------------------------------------------------------------------------

  lemma SignedReads(v: int, n: nat)
    requires n > 0 && -(Pow256(n) as int) <= 2 * v < Pow256(n)
    ensures |SignedLE(v, n)| == n && TwosComplement(SignedLE(v, n)) == v
  {
    TopBit(SignedLE(v, n));
    FromToLE(if v < 0 then v + Pow256(n) else v, n);
  }

  /** Eight bytes hold every value of a narrower integer. */
  lemma NarrowFits(width: nat)
    requires HalfRange(width).Some?
    ensures 0 < HalfRange(width).value <= TWO_63
  {
  }

  lemma FixedReads(v: Value, suffix: seq<byte>)
    requires Encode(v).Ok? && FixedWidth(TagOf(v)).Some?
    ensures ReadPayload(TagOf(v), Encode(v).value + suffix) == Ok((Meaning(v), |Encode(v).value|))
  {
    FixedReadsAlone(v);
    var bytes := Encode(v).value;
    assert (bytes + suffix)[..|bytes|] == bytes;
  }

  /** Every fixed-width scalar: its payload has the width of its tag and says its value. */
  lemma FixedReadsAlone(v: Value)
    requires Encode(v).Ok? && FixedWidth(TagOf(v)).Some?
    ensures FixedWidth(TagOf(v)) == Some(|Encode(v).value|)
    ensures LScalar(FixedValue(TagOf(v), Encode(v).value)) == Meaning(v)
  {
    hide ToLE, FromLE, SignedLE, TwosComplement, Pow256;
    Pow256Values();
    match v {
      case Null =>
      case Bool(_) =>
      case Int(width, x) =>
        NarrowFits(width);
        SignedReads(x, 8);
      case Uint(width, x) =>
        NarrowFits(width);
        FromToLE(x, 8);
      case Float32(x) => FromToLE(x, 4);
      case Float64(x) => FromToLE(x, 8);
      case Decimal64(x) => SignedReads(x, 8);
      case Decimal128(x) => SignedReads(x, 16);
      case DateDays(x) => SignedReads(x, 4);
      case TimestampMicros(x) => SignedReads(x, 8);
      case TimestampNanos(x) => SignedReads(x, 8);
      case Uuid(_) =>
      case _ =>
    }
  }

  lemma ScalarReads(v: Value, suffix: seq<byte>)
    requires IsScalar(v) && Addressable(v) && Encode(v).Ok?
    ensures ReadPayload(TagOf(v), Encode(v).value + suffix) == Ok((Meaning(v), |Encode(v).value|))
  {
    hide DecodeLengthPrefixed, LengthPrefixed, Utf8Valid, FixedValue;
    match v {
      case Text(text) => LengthPrefixedRoundTrip(text, suffix);
      case Binary(bytes) => LengthPrefixedRoundTrip(bytes, suffix);
      case Json(text) => LengthPrefixedRoundTrip(text, suffix);
      case _ => FixedReads(v, suffix);
    }
  }

  // ---- lists, structs and maps --------------------------------------------------------------------------

  /** In front of anything, the bytes say `value`. */
  ghost predicate Says(t: seq<byte>, value: Logical) {
    forall suffix :: ReadTagged(t + suffix) == Ok((value, |t|))
  }

  lemma SaysBefore(t: seq<byte>, value: Logical, rest: seq<byte>)
    requires Says(t, value)
    ensures ReadTagged(t + rest) == Ok((value, |t|)) && (t + rest)[|t|..] == rest
  {
    hide ReadTagged;
  }

  lemma {:induction false} ElementsRead(rows: seq<seq<byte>>, values: seq<Logical>, suffix: seq<byte>)
    requires |rows| == |values| && forall i :: 0 <= i < |rows| ==> Says(rows[i], values[i])
    ensures ReadElements(|rows|, Flatten(rows) + suffix) == Ok((values, |Flatten(rows)|))
  {
    hide ReadTagged, Says;
    if rows != [] {
      var rest := Flatten(rows[1..]) + suffix;
      assert rows == [rows[0]] + rows[1..] && values == [values[0]] + values[1..];
      FirstRow(rows[0], rows[1..], suffix);
      SaysBefore(rows[0], values[0], rest);
      ElementsRead(rows[1..], values[1..], suffix);
    }
  }

  /** `part` holds nothing that `whole` does not. */
  predicate Within<K, V(==)>(part: map<K, V>, whole: map<K, V>) {
    forall k :: k in part ==> k in whole && part[k] == whole[k]
  }

  ghost predicate FieldSays(row: FieldRow, m: map<u64, Logical>) {
    row.id in m && Says(row.tagged, m[row.id])
  }

  lemma FieldStep(count: nat, row: FieldRow, m: map<u64, Logical>, rest: seq<byte>)
    requires FieldSays(row, m) && ReadFields(count, rest).Ok?
    ensures var t := EncodeLeb(row.id) + row.tagged;
      var (fields, used) := ReadFields(count, rest).value;
      ReadFields(count + 1, t + rest) == Ok((fields[row.id := m[row.id]], |t| + used))
  {
    hide ReadTagged, Says, EncodeLeb, DecodeVarint;
    CountedBody(row.id, row.tagged, rest);
    SaysBefore(row.tagged, m[row.id], rest);
    var bytes, pos := EncodeLeb(row.id) + row.tagged + rest, |EncodeLeb(row.id)|;
    assert bytes[pos + |row.tagged|..] == bytes[pos..][|row.tagged|..];
  }

  lemma {:induction false} FieldsRead(rows: seq<FieldRow>, m: map<u64, Logical>, suffix: seq<byte>)
    returns (fields: map<u64, Logical>)
    requires forall row :: row in rows ==> FieldSays(row, m)
    ensures ReadFields(|rows|, Flatten(FieldRows(rows)) + suffix) == Ok((fields, |Flatten(FieldRows(rows))|))
    ensures Within(fields, m) && forall row :: row in rows ==> row.id in fields
  {
    hide FieldSays, EncodeLeb, ReadFields;
    if rows != [] {
      var rest := Flatten(FieldRows(rows[1..])) + suffix;
      assert rows[0] in rows && rows == [rows[0]] + rows[1..];
      var tail := FieldsRead(rows[1..], m, suffix);
      FieldRowsFirst(rows, suffix);
      FieldStep(|rows| - 1, rows[0], m, rest);
      FieldIn(rows[0], m);
      fields := tail[rows[0].id := m[rows[0].id]];
    } else {
      fields := map[];
      assert Flatten(FieldRows(rows)) + suffix == suffix;
      NothingRead(suffix);
    }
  }

  lemma FieldIn(row: FieldRow, m: map<u64, Logical>)
    requires FieldSays(row, m)
    ensures row.id in m
  {
  }

  lemma NothingRead(bytes: seq<byte>)
    ensures ReadFields(0, bytes) == Ok((map[], 0))
  {
  }

  ghost predicate PairSays(p: Pair, m: map<Logical, Logical>, k: Logical) {
    k in m && Says(p.key, k) && Says(p.value, m[k])
  }

  ghost predicate SomeEntry(p: Pair, m: map<Logical, Logical>) {
    exists k :: PairSays(p, m, k)
  }

  lemma EntryStep(count: nat, p: Pair, m: map<Logical, Logical>, k: Logical, rest: seq<byte>)
    requires PairSays(p, m, k) && ReadEntries(count, rest).Ok?
    ensures var t := p.key + p.value;
      var (entries, used) := ReadEntries(count, rest).value;
      ReadEntries(count + 1, t + rest) == Ok((entries[k := m[k]], |t| + used))
  {
    hide ReadTagged, Says, ReadEntries;
    var bytes := p.key + p.value + rest;
    assert bytes == p.key + (p.value + rest);
    SaysBefore(p.key, k, p.value + rest);
    SaysBefore(p.value, m[k], rest);
    assert bytes[|p.key| + |p.value|..] == rest;
    EntriesUnfold(count, bytes);
  }

  lemma EntriesUnfold(count: nat, bytes: seq<byte>)
    requires ReadTagged(bytes).Ok? && ReadTagged(bytes[ReadTagged(bytes).value.1..]).Ok?
    ensures var (key, pos) := ReadTagged(bytes).value;
      var (value, used) := ReadTagged(bytes[pos..]).value;
      var tail := ReadEntries(count, bytes[pos + used..]);
      tail.Ok? ==> ReadEntries(count + 1, bytes) == Ok((tail.value.0[key := value], pos + used + tail.value.1))
  {
    hide ReadTagged;
  }

  lemma {:induction false} EntriesRead(pairs: seq<Pair>, m: map<Logical, Logical>, suffix: seq<byte>)
    returns (entries: map<Logical, Logical>)
    requires forall p :: p in pairs ==> SomeEntry(p, m)
    ensures ReadEntries(|pairs|, Flatten(EntryRows(pairs)) + suffix) == Ok((entries, |Flatten(EntryRows(pairs))|))
    ensures Within(entries, m)
    ensures forall p, k :: p in pairs && Says(p.key, k) ==> k in entries
  {
    hide Says, ReadTagged;
    if pairs != [] {
      var p, rest := pairs[0], Flatten(EntryRows(pairs[1..])) + suffix;
      assert p in pairs && pairs == [p] + pairs[1..];
      var tail := EntriesRead(pairs[1..], m, suffix);
      CanonicalAcceptance.EntryRowsFirst(pairs, suffix);
      var k :| PairSays(p, m, k);
      EntryStep(|pairs| - 1, p, m, k, rest);
      entries := tail[k := m[k]];
      forall other | Says(p.key, other) ensures other in entries {
        SaysBefore(p.key, k, []);
        SaysBefore(p.key, other, []);
      }
    } else {
      entries := map[];
    }
  }

  // ---- any value ----------------------------------------------------------------------------------------

  lemma ListReads(v: Value, suffix: seq<byte>)
    requires v.List? && Addressable(v) && Encode(v).Ok?
    ensures ReadPayload(TagOf(v), Encode(v).value + suffix) == Ok((Meaning(v), |Encode(v).value|))
    decreases v, 0
  {
    var rows, values := EncodeElements(v.elements).value, MeaningOfElements(v.elements);
    ElementsEncoded(v.elements);
    hide EncodeTagged, Says, ReadPayload, EncodeLeb, MeaningOfElements;
    forall i | 0 <= i < |rows| ensures Says(rows[i], values[i]) {
      ElementMeaning(v.elements, i);
      TaggedSays(v.elements[i]);
    }
    ElementsRead(rows, values, suffix);
    ListPayloadReads(|rows|, Flatten(rows), values, suffix);
  }

  /** A count and the elements behind it. */
  lemma ListPayloadReads(count: u64, body: seq<byte>, values: seq<Logical>, suffix: seq<byte>)
    requires ReadElements(count, body + suffix) == Ok((values, |body|))
    ensures ReadPayload(TAG_LIST, EncodeLeb(count) + body + suffix) == Ok((LList(values), |EncodeLeb(count) + body|))
  {
    hide ReadElements, EncodeLeb, DecodeVarint;
    CountedBody(count, body, suffix);
  }

  lemma FieldMeaning(v: Value, row: FieldRow)
    requires v.Struct? && Addressable(v) && Encode(v).Ok?
    requires row in OrderedFields(EncodeFields(v.fields)).value
    ensures FieldSays(row, MeaningOfFields(v.fields))
    decreases v, 0
  {
    StructRows(v.fields);
    FieldLookup(v.fields);
    hide EncodeTagged, OrderedFields, MeaningOfFields, Says;
    var f := FieldOfStructRow(v.fields, row);
    TaggedSays(f.value);
  }

  lemma StructBodyReads(v: Value, rows: seq<FieldRow>, suffix: seq<byte>)
    requires v.Struct? && StructView(v.fields, rows)
    requires forall row :: row in rows ==> FieldSays(row, MeaningOfFields(v.fields))
    ensures ReadFields(|rows|, Flatten(FieldRows(rows)) + suffix) ==
            Ok((MeaningOfFields(v.fields), |Flatten(FieldRows(rows))|))
  {
    hide EncodeTagged, FieldSays, ReadFields, MeaningOfFields, StructView, Meaning;
    var m := MeaningOfFields(v.fields);
    var fields := FieldsRead(rows, m, suffix);
    forall id | id in m ensures id in fields {
      var f := FieldWithId(v.fields, rows, id);
      var row := RowOfField(v.fields, rows, f);
    }
    assert fields == m;
  }

  lemma StructReads(v: Value, suffix: seq<byte>)
    requires v.Struct? && Addressable(v) && Encode(v).Ok?
    ensures ReadPayload(TagOf(v), Encode(v).value + suffix) == Ok((Meaning(v), |Encode(v).value|))
    decreases v, 1
  {
    hide EncodeTagged, FieldSays, ReadFields, EncodeLeb, DecodeVarint, OrderedFields, MeaningOfFields;
    var rows := OrderedFields(EncodeFields(v.fields)).value;
    StructRows(v.fields);
    forall row | row in rows ensures FieldSays(row, MeaningOfFields(v.fields)) {
      FieldMeaning(v, row);
    }
    StructBodyReads(v, rows, suffix);
    CountedBody(|rows|, Flatten(FieldRows(rows)), suffix);
  }

  lemma PairMeaning(v: Value, e: Entry, p: Pair)
    requires v.Map? && Addressable(v) && e in v.entries && IsPairOf(p, e)
    requires Meaning(e.key) in MeaningOfEntries(v.entries)
    requires MeaningOfEntries(v.entries)[Meaning(e.key)] == Meaning(e.value)
    ensures PairSays(p, MeaningOfEntries(v.entries), Meaning(e.key))
    decreases v, 0
  {
    hide EncodeTagged, MeaningOfEntries, Says, Meaning;
    TaggedSays(e.key);
    TaggedSays(e.value);
  }

  lemma PairsMean(v: Value, pairs: seq<Pair>)
    requires v.Map? && Addressable(v) && MapView(v.entries, pairs)
    ensures forall p :: p in pairs ==> SomeEntry(p, MeaningOfEntries(v.entries))
    ensures forall k :: k in MeaningOfEntries(v.entries) ==> exists p :: p in pairs && Says(p.key, k)
    decreases v, 1
  {
    hide Encode, EncodeTagged, Says, MeaningOfEntries, MapView, PairSays, Meaning;
    var m := MeaningOfEntries(v.entries);
    forall p | p in pairs ensures SomeEntry(p, m) {
      var e := EntryOfPair(v.entries, pairs, p);
      EntryIsLookedUp(v.entries, pairs, e);
      PairMeaning(v, e, p);
    }
    forall k | k in m ensures exists p :: p in pairs && Says(p.key, k) {
      var e := EntryWithKey(v.entries, pairs, k);
      var p := PairOfEntry(v.entries, pairs, e);
      TaggedSays(e.key);
    }
  }

  lemma MapReads(v: Value, suffix: seq<byte>)
    requires v.Map? && Addressable(v) && Encode(v).Ok?
    ensures ReadPayload(TagOf(v), Encode(v).value + suffix) == Ok((Meaning(v), |Encode(v).value|))
    decreases v, 2
  {
    hide Encode, Says, ReadEntries, EncodeLeb, DecodeVarint, MeaningOfEntries, SomeEntry, ReadPayload;
    var m := MeaningOfEntries(v.entries);
    var pairs := MapViewOf(v);
    PairsMean(v, pairs);
    hide MapView;
    var entries := EntriesRead(pairs, m, suffix);
    assert entries == m;
    MapPayloadReads(|pairs|, pairs, m, suffix);
  }

  /** A count and the entries behind it. */
  lemma MapPayloadReads(count: u64, pairs: seq<Pair>, m: map<Logical, Logical>, suffix: seq<byte>)
    requires ReadEntries(count, Flatten(EntryRows(pairs)) + suffix) == Ok((m, |Flatten(EntryRows(pairs))|))
    ensures var payload := EncodeLeb(count) + Flatten(EntryRows(pairs));
      ReadPayload(TAG_MAP, payload + suffix) == Ok((LMap(m), |payload|))
  {
    hide ReadEntries, EncodeLeb, DecodeVarint;
    CountedBody(count, Flatten(EntryRows(pairs)), suffix);
  }

  lemma TaggedSays(v: Value)
    requires Addressable(v) && EncodeTagged(v).Ok?
    ensures Says(EncodeTagged(v).value, Meaning(v))
    decreases v, 4
  {
    hide Encode, ReadPayload, DecodeVarint, EncodeLeb, Addressable, Meaning;
    var t, payload := EncodeTagged(v).value, Encode(v).value;
    forall suffix ensures ReadTagged(t + suffix) == Ok((Meaning(v), |t|)) {
      CountedBody(TagOf(v), payload, suffix);
      EncodedReadsBack(v, suffix);
    }
  }

  /** The bytes of an encoded value say what the value means, and end where the value ends. */
  lemma EncodedReadsBack(v: Value, suffix: seq<byte>)
    requires Addressable(v) && Encode(v).Ok?
    ensures ReadPayload(TagOf(v), Encode(v).value + suffix) == Ok((Meaning(v), |Encode(v).value|))
    decreases v, 3
  {
    match v {
      case List(_) => ListReads(v, suffix);
      case Struct(_) => StructReads(v, suffix);
      case Map(_) => MapReads(v, suffix);
      case _ => ScalarReads(v, suffix);
    }
  }
}
