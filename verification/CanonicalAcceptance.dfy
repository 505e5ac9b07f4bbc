/** Every encoded value passes the validator, which stops exactly at its end. */
module CanonicalAcceptance {
  import opened Wrappers
  import opened Sequences
  import opened Wire
  import opened Canonical
  import opened CanonicalLocality
  import opened CanonicalOrder

  /** Every JSON text in the value passes the JSON syntax check. */
  predicate JsonWellFormed(json: JsonCheck, v: Value) {
    match v
    case Json(text) => json(text)
    case List(elements) => forall e | e in elements :: JsonWellFormed(json, e)
    case Struct(fields) => forall f | f in fields :: JsonWellFormed(json, f.value)
    case Map(entries) => forall e | e in entries :: JsonWellFormed(json, e.key) && JsonWellFormed(json, e.value)
    case _ => true
  }

  /** The validator takes `t` from the front of any input, with the tag `tag`. */
  ghost predicate Accepted(json: JsonCheck, tag: Tag, t: seq<byte>) {
    forall suffix :: ValidateTagged(json, t + suffix) == Ok((tag, |t|))
  }

  ghost predicate AnyAccepted(json: JsonCheck, t: seq<byte>) {
    exists tag: Tag :: Accepted(json, tag, t)
  }

  ghost predicate ScalarAccepted(json: JsonCheck, t: seq<byte>) {
    exists tag: Tag :: IsScalarTag(tag) && Accepted(json, tag, t)
  }

  lemma AcceptedAlone(json: JsonCheck, t: seq<byte>)
    requires AnyAccepted(json, t)
    ensures ValidateTagged(json, t).Ok? && ValidateTagged(json, t).value.1 == |t|
  {
    hide ValidateTagged;
    var tag: Tag :| Accepted(json, tag, t);
    assert t + [] == t;
  }

  lemma AcceptedSplit(json: JsonCheck, t1: seq<byte>, s1: seq<byte>, t2: seq<byte>, s2: seq<byte>)
    requires AnyAccepted(json, t1) && AnyAccepted(json, t2)
    requires t1 + s1 == t2 + s2
    ensures t1 == t2 && s1 == s2
  {
    hide ValidateTagged, AnyAccepted;
    AcceptedAlone(json, t1);
    AcceptedAlone(json, t2);
    UniqueSplit(json, t1, s1, t2, s2);
  }

  lemma {:induction false} ElementsAccepted(json: JsonCheck, rows: seq<seq<byte>>, suffix: seq<byte>)
    requires forall row :: row in rows ==> AnyAccepted(json, row)
    ensures ValidateElements(json, |rows|, Flatten(rows) + suffix) == Ok(|Flatten(rows)|)
  {
    if rows != [] {
      var rest := Flatten(rows[1..]) + suffix;
      assert rows[0] in rows;
      ElementsAccepted(json, rows[1..], suffix);
      ElementsStep(json, |rows| - 1, rows[0], rest);
      assert rows == [rows[0]] + rows[1..];
      FirstRow(rows[0], rows[1..], suffix);
    }
  }

  lemma ElementsStep(json: JsonCheck, count: nat, first: seq<byte>, rest: seq<byte>)
    requires AnyAccepted(json, first) && ValidateElements(json, count, rest).Ok?
    ensures ValidateElements(json, count + 1, first + rest) == Ok(|first| + ValidateElements(json, count, rest).value)
  {
    hide ValidateTagged;
    var tag: Tag :| Accepted(json, tag, first);
    assert ValidateTagged(json, first + rest) == Ok((tag, |first|));
    assert (first + rest)[|first|..] == rest;
  }

  lemma FieldAccepted(json: JsonCheck, prev: Option<nat>, row: FieldRow, rest: seq<byte>)
    requires prev.Some? ==> prev.value < row.id
    requires AnyAccepted(json, row.tagged)
    ensures var t := EncodeLeb(row.id) + row.tagged;
      ValidateField(json, prev, t + rest) == Ok((row.id as nat, |t|))
  {
    hide ValidateTagged, EncodeLeb, DecodeLeb;
    var id, t := EncodeLeb(row.id), row.tagged;
    var bytes := id + t + rest;
    var tag: Tag :| Accepted(json, tag, t);
    assert bytes == id + (t + rest);
    LebRoundTrip(row.id, t + rest);
    assert bytes[|id|..] == t + rest;
    assert ValidateTagged(json, t + rest) == Ok((tag, |t|));
  }

  lemma FieldsStep(json: JsonCheck, count: nat, prev: Option<nat>, id: nat, first: seq<byte>, rest: seq<byte>)
    requires ValidateField(json, prev, first + rest) == Ok((id, |first|))
    requires ValidateFields(json, count, Some(id), rest).Ok?
    ensures ValidateFields(json, count + 1, prev, first + rest) ==
            Ok(|first| + ValidateFields(json, count, Some(id), rest).value)
  {
    assert (first + rest)[|first|..] == rest;
  }

  lemma FieldRowsFirst(rows: seq<FieldRow>, suffix: seq<byte>)
    requires rows != []
    ensures Flatten(FieldRows(rows)) + suffix ==
            EncodeLeb(rows[0].id) + rows[0].tagged + (Flatten(FieldRows(rows[1..])) + suffix)
    ensures |Flatten(FieldRows(rows))| ==
            |EncodeLeb(rows[0].id) + rows[0].tagged| + |Flatten(FieldRows(rows[1..]))|
  {
    var first, tail := EncodeLeb(rows[0].id) + rows[0].tagged, FieldRows(rows[1..]);
    hide EncodeLeb;
    assert FieldRows(rows) == [first] + tail;
    FirstRow(first, tail, suffix);
  }

  lemma FirstRow(first: seq<byte>, tail: seq<seq<byte>>, suffix: seq<byte>)
    ensures Flatten([first] + tail) + suffix == first + (Flatten(tail) + suffix)
    ensures |Flatten([first] + tail)| == |first| + |Flatten(tail)|
  {
    assert ([first] + tail)[1..] == tail;
    assert Flatten([first] + tail) == first + Flatten(tail);
  }

  lemma {:induction false} FieldsAccepted(json: JsonCheck, rows: seq<FieldRow>, prev: Option<nat>, suffix: seq<byte>)
    requires AscendingIds(rows)
    requires prev.Some? && rows != [] ==> prev.value < rows[0].id
    requires forall row :: row in rows ==> AnyAccepted(json, row.tagged)
    ensures ValidateFields(json, |rows|, prev, Flatten(FieldRows(rows)) + suffix) == Ok(|Flatten(FieldRows(rows))|)
  {
    hide ValidateField, ValidateTagged, AnyAccepted, EncodeLeb;
    if rows != [] {
      var first := EncodeLeb(rows[0].id) + rows[0].tagged;
      var rest := Flatten(FieldRows(rows[1..])) + suffix;
      assert rows[0] in rows;
      FieldsAccepted(json, rows[1..], Some(rows[0].id), suffix);
      FieldAccepted(json, prev, rows[0], rest);
      FieldsStep(json, |rows| - 1, prev, rows[0].id, first, rest);
      FieldRowsFirst(rows, suffix);
    }
  }

  lemma EntryAccepted(json: JsonCheck, prev: Option<seq<byte>>, pair: Pair, rest: seq<byte>)
    requires prev.Some? ==> LexLt(prev.value, pair.key)
    requires ScalarAccepted(json, pair.key) && AnyAccepted(json, pair.value)
    ensures var t := pair.key + pair.value;
      ValidateEntry(json, prev, t + rest) == Ok((pair.key, |t|))
  {
    hide ValidateTagged, LexLt;
    var k, v := pair.key, pair.value;
    var bytes := k + v + rest;
    var keyTag: Tag :| IsScalarTag(keyTag) && Accepted(json, keyTag, k);
    var valueTag: Tag :| Accepted(json, valueTag, v);
    assert bytes == k + (v + rest);
    assert ValidateTagged(json, k + (v + rest)) == Ok((keyTag, |k|));
    assert bytes[..|k|] == k && bytes[|k|..] == v + rest;
    assert ValidateTagged(json, v + rest) == Ok((valueTag, |v|));
  }

  lemma EntriesStep(json: JsonCheck, count: nat, prev: Option<seq<byte>>, key: seq<byte>, first: seq<byte>,
      rest: seq<byte>)
    requires ValidateEntry(json, prev, first + rest) == Ok((key, |first|))
    requires ValidateEntries(json, count, Some(key), rest).Ok?
    ensures ValidateEntries(json, count + 1, prev, first + rest) ==
            Ok(|first| + ValidateEntries(json, count, Some(key), rest).value)
  {
    assert (first + rest)[|first|..] == rest;
  }

  lemma EntryRowsFirst(pairs: seq<Pair>, suffix: seq<byte>)
    requires pairs != []
    ensures Flatten(EntryRows(pairs)) + suffix ==
            pairs[0].key + pairs[0].value + (Flatten(EntryRows(pairs[1..])) + suffix)
    ensures |Flatten(EntryRows(pairs))| == |pairs[0].key + pairs[0].value| + |Flatten(EntryRows(pairs[1..]))|
  {
    var first, tail := pairs[0].key + pairs[0].value, EntryRows(pairs[1..]);
    assert EntryRows(pairs) == [first] + tail;
    FirstRow(first, tail, suffix);
  }

  lemma AscendingTail(pairs: seq<Pair>)
    requires AscendingKeys(pairs) && pairs != []
    ensures AscendingKeys(pairs[1..])
    ensures pairs[1..] != [] ==> LexLt(pairs[0].key, pairs[1..][0].key)
  {
    if |pairs| > 1 {
      assert KeyLt(pairs[0], pairs[1]);
    }
  }

  lemma {:induction false} EntriesAccepted(json: JsonCheck, pairs: seq<Pair>, prev: Option<seq<byte>>, body: seq<byte>,
      suffix: seq<byte>)
    requires AscendingKeys(pairs) && body == Flatten(EntryRows(pairs))
    requires prev.Some? && pairs != [] ==> LexLt(prev.value, pairs[0].key)
    requires forall p :: p in pairs ==> ScalarAccepted(json, p.key) && AnyAccepted(json, p.value)
    ensures ValidateEntries(json, |pairs|, prev, body + suffix) == Ok(|body|)
  {
    hide ValidateEntry, ValidateTagged, AnyAccepted, ScalarAccepted, LexLt;
    if pairs == [] {
    } else {
      var first := pairs[0].key + pairs[0].value;
      var tail := Flatten(EntryRows(pairs[1..]));
      assert pairs[0] in pairs;
      AscendingTail(pairs);
      EntriesAccepted(json, pairs[1..], Some(pairs[0].key), tail, suffix);
      EntryAccepted(json, prev, pairs[0], tail + suffix);
      EntriesStep(json, |pairs| - 1, prev, pairs[0].key, first, tail + suffix);
      EntryRowsFirst(pairs, suffix);
    }
  }

  lemma LengthPrefixedRoundTrip(payload: Blob, suffix: seq<byte>)
    requires |LengthPrefixed(payload)| < TWO_64
    ensures DecodeLengthPrefixed(LengthPrefixed(payload) + suffix) == Ok((payload, |LengthPrefixed(payload)|))
  {
    var bytes := LengthPrefixed(payload) + suffix;
    var prefix := EncodeLeb(|payload|);
    assert bytes == prefix + (payload + suffix);
    LebRoundTrip(|payload|, payload + suffix);
    assert bytes[|prefix|..|prefix| + |payload|] == payload;
  }

  lemma ScalarPayloadAccepted(json: JsonCheck, v: Value, suffix: seq<byte>)
    requires IsScalar(v) && Encode(v).Ok? && JsonWellFormed(json, v)
    requires |Encode(v).value| < TWO_64
    ensures ValidatePayload(json, TagOf(v), Encode(v).value + suffix) == Ok(|Encode(v).value|)
  {
    match v {
      case Text(text) => LengthPrefixedRoundTrip(text, suffix);
      case Binary(bytes) => LengthPrefixedRoundTrip(bytes, suffix);
      case Json(text) => LengthPrefixedRoundTrip(text, suffix);
      case _ =>
    }
  }

  /** Every length-prefixed payload in the value fits in memory with its prefix. */
  predicate Addressable(v: Value) {
    match v
    case Text(text) => |LengthPrefixed(text)| < TWO_64
    case Binary(bytes) => |LengthPrefixed(bytes)| < TWO_64
    case Json(text) => |LengthPrefixed(text)| < TWO_64
    case List(elements) => |elements| < TWO_64 && forall e | e in elements :: Addressable(e)
    case Struct(fields) => |fields| < TWO_64 && forall f | f in fields :: Addressable(f.value)
    case Map(entries) => |entries| < TWO_64 && forall e | e in entries :: Addressable(e.key) && Addressable(e.value)
    case _ => true
  }

  /** The validator of the body of a list, struct or map. */
  function ValidateBody(json: JsonCheck, tag: Tag, count: nat, bytes: seq<byte>): Result<nat>
    requires tag >= TAG_LIST
  {
    if tag == TAG_LIST then ValidateElements(json, count, bytes)
    else if tag == TAG_STRUCT then ValidateFields(json, count, None, bytes)
    else ValidateEntries(json, count, None, bytes)
  }

  lemma CountedPayload(json: JsonCheck, tag: Tag, count: u64, body: seq<byte>, suffix: seq<byte>)
    requires tag >= TAG_LIST && ValidateBody(json, tag, count, body + suffix) == Ok(|body|)
    ensures ValidatePayload(json, tag, EncodeLeb(count) + body + suffix) == Ok(|EncodeLeb(count) + body|)
  {
    CountedBody(count, body, suffix);
  }

  lemma ListAccepted(json: JsonCheck, v: Value, suffix: seq<byte>)
    requires v.List? && Addressable(v) && Encode(v).Ok? && JsonWellFormed(json, v)
    ensures ValidatePayload(json, TagOf(v), Encode(v).value + suffix) == Ok(|Encode(v).value|)
    decreases v, 0
  {
    var rows := EncodeElements(v.elements).value;
    ElementsEncoded(v.elements);
    forall row | row in rows ensures AnyAccepted(json, row) {
      var i :| 0 <= i < |rows| && rows[i] == row;
      assert EncodeTagged(v.elements[i]) == Ok(row);
      TaggedAccepted(json, v.elements[i]);
    }
    ElementsAccepted(json, rows, suffix);
    CountedPayload(json, TAG_LIST, |rows|, Flatten(rows), suffix);
  }

  lemma StructAccepted(json: JsonCheck, v: Value, suffix: seq<byte>)
    requires v.Struct? && Addressable(v) && Encode(v).Ok? && JsonWellFormed(json, v)
    ensures ValidatePayload(json, TagOf(v), Encode(v).value + suffix) == Ok(|Encode(v).value|)
    decreases v, 0
  {
    var rows := OrderedFields(EncodeFields(v.fields)).value;
    StructRows(v.fields);
    forall row | row in rows ensures AnyAccepted(json, row.tagged) {
      var f := FieldOfStructRow(v.fields, row);
      TaggedAccepted(json, f.value);
    }
    FieldsAccepted(json, rows, None, suffix);
    CountedPayload(json, TAG_STRUCT, |rows|, Flatten(FieldRows(rows)), suffix);
  }

  lemma PairAccepted(json: JsonCheck, v: Value, p: Pair)
    requires v.Map? && Addressable(v) && Encode(v).Ok? && JsonWellFormed(json, v)
    requires p in OrderedEntries(EncodeEntries(v.entries)).value
    ensures ScalarAccepted(json, p.key) && AnyAccepted(json, p.value)
    decreases v, 0
  {
    hide EncodeTagged, ValidateTagged, Accepted, OrderedEntries;
    var e := EntryOfMapPair(v.entries, p);
    TaggedAccepted(json, e.key);
    TaggedAccepted(json, e.value);
  }

  lemma MapAccepted(json: JsonCheck, v: Value, suffix: seq<byte>)
    requires v.Map? && Addressable(v) && Encode(v).Ok? && JsonWellFormed(json, v)
    ensures ValidatePayload(json, TagOf(v), Encode(v).value + suffix) == Ok(|Encode(v).value|)
    decreases v, 1
  {
    var pairs := OrderedEntries(EncodeEntries(v.entries)).value;
    MapPairs(v.entries);
    forall p | p in pairs ensures ScalarAccepted(json, p.key) && AnyAccepted(json, p.value) {
      PairAccepted(json, v, p);
    }
    EntriesAccepted(json, pairs, None, Flatten(EntryRows(pairs)), suffix);
    CountedPayload(json, TAG_MAP, |pairs|, Flatten(EntryRows(pairs)), suffix);
  }

  /** The validator accepts an encoded payload whatever follows it, and uses exactly its bytes. */
  lemma PayloadAccepted(json: JsonCheck, v: Value, suffix: seq<byte>)
    requires Addressable(v) && Encode(v).Ok? && JsonWellFormed(json, v)
    ensures ValidatePayload(json, TagOf(v), Encode(v).value + suffix) == Ok(|Encode(v).value|)
    decreases v, 2
  {
    match v {
      case List(_) => ListAccepted(json, v, suffix);
      case Struct(_) => StructAccepted(json, v, suffix);
      case Map(_) => MapAccepted(json, v, suffix);
      case _ => ScalarPayloadAccepted(json, v, suffix);
    }
  }

  lemma CountedBody(count: u64, body: seq<byte>, suffix: seq<byte>)
    ensures var bytes := EncodeLeb(count) + body + suffix;
      DecodeVarint(bytes) == Ok((count, |EncodeLeb(count)|)) && bytes[|EncodeLeb(count)|..] == body + suffix
  {
    assert EncodeLeb(count) + body + suffix == EncodeLeb(count) + (body + suffix);
    LebRoundTrip(count, body + suffix);
  }

  lemma TaggedAccepted(json: JsonCheck, v: Value)
    requires Addressable(v) && EncodeTagged(v).Ok? && JsonWellFormed(json, v)
    ensures Accepted(json, TagOf(v), EncodeTagged(v).value)
    decreases v, 3
  {
    hide Encode, ValidatePayload, DecodeLeb, EncodeLeb;
    var t, payload := EncodeTagged(v).value, Encode(v).value;
    forall suffix ensures ValidateTagged(json, t + suffix) == Ok((TagOf(v), |t|)) {
      CountedBody(TagOf(v), payload, suffix);
      PayloadAccepted(json, v, suffix);
    }
  }
}
