/** Exactly which values have no canonical form, and what the validator lets through besides them. */
module CanonicalFailures {
  import opened Wrappers
  import opened Sequences
  import opened Wire
  import opened Utf8
  import opened Canonical
  import opened CanonicalOrder
  import opened CanonicalAcceptance
  import opened CanonicalIdentity

  /** The integer fits the width, field ids and map keys do not repeat, and map keys are scalar. */
  predicate Encodable(v: Value) {
    match v
    case Int(width, x) => HalfRange(width).Some? && -HalfRange(width).value <= x < HalfRange(width).value
    case Uint(width, x) => HalfRange(width).Some? && x < 2 * HalfRange(width).value
    case List(elements) => forall e | e in elements :: Encodable(e)
    case Struct(fields) =>
      && (forall f | f in fields :: Encodable(f.value))
      && (forall i, j :: 0 <= i < j < |fields| ==> fields[i].id != fields[j].id)
    case Map(entries) =>
      && (forall e | e in entries :: IsScalar(e.key) && Encodable(e.key) && Encodable(e.value))
      && (forall i, j :: 0 <= i < j < |entries| ==> Meaning(entries[i].key) != Meaning(entries[j].key))
    case _ => true
  }

  lemma DistinctStaysDistinct<T>(s: seq<T>, t: seq<T>)
    requires Distinct(s) && multiset(s) == multiset(t)
    ensures Distinct(t)
  {
    DistinctMultiset(s);
    forall i, j | 0 <= i < j < |t| ensures t[i] != t[j] {
      RepeatCounts(t, i, j);
    }
  }

  lemma FieldsOrder(fields: seq<EncodedField>)
    requires forall i, j :: 0 <= i < j < |fields| ==> fields[i].id != fields[j].id
    requires forall i :: 0 <= i < |fields| ==> fields[i].tagged.Ok?
    ensures OrderedFields(fields).Ok?
  {
    var sorted := StableSort(fields, ById());
    SortPermutes(fields, ById());
    SortMembers(fields, ById());
    DistinctStaysDistinct(fields, sorted);
    forall i | 0 < i < |sorted| ensures FieldIds(sorted)[i - 1] != FieldIds(sorted)[i] {
      assert sorted[i - 1] in fields && sorted[i] in fields;
    }
    forall i | 0 <= i < |sorted| ensures sorted[i].tagged.Ok? {
      assert sorted[i] in fields;
    }
  }

  lemma EntriesOrder(pairs: seq<Pair>)
    requires forall i, j :: 0 <= i < j < |pairs| ==> pairs[i].key != pairs[j].key
    ensures OrderedEntries(Ok(pairs)).Ok?
  {
    var sorted := StableSort(pairs, ByKey());
    SortPermutes(pairs, ByKey());
    SortMembers(pairs, ByKey());
    DistinctStaysDistinct(pairs, sorted);
    forall i | 0 < i < |sorted| ensures PairKeys(sorted)[i - 1] != PairKeys(sorted)[i] {
      assert sorted[i - 1] in pairs && sorted[i] in pairs;
    }
  }

  lemma EncodableStruct(v: Value)
    requires v.Struct? && Encodable(v) && Addressable(v)
    ensures Encode(v).Ok?
    decreases v, 0
  {
    var encoded := EncodeFields(v.fields);
    forall i | 0 <= i < |v.fields| ensures encoded[i].id == v.fields[i].id && encoded[i].tagged.Ok? {
      EncodeFieldsAt(v.fields, i);
      assert v.fields[i] in v.fields;
      EncodableEncodes(v.fields[i].value);
    }
    FieldsOrder(encoded);
  }

  lemma KeyBytesDiffer(a: Value, b: Value)
    requires Addressable(a) && Addressable(b) && EncodeTagged(a).Ok? && EncodeTagged(b).Ok?
    requires Meaning(a) != Meaning(b)
    ensures EncodeTagged(a) != EncodeTagged(b)
  {
    if EncodeTagged(a) == EncodeTagged(b) {
      TaggedForm(a, b);
      Sound(a, b);
    }
  }

  lemma EncodableMap(v: Value)
    requires v.Map? && Encodable(v) && Addressable(v)
    ensures Encode(v).Ok?
    decreases v, 0
  {
    var entries := v.entries;
    EntriesEncoded(entries);
    forall i | 0 <= i < |entries| ensures EncodeEntry(entries[i]).Ok? {
      assert entries[i] in entries;
      EncodableEncodes(entries[i].key);
      EncodableEncodes(entries[i].value);
    }
    var pairs := EncodeEntries(entries).value;
    forall i, j | 0 <= i < j < |entries| ensures pairs[i].key != pairs[j].key {
      assert entries[i] in entries && entries[j] in entries;
      assert EncodeEntry(entries[i]) == Ok(pairs[i]) && EncodeEntry(entries[j]) == Ok(pairs[j]);
      KeyBytesDiffer(entries[i].key, entries[j].key);
    }
    EntriesOrder(pairs);
  }

  lemma EncodableEncodes(v: Value)
    requires Encodable(v) && Addressable(v)
    ensures Encode(v).Ok? && EncodeTagged(v).Ok?
    decreases v, 1
  {
    match v {
      case List(elements) =>
        ElementsEncoded(elements);
        forall i | 0 <= i < |elements| ensures EncodeTagged(elements[i]).Ok? {
          assert elements[i] in elements;
          EncodableEncodes(elements[i]);
        }
      case Struct(_) => EncodableStruct(v);
      case Map(_) => EncodableMap(v);
      case _ =>
    }
  }

  lemma EncodedIsEncodable(v: Value)
    requires Encode(v).Ok?
    ensures Encodable(v)
    decreases v
  {
    match v {
      case List(elements) =>
        ElementsEncoded(elements);
        forall e | e in elements ensures Encodable(e) {
          var i :| 0 <= i < |elements| && elements[i] == e;
          assert EncodeTagged(elements[i]).Ok?;
          EncodedIsEncodable(e);
        }
      case Struct(fields) =>
        var rows := StructViewOf(v);
        forall f | f in fields ensures Encodable(f.value) {
          var row := RowOfField(fields, rows, f);
          EncodedIsEncodable(f.value);
        }
      case Map(entries) =>
        var pairs := MapViewOf(v);
        KeyMeaningsDistinct(entries, pairs);
        forall e | e in entries ensures IsScalar(e.key) && Encodable(e.key) && Encodable(e.value) {
          var p := PairOfEntry(entries, pairs, e);
          EncodedIsEncodable(e.key);
          EncodedIsEncodable(e.value);
        }
      case _ =>
    }
  }

  /** Encoding fails exactly on an integer too wide for its width, a repeated field id, a nested map
      key or a repeated map key, at any depth. */
  lemma EncodesExactlyWhenEncodable(v: Value)
    requires Addressable(v)
    ensures Encode(v).Ok? <==> Encodable(v)
  {
    if Encode(v).Ok? {
      EncodedIsEncodable(v);
    }
    if Encodable(v) {
      EncodableEncodes(v);
    }
  }

  /** The validator is weaker than the encoder: it takes an overlong length prefix. `[0x80, 0x00]` and
      `[0x00]` are both accepted as the empty string, and only the second is ever written. */
  lemma ValidatorTakesOverlongPrefix(json: JsonCheck)
    ensures ValidateCanonicalPayload(json, TAG_UTF8, [0x80, 0x00]) == Ok(())
    ensures ValidateCanonicalPayload(json, TAG_UTF8, [0x00]) == Ok(())
    ensures Encode(Text([])) == Ok([0x00])
    ensures forall v :: Addressable(v) && TagOf(v) == TAG_UTF8 ==> Encode(v) != Ok([0x80, 0x00])
  {
    hide Utf8Valid, EncodeLeb, DecodeLeb, DecodeLebFrom;
    var bytes: seq<byte> := [0x80, 0x00];
    OverlongZero();
    assert DecodeLengthPrefixed(bytes) == Ok((bytes[2..2], 2));
    assert bytes[2..2] == [] && Utf8Valid([]) by { AsciiIsValid([]); }
    var short: seq<byte> := [0x00];
    assert DecodeLengthPrefixed(short) == Ok((short[1..1], 1));
    assert short[1..1] == [];
    assert Encode(Text([])) == Ok(short) by {
      ShortZero();
      assert LengthPrefixed([]) == EncodeLeb(0) + [] == short;
    }
    forall v | Addressable(v) && TagOf(v) == TAG_UTF8 ensures Encode(v) != Ok(bytes) {
      TextIsShortest(v);
    }
  }

  lemma OverlongZero()
    ensures DecodeLeb([0x80, 0x00]) == Ok((0, 2)) && DecodeLeb([0x00]) == Ok((0, 1))
  {
    var bytes: seq<byte> := [0x80, 0x00];
    var tail: seq<byte> := [0x00];
    assert bytes[1..] == tail;
    assert DecodeLebFrom(tail, 7) == Ok((0, 1));
  }

  lemma ShortZero()
    ensures EncodeLeb(0) == [0x00]
  {
  }

  lemma TextIsShortest(v: Value)
    requires Addressable(v) && TagOf(v) == TAG_UTF8
    ensures Encode(v) != Ok([0x80, 0x00])
  {
    ShortZero();
    if Encode(v) == Ok([0x80, 0x00]) {
      LebRoundTrip(|v.text|, v.text);
      OverlongZero();
    }
  }
}
