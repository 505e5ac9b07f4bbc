/** When accepted bytes are canonical: exactly when every varint in them is in its shortest form. */
module CanonicalMinimal {
  import opened Wrappers
  import opened Sequences
  import opened Wire
  import opened Canonical
  import opened CanonicalOrder
  import opened CanonicalAcceptance
  import opened CanonicalIdentity

  // ---- shortest varints -----------------------------------------------------------------------------

  /** The varint at the head of the bytes ends in a group that is not empty, unless it is its only one. */
  predicate Shortest(bytes: seq<byte>)
    requires DecodeVarint(bytes).Ok?
  {
    var used := DecodeVarint(bytes).value.1;
    used == 1 || bytes[used - 1] != 0
  }

  lemma {:induction false} ShortestFrom(bytes: seq<byte>, shift: nat)
    requires shift < 64 && DecodeLebFrom(bytes, shift).Ok?
    ensures var (v, used) := DecodeLebFrom(bytes, shift).value;
      (used == 1 || bytes[used - 1] != 0) <==> bytes[..used] == EncodeLeb(v)
    decreases |bytes|
  {
    var (v, used) := DecodeLebFrom(bytes, shift).value;
    if bytes[0] >= 128 {
      var tail := bytes[1..];
      ShortestFrom(tail, shift + 7);
      var (rest, n) := DecodeLebFrom(tail, shift + 7).value;
      assert used == n + 1 && v == bytes[0] % 128 + 128 * rest;
      assert v / 128 == rest && v % 128 == bytes[0] - 128;
      assert bytes[used - 1] == tail[n - 1];
      assert bytes[..used] == [bytes[0]] + tail[..n];
      if bytes[..used] == EncodeLeb(v) {
        assert v >= 128;
        assert tail[..n] == EncodeLeb(v)[1..] == EncodeLeb(rest);
      }
    } else {
      assert bytes[..1] == [bytes[0]];
    }
  }

  /** A varint is shortest exactly when it is the encoding of its value. */
  lemma ShortestIsEncoding(bytes: seq<byte>)
    requires DecodeVarint(bytes).Ok?
    ensures var (v, used) := DecodeVarint(bytes).value;
      Shortest(bytes) <==> bytes[..used] == EncodeLeb(v)
  {
    ShortestFrom(bytes, 0);
  }

  lemma EncodingIsShortest(v: u64, rest: seq<byte>)
    ensures var bytes := EncodeLeb(v) + rest;
      DecodeVarint(bytes) == Ok((v, |EncodeLeb(v)|)) && Shortest(bytes) && bytes[|EncodeLeb(v)|..] == rest
  {
    LebRoundTrip(v, rest);
    ShortestIsEncoding(EncodeLeb(v) + rest);
    hide DecodeLeb, EncodeLeb;
    assert (EncodeLeb(v) + rest)[..|EncodeLeb(v)|] == EncodeLeb(v);
  }

  // ---- the grammar of minimal payloads ----------------------------------------------------------------

  /** Every length, count, tag and field id that the validator reads is in its shortest form. */
  predicate MinimalPayload(tag: Tag, bytes: seq<byte>)
    decreases |bytes|, 1
  {
    FixedWidth(tag).Some? ||
    (DecodeVarint(bytes).Ok? ==>
      && Shortest(bytes)
      && var (count, pos) := DecodeVarint(bytes).value;
         if tag == TAG_LIST then MinimalElements(count, bytes[pos..])
         else if tag == TAG_STRUCT then MinimalFields(count, bytes[pos..])
         else tag == TAG_MAP ==> MinimalEntries(count, bytes[pos..]))
  }

  predicate MinimalTagged(bytes: seq<byte>)
    decreases |bytes|, 1
  {
    DecodeVarint(bytes).Ok? ==>
      && Shortest(bytes)
      && var (raw, pos) := DecodeVarint(bytes).value;
         raw <= 18 ==> MinimalPayload(raw, bytes[pos..])
  }

  predicate MinimalElements(count: nat, bytes: seq<byte>)
    decreases |bytes|, 2
  {
    count == 0 ||
    (&& MinimalTagged(bytes)
     && (ValidateTagged(ANY_JSON, bytes).Ok? ==>
           MinimalElements(count - 1, bytes[ValidateTagged(ANY_JSON, bytes).value.1..])))
  }

  predicate MinimalFields(count: nat, bytes: seq<byte>)
    decreases |bytes|, 2
  {
    count > 0 && DecodeVarint(bytes).Ok? ==>
      && Shortest(bytes)
      && var value := bytes[DecodeVarint(bytes).value.1..];
         && MinimalTagged(value)
         && (ValidateTagged(ANY_JSON, value).Ok? ==>
               MinimalFields(count - 1, value[ValidateTagged(ANY_JSON, value).value.1..]))
  }

  predicate MinimalEntries(count: nat, bytes: seq<byte>)
    decreases |bytes|, 2
  {
    count > 0 ==>
      && MinimalTagged(bytes)
      && (ValidateTagged(ANY_JSON, bytes).Ok? ==>
            var value := bytes[ValidateTagged(ANY_JSON, bytes).value.1..];
            && MinimalTagged(value)
            && (ValidateTagged(ANY_JSON, value).Ok? ==>
                  MinimalEntries(count - 1, value[ValidateTagged(ANY_JSON, value).value.1..])))
  }

  // ---- encoded payloads are minimal -------------------------------------------------------------------

  /** A tagged value that is accepted and minimal in front of anything. */
  ghost predicate MinimalAnywhere(t: seq<byte>) {
    AnyAccepted(ANY_JSON, t) && forall suffix :: MinimalTagged(t + suffix)
  }

  lemma ReadsWhole(t: seq<byte>, rest: seq<byte>)
    requires MinimalAnywhere(t)
    ensures ValidateTagged(ANY_JSON, t + rest).Ok? && ValidateTagged(ANY_JSON, t + rest).value.1 == |t|
    ensures (t + rest)[|t|..] == rest && MinimalTagged(t + rest)
  {
    hide ValidateTagged, MinimalTagged;
    var tag: Tag :| Accepted(ANY_JSON, tag, t);
    assert ValidateTagged(ANY_JSON, t + rest) == Ok((tag, |t|));
  }

  lemma {:induction false} ElementsMinimal(rows: seq<seq<byte>>, suffix: seq<byte>)
    requires forall row :: row in rows ==> MinimalAnywhere(row)
    ensures MinimalElements(|rows|, Flatten(rows) + suffix)
  {
    hide ValidateTagged, MinimalTagged, MinimalAnywhere;
    if rows != [] {
      var rest := Flatten(rows[1..]) + suffix;
      assert rows[0] in rows && rows == [rows[0]] + rows[1..];
      FirstRow(rows[0], rows[1..], suffix);
      ReadsWhole(rows[0], rest);
      ElementsMinimal(rows[1..], suffix);
    }
  }

  lemma {:induction false} FieldsMinimal(rows: seq<FieldRow>, suffix: seq<byte>)
    requires forall row :: row in rows ==> MinimalAnywhere(row.tagged)
    ensures MinimalFields(|rows|, Flatten(FieldRows(rows)) + suffix)
  {
    hide ValidateTagged, MinimalTagged, MinimalAnywhere, EncodeLeb, DecodeVarint, Shortest;
    if rows != [] {
      var rest := Flatten(FieldRows(rows[1..])) + suffix;
      assert rows[0] in rows && rows == [rows[0]] + rows[1..];
      FieldRowsFirst(rows, suffix);
      assert EncodeLeb(rows[0].id) + rows[0].tagged + rest == EncodeLeb(rows[0].id) + (rows[0].tagged + rest);
      EncodingIsShortest(rows[0].id, rows[0].tagged + rest);
      ReadsWhole(rows[0].tagged, rest);
      FieldsMinimal(rows[1..], suffix);
    }
  }

  lemma {:induction false} EntriesMinimal(pairs: seq<Pair>, suffix: seq<byte>)
    requires forall p :: p in pairs ==> MinimalAnywhere(p.key) && MinimalAnywhere(p.value)
    ensures MinimalEntries(|pairs|, Flatten(EntryRows(pairs)) + suffix)
  {
    hide ValidateTagged, MinimalTagged, MinimalAnywhere;
    if pairs != [] {
      var rest := Flatten(EntryRows(pairs[1..])) + suffix;
      assert pairs[0] in pairs && pairs == [pairs[0]] + pairs[1..];
      CanonicalAcceptance.EntryRowsFirst(pairs, suffix);
      assert pairs[0].key + pairs[0].value + rest == pairs[0].key + (pairs[0].value + rest);
      ReadsWhole(pairs[0].key, pairs[0].value + rest);
      ReadsWhole(pairs[0].value, rest);
      EntriesMinimal(pairs[1..], suffix);
    }
  }

  lemma ListMinimal(v: Value, suffix: seq<byte>)
    requires v.List? && Addressable(v) && Encode(v).Ok?
    ensures MinimalPayload(TagOf(v), Encode(v).value + suffix)
    decreases v, 0
  {
    var rows := EncodeElements(v.elements).value;
    ElementsEncoded(v.elements);
    hide EncodeTagged, MinimalAnywhere, MinimalElements, EncodeLeb, DecodeVarint, Shortest;
    forall row | row in rows ensures MinimalAnywhere(row) {
      var i :| 0 <= i < |rows| && rows[i] == row;
      TaggedMinimal(v.elements[i]);
    }
    ElementsMinimal(rows, suffix);
    CountedMinimal(|rows|, Flatten(rows), suffix);
  }

  /** The count in front of a body. */
  lemma CountedMinimal(count: u64, body: seq<byte>, suffix: seq<byte>)
    ensures var bytes := EncodeLeb(count) + body + suffix;
      && DecodeVarint(bytes) == Ok((count, |EncodeLeb(count)|)) && Shortest(bytes)
      && bytes[|EncodeLeb(count)|..] == body + suffix
  {
    assert EncodeLeb(count) + body + suffix == EncodeLeb(count) + (body + suffix);
    EncodingIsShortest(count, body + suffix);
  }

  lemma StructMinimal(v: Value, suffix: seq<byte>)
    requires v.Struct? && Addressable(v) && Encode(v).Ok?
    ensures MinimalPayload(TagOf(v), Encode(v).value + suffix)
    decreases v, 0
  {
    var rows := OrderedFields(EncodeFields(v.fields)).value;
    StructRows(v.fields);
    hide EncodeTagged, MinimalAnywhere, MinimalFields, EncodeLeb, DecodeVarint, Shortest, OrderedFields;
    forall row | row in rows ensures MinimalAnywhere(row.tagged) {
      var f := FieldOfStructRow(v.fields, row);
      TaggedMinimal(f.value);
    }
    FieldsMinimal(rows, suffix);
    CountedMinimal(|rows|, Flatten(FieldRows(rows)), suffix);
  }

  lemma MapMinimal(v: Value, suffix: seq<byte>)
    requires v.Map? && Addressable(v) && Encode(v).Ok?
    ensures MinimalPayload(TagOf(v), Encode(v).value + suffix)
    decreases v, 0
  {
    var pairs := OrderedEntries(EncodeEntries(v.entries)).value;
    MapPairs(v.entries);
    hide EncodeTagged, MinimalAnywhere, MinimalEntries, EncodeLeb, DecodeVarint, Shortest, OrderedEntries;
    forall p | p in pairs ensures MinimalAnywhere(p.key) && MinimalAnywhere(p.value) {
      var e := EntryOfMapPair(v.entries, p);
      TaggedMinimal(e.key);
      TaggedMinimal(e.value);
    }
    EntriesMinimal(pairs, suffix);
    CountedMinimal(|pairs|, Flatten(EntryRows(pairs)), suffix);
  }

  /** Whatever the encoder writes is minimal. */
  lemma EncodedIsMinimal(v: Value, suffix: seq<byte>)
    requires Addressable(v) && Encode(v).Ok?
    ensures MinimalPayload(TagOf(v), Encode(v).value + suffix)
    decreases v, 1
  {
    match v {
      case List(_) => ListMinimal(v, suffix);
      case Struct(_) => StructMinimal(v, suffix);
      case Map(_) => MapMinimal(v, suffix);
      case _ => ScalarMinimal(v, suffix);
    }
  }

  lemma ScalarMinimal(v: Value, suffix: seq<byte>)
    requires IsScalar(v) && Addressable(v) && Encode(v).Ok?
    ensures MinimalPayload(TagOf(v), Encode(v).value + suffix)
  {
    hide EncodeLeb, DecodeVarint, Shortest, ToLE, SignedLE, EncodeSigned, EncodeUnsigned;
    match v {
      case Text(text) => CountedMinimal(|text|, text, suffix);
      case Binary(bytes) => CountedMinimal(|bytes|, bytes, suffix);
      case Json(text) => CountedMinimal(|text|, text, suffix);
      case _ =>
    }
  }

  lemma TaggedMinimal(v: Value)
    requires Addressable(v) && EncodeTagged(v).Ok?
    ensures MinimalAnywhere(EncodeTagged(v).value)
    decreases v, 2
  {
    hide Encode, EncodeLeb, DecodeVarint, Shortest, MinimalPayload, AnyAccepted, Addressable;
    TakenTagged(v);
    var t, payload := EncodeTagged(v).value, Encode(v).value;
    forall suffix ensures MinimalTagged(t + suffix) {
      CountedMinimal(TagOf(v), payload, suffix);
      EncodedIsMinimal(v, suffix);
    }
  }
}
