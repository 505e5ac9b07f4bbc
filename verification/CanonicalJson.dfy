/** The encoder does not look at JSON text, the validator does: exactly which encoded values it accepts. */
module CanonicalJson {
  import opened Wrappers
  import opened Sequences
  import opened Wire
  import opened Canonical
  import opened CanonicalOrder
  import opened CanonicalAcceptance
  import opened CanonicalIdentity

  // ---- a stricter JSON check only refuses more ------------------------------------------------------

  lemma TaggedUnchecked(json: JsonCheck, bytes: seq<byte>)
    requires ValidateTagged(json, bytes).Ok?
    ensures ValidateTagged(ANY_JSON, bytes) == ValidateTagged(json, bytes)
    decreases |bytes|, 1
  {
    hide ValidatePayload;
    var (raw, tagLen) := DecodeVarint(bytes).value;
    PayloadUnchecked(json, raw, bytes[tagLen..]);
  }

  lemma PayloadUnchecked(json: JsonCheck, tag: Tag, bytes: seq<byte>)
    requires ValidatePayload(json, tag, bytes).Ok?
    ensures ValidatePayload(ANY_JSON, tag, bytes) == ValidatePayload(json, tag, bytes)
    decreases |bytes|, 1
  {
    hide ValidateElements, ValidateFields, ValidateEntries;
    if tag >= TAG_LIST {
      var (count, pos) := DecodeVarint(bytes).value;
      if tag == TAG_LIST {
        ElementsUnchecked(json, count, bytes[pos..]);
      } else if tag == TAG_STRUCT {
        FieldsUnchecked(json, count, None, bytes[pos..]);
      } else {
        EntriesUnchecked(json, count, None, bytes[pos..]);
      }
    }
  }

  lemma ElementsUnchecked(json: JsonCheck, count: nat, bytes: seq<byte>)
    requires ValidateElements(json, count, bytes).Ok?
    ensures ValidateElements(ANY_JSON, count, bytes) == ValidateElements(json, count, bytes)
    decreases |bytes|, 2
  {
    hide ValidateTagged;
    if count > 0 {
      TaggedUnchecked(json, bytes);
      ElementsUnchecked(json, count - 1, bytes[ValidateTagged(json, bytes).value.1..]);
    }
  }

  lemma FieldUnchecked(json: JsonCheck, prev: Option<nat>, bytes: seq<byte>)
    requires ValidateField(json, prev, bytes).Ok?
    ensures ValidateField(ANY_JSON, prev, bytes) == ValidateField(json, prev, bytes)
    decreases |bytes|, 2
  {
    hide ValidateTagged;
    TaggedUnchecked(json, bytes[DecodeVarint(bytes).value.1..]);
  }

  lemma FieldsUnchecked(json: JsonCheck, count: nat, prev: Option<nat>, bytes: seq<byte>)
    requires ValidateFields(json, count, prev, bytes).Ok?
    ensures ValidateFields(ANY_JSON, count, prev, bytes) == ValidateFields(json, count, prev, bytes)
    decreases |bytes|, 3
  {
    hide ValidateField;
    if count > 0 {
      FieldUnchecked(json, prev, bytes);
      var (id, used) := ValidateField(json, prev, bytes).value;
      FieldsUnchecked(json, count - 1, Some(id), bytes[used..]);
    }
  }

  lemma EntryUnchecked(json: JsonCheck, prev: Option<seq<byte>>, bytes: seq<byte>)
    requires ValidateEntry(json, prev, bytes).Ok?
    ensures ValidateEntry(ANY_JSON, prev, bytes) == ValidateEntry(json, prev, bytes)
    decreases |bytes|, 2
  {
    hide ValidateTagged, LexLt;
    TaggedUnchecked(json, bytes);
    TaggedUnchecked(json, bytes[ValidateTagged(json, bytes).value.1..]);
  }

  lemma EntriesUnchecked(json: JsonCheck, count: nat, prev: Option<seq<byte>>, bytes: seq<byte>)
    requires ValidateEntries(json, count, prev, bytes).Ok?
    ensures ValidateEntries(ANY_JSON, count, prev, bytes) == ValidateEntries(json, count, prev, bytes)
    decreases |bytes|, 3
  {
    hide ValidateEntry, ValidateTagged, ValidatePayload, LexLt;
    if count > 0 {
      EntryUnchecked(json, prev, bytes);
      var (key, used) := ValidateEntry(json, prev, bytes).value;
      EntriesUnchecked(json, count - 1, Some(key), bytes[used..]);
    }
  }

  // ---- an accepted body has accepted parts ------------------------------------------------------------

  /** The validator takes `t` in front of something. */
  ghost predicate Tolerated(json: JsonCheck, t: seq<byte>) {
    exists rest :: ValidateTagged(json, t + rest).Ok?
  }

  /** What the validator reads at the front of `t + rest` is `t`. */
  lemma ReadsFirst(json: JsonCheck, t: seq<byte>, rest: seq<byte>)
    requires AnyAccepted(ANY_JSON, t) && ValidateTagged(json, t + rest).Ok?
    ensures ValidateTagged(json, t + rest).value.1 == |t| && (t + rest)[|t|..] == rest && Tolerated(json, t)
  {
    hide ValidateTagged;
    var tag: Tag :| Accepted(ANY_JSON, tag, t);
    assert ValidateTagged(ANY_JSON, t + rest) == Ok((tag, |t|));
    TaggedUnchecked(json, t + rest);
  }

  lemma {:induction false} ElementsTolerated(json: JsonCheck, rows: seq<seq<byte>>, suffix: seq<byte>)
    requires forall row :: row in rows ==> AnyAccepted(ANY_JSON, row)
    requires ValidateElements(json, |rows|, Flatten(rows) + suffix).Ok?
    ensures forall row :: row in rows ==> Tolerated(json, row)
  {
    hide ValidateTagged, AnyAccepted, Tolerated;
    if rows != [] {
      var rest := Flatten(rows[1..]) + suffix;
      assert rows[0] in rows && rows == [rows[0]] + rows[1..];
      FirstRow(rows[0], rows[1..], suffix);
      ReadsFirst(json, rows[0], rest);
      ElementsTolerated(json, rows[1..], suffix);
    }
  }

  lemma FieldTolerated(json: JsonCheck, prev: Option<nat>, row: FieldRow, rest: seq<byte>)
    requires AnyAccepted(ANY_JSON, row.tagged)
    requires ValidateField(json, prev, EncodeLeb(row.id) + row.tagged + rest).Ok?
    ensures var t := EncodeLeb(row.id) + row.tagged;
      ValidateField(json, prev, t + rest).value == (row.id as nat, |t|) && (t + rest)[|t|..] == rest
    ensures Tolerated(json, row.tagged)
  {
    hide ValidateTagged, EncodeLeb, DecodeLeb, AnyAccepted, Tolerated;
    CountedBody(row.id, row.tagged, rest);
    ReadsFirst(json, row.tagged, rest);
  }

  lemma {:induction false} FieldsTolerated(json: JsonCheck, rows: seq<FieldRow>, prev: Option<nat>, suffix: seq<byte>)
    requires forall row :: row in rows ==> AnyAccepted(ANY_JSON, row.tagged)
    requires ValidateFields(json, |rows|, prev, Flatten(FieldRows(rows)) + suffix).Ok?
    ensures forall row :: row in rows ==> Tolerated(json, row.tagged)
  {
    hide ValidateField, AnyAccepted, Tolerated, EncodeLeb;
    if rows != [] {
      var rest := Flatten(FieldRows(rows[1..])) + suffix;
      assert rows[0] in rows && rows == [rows[0]] + rows[1..];
      FieldRowsFirst(rows, suffix);
      FieldTolerated(json, prev, rows[0], rest);
      FieldsTolerated(json, rows[1..], Some(rows[0].id), suffix);
    }
  }

  lemma EntryTolerated(json: JsonCheck, prev: Option<seq<byte>>, pair: Pair, rest: seq<byte>)
    requires AnyAccepted(ANY_JSON, pair.key) && AnyAccepted(ANY_JSON, pair.value)
    requires ValidateEntry(json, prev, pair.key + pair.value + rest).Ok?
    ensures var t := pair.key + pair.value;
      ValidateEntry(json, prev, t + rest).value == (pair.key, |t|) && (t + rest)[|t|..] == rest
    ensures Tolerated(json, pair.key) && Tolerated(json, pair.value)
  {
    hide ValidateTagged, LexLt, AnyAccepted, Tolerated;
    var after := pair.value + rest;
    assert pair.key + pair.value + rest == pair.key + after;
    ReadsFirst(json, pair.key, after);
    assert (pair.key + after)[..|pair.key|] == pair.key;
    ReadsFirst(json, pair.value, rest);
  }

  lemma {:induction false} EntriesTolerated(json: JsonCheck, pairs: seq<Pair>, prev: Option<seq<byte>>,
      suffix: seq<byte>)
    requires forall p :: p in pairs ==> AnyAccepted(ANY_JSON, p.key) && AnyAccepted(ANY_JSON, p.value)
    requires ValidateEntries(json, |pairs|, prev, Flatten(EntryRows(pairs)) + suffix).Ok?
    ensures forall p :: p in pairs ==> Tolerated(json, p.key) && Tolerated(json, p.value)
  {
    hide ValidateEntry, AnyAccepted, Tolerated;
    if pairs != [] {
      var rest := Flatten(EntryRows(pairs[1..])) + suffix;
      assert pairs[0] in pairs && pairs == [pairs[0]] + pairs[1..];
      CanonicalAcceptance.EntryRowsFirst(pairs, suffix);
      EntryTolerated(json, prev, pairs[0], rest);
      EntriesTolerated(json, pairs[1..], Some(pairs[0].key), suffix);
    }
  }

  // ---- an accepted value has well-formed JSON -----------------------------------------------------------

  lemma CountedTolerated(json: JsonCheck, tag: Tag, count: u64, body: seq<byte>, suffix: seq<byte>)
    requires tag >= TAG_LIST && ValidatePayload(json, tag, EncodeLeb(count) + body + suffix).Ok?
    ensures ValidateBody(json, tag, count, body + suffix).Ok?
  {
    CountedBody(count, body, suffix);
  }

  lemma ListJson(json: JsonCheck, v: Value, suffix: seq<byte>)
    requires v.List? && Addressable(v) && Encode(v).Ok?
    requires ValidatePayload(json, TagOf(v), Encode(v).value + suffix).Ok?
    ensures JsonWellFormed(json, v)
    decreases v, 0
  {
    var rows := EncodeElements(v.elements).value;
    ElementsEncoded(v.elements);
    CountedTolerated(json, TAG_LIST, |rows|, Flatten(rows), suffix);
    hide EncodeTagged, AnyAccepted, Tolerated, ValidatePayload;
    forall row | row in rows ensures AnyAccepted(ANY_JSON, row) {
      var i :| 0 <= i < |rows| && rows[i] == row;
      TakenTagged(v.elements[i]);
    }
    ElementsTolerated(json, rows, suffix);
    forall e | e in v.elements ensures JsonWellFormed(json, e) {
      var i :| 0 <= i < |rows| && v.elements[i] == e;
      assert rows[i] in rows;
      TaggedJson(json, e);
    }
  }

  lemma StructJson(json: JsonCheck, v: Value, suffix: seq<byte>)
    requires v.Struct? && Addressable(v) && Encode(v).Ok?
    requires ValidatePayload(json, TagOf(v), Encode(v).value + suffix).Ok?
    ensures JsonWellFormed(json, v)
    decreases v, 0
  {
    var rows := OrderedFields(EncodeFields(v.fields)).value;
    StructRows(v.fields);
    CountedTolerated(json, TAG_STRUCT, |rows|, Flatten(FieldRows(rows)), suffix);
    hide EncodeTagged, AnyAccepted, Tolerated, ValidatePayload, OrderedFields, Encode;
    forall row | row in rows ensures AnyAccepted(ANY_JSON, row.tagged) {
      var f := FieldOfStructRow(v.fields, row);
      TakenTagged(f.value);
    }
    FieldsTolerated(json, rows, None, suffix);
    forall f | f in v.fields ensures JsonWellFormed(json, f.value) {
      var row := StructRowOfField(v.fields, f);
      TaggedJson(json, f.value);
    }
  }

  lemma MapJson(json: JsonCheck, v: Value, suffix: seq<byte>)
    requires v.Map? && Addressable(v) && Encode(v).Ok?
    requires ValidatePayload(json, TagOf(v), Encode(v).value + suffix).Ok?
    ensures JsonWellFormed(json, v)
    decreases v, 0
  {
    var pairs := OrderedEntries(EncodeEntries(v.entries)).value;
    MapPairs(v.entries);
    CountedTolerated(json, TAG_MAP, |pairs|, Flatten(EntryRows(pairs)), suffix);
    hide EncodeTagged, AnyAccepted, Tolerated, ValidatePayload, OrderedEntries, Encode;
    forall p | p in pairs ensures AnyAccepted(ANY_JSON, p.key) && AnyAccepted(ANY_JSON, p.value) {
      var e := EntryOfMapPair(v.entries, p);
      TakenTagged(e.key);
      TakenTagged(e.value);
    }
    EntriesTolerated(json, pairs, None, suffix);
    forall e | e in v.entries ensures JsonWellFormed(json, e.key) && JsonWellFormed(json, e.value) {
      var p :| p in pairs && IsPairOf(p, e);
      TaggedJson(json, e.key);
      TaggedJson(json, e.value);
    }
  }

  lemma PayloadJson(json: JsonCheck, v: Value, suffix: seq<byte>)
    requires Addressable(v) && Encode(v).Ok?
    requires ValidatePayload(json, TagOf(v), Encode(v).value + suffix).Ok?
    ensures JsonWellFormed(json, v)
    decreases v, 1
  {
    match v {
      case Json(text) => LengthPrefixedRoundTrip(text, suffix);
      case List(_) => ListJson(json, v, suffix);
      case Struct(_) => StructJson(json, v, suffix);
      case Map(_) => MapJson(json, v, suffix);
      case _ =>
    }
  }

  lemma TaggedJson(json: JsonCheck, v: Value)
    requires Addressable(v) && EncodeTagged(v).Ok? && Tolerated(json, EncodeTagged(v).value)
    ensures JsonWellFormed(json, v)
    decreases v, 2
  {
    hide Encode, ValidatePayload, EncodeLeb, DecodeLeb, JsonWellFormed, Addressable;
    var rest :| ValidateTagged(json, EncodeTagged(v).value + rest).Ok?;
    CountedBody(TagOf(v), Encode(v).value, rest);
    PayloadJson(json, v, rest);
  }

  /** An encoded value passes the validator exactly when all JSON text in it, at any depth, is well formed;
      it is then read exactly to its end, whatever follows. */
  lemma ValidatorAcceptsExactly(json: JsonCheck, v: Value, suffix: seq<byte>)
    requires Addressable(v) && Encode(v).Ok?
    ensures ValidatePayload(json, TagOf(v), Encode(v).value + suffix).Ok? <==> JsonWellFormed(json, v)
    ensures JsonWellFormed(json, v) ==>
      ValidatePayload(json, TagOf(v), Encode(v).value + suffix) == Ok(|Encode(v).value|)
  {
    hide ValidatePayload, Encode, JsonWellFormed, Addressable;
    if JsonWellFormed(json, v) {
      PayloadAccepted(json, v, suffix);
    } else if ValidatePayload(json, TagOf(v), Encode(v).value + suffix).Ok? {
      PayloadJson(json, v, suffix);
    }
  }

  /** The empty text is encoded, and refused by a check that knows it is not JSON. */
  lemma EmptyTextIsEncoded(json: JsonCheck)
    requires !json([])
    ensures Encode(Json([])) == Ok([0x00]) && ValidateCanonicalPayload(json, TAG_JSON, [0x00]).Err?
  {
    var bytes: seq<byte> := [0x00];
    assert EncodeLeb(0) == bytes;
    assert LengthPrefixed([]) == bytes;
    assert bytes + [] == bytes;
    hide ValidatePayload, EncodeLeb;
    ValidatorAcceptsExactly(json, Json([]), []);
  }
}
