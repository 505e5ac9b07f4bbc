/** The vector-building and scanning loops of `canonical.rs`, proved against the functions of
    `Canonical`. */
module CanonicalLoops {
  import opened Wrappers
  import opened Sequences
  import opened Wire
  import opened Utf8
  import opened Canonical

  // ---- encoder loops ----------------------------------------------------------------------

  function Prepend<T>(done: seq<T>, rest: Result<seq<T>>): Result<seq<T>> {
    if rest.Err? then rest else Ok(done + rest.value)
  }

  lemma PrependNothing<T>(rest: Result<seq<T>>)
    ensures Prepend([], rest) == rest
  {
    if rest.Ok? {
      assert [] + rest.value == rest.value;
    }
  }

  /** Reading one more element moves it from the rest to the part done. */
  lemma PrependOne<T>(done: seq<T>, x: T, rest: Result<seq<T>>)
    ensures Prepend(done, if rest.Err? then Err(rest.error) else Ok([x] + rest.value)) == Prepend(done + [x], rest)
  {
    if rest.Ok? {
      assert done + ([x] + rest.value) == (done + [x]) + rest.value;
    }
  }

  lemma PrependFailed<T>(done: seq<T>, error: CoveError)
    ensures Prepend(done, Err(error)) == Err(error)
  {
  }

  lemma PrependEnd<T>(done: seq<T>)
    ensures Prepend(done, Ok([])) == Ok(done)
  {
    assert done + [] == done;
  }

  method CanonicalizeList(elements: seq<Value>) returns (r: Result<seq<byte>>)
    requires |elements| < TWO_64
    ensures r == Encode(List(elements))
  {
    hide EncodeTagged, EncodeLeb;
    var out := AppendU64Leb128([], |elements|);
    ghost var done: seq<seq<byte>> := [];
    assert elements[0..] == elements;
    PrependNothing(EncodeElements(elements));
    for i := 0 to |elements|
      invariant out == EncodeLeb(|elements|) + Flatten(done)
      invariant EncodeElements(elements) == Prepend(done, EncodeElements(elements[i..]))
    {
      assert elements[i..][1..] == elements[i + 1..];
      var tagged := EncodeTagged(elements[i]);
      if tagged.Err? {
        return Err(tagged.error);
      }
      PrependOne(done, tagged.value, EncodeElements(elements[i + 1..]));
      FlattenSnoc(done, tagged.value);
      done := done + [tagged.value];
      out := out + tagged.value;
    }
    assert elements[|elements|..] == [];
    PrependEnd(done);
    return Ok(out);
  }

  function FieldById(): (Field, Field) -> bool {
    (a: Field, b: Field) => a.id <= b.id
  }

  lemma {:induction false} InsertEncodes(field: Field, fields: seq<Field>)
    ensures Insert(EncodeField(field), EncodeFields(fields), ById()) == EncodeFields(Insert(field, fields, FieldById()))
  {
    hide EncodeField;
    if fields == [] || FieldById()(field, fields[0]) {
      EncodedIds(field);
      if fields != [] {
        EncodedIds(fields[0]);
      }
      assert ([field] + fields)[1..] == fields;
    } else {
      EncodedIds(field);
      EncodedIds(fields[0]);
      InsertEncodes(field, fields[1..]);
      var tail := Insert(field, fields[1..], FieldById());
      assert ([fields[0]] + tail)[1..] == tail;
    }
  }

  lemma EncodedIds(field: Field)
    ensures EncodeField(field).id == field.id
  {
  }

  /** Sorting fields and then encoding them is encoding them and then sorting. */
  lemma {:induction false} SortEncodes(fields: seq<Field>)
    ensures StableSort(EncodeFields(fields), ById()) == EncodeFields(StableSort(fields, FieldById()))
  {
    if fields != [] {
      SortEncodes(fields[1..]);
      InsertEncodes(fields[0], StableSort(fields[1..], FieldById()));
    }
  }

  lemma {:induction false} EncodedIdsAt(fields: seq<Field>, i: nat)
    requires i < |fields|
    ensures EncodeFields(fields)[i] == EncodeField(fields[i])
  {
    if i > 0 {
      EncodedIdsAt(fields[1..], i - 1);
    }
  }

  /** The `windows(2)` scan for equal neighbouring ids. */
  method HasDuplicateIds(sorted: seq<Field>) returns (found: bool)
    ensures found <==> DuplicateNeighbour(FieldIds(EncodeFields(sorted)))
  {
    hide EncodeField;
    ghost var ids := FieldIds(EncodeFields(sorted));
    forall i | 0 <= i < |sorted| ensures ids[i] == sorted[i].id {
      EncodedIdsAt(sorted, i);
      EncodedIds(sorted[i]);
    }
    var w := 1;
    while w < |sorted|
      invariant w >= 1
      invariant forall j :: 0 < j < w && j < |sorted| ==> ids[j - 1] != ids[j]
    {
      if sorted[w - 1].id == sorted[w].id {
        assert ids[w - 1] == ids[w];
        return true;
      }
      w := w + 1;
    }
    return false;
  }

  lemma CollectStep(sorted: seq<Field>, i: nat)
    requires i < |sorted|
    ensures var tagged := EncodeTagged(sorted[i].value);
      var rest := CollectRows(EncodeFields(sorted[i + 1..]));
      CollectRows(EncodeFields(sorted[i..])) ==
        if tagged.Err? then Err(tagged.error)
        else if rest.Err? then Err(rest.error)
        else Ok([FieldRow(sorted[i].id, tagged.value)] + rest.value)
  {
    hide EncodeTagged;
    assert sorted[i..][1..] == sorted[i + 1..];
    assert EncodeFields(sorted[i..])[1..] == EncodeFields(sorted[i + 1..]);
  }

  function Counted(count: nat, rows: Result<seq<FieldRow>>): Result<seq<byte>> {
    if rows.Err? then Err(rows.error) else Ok(EncodeLeb(count) + Flatten(FieldRows(rows.value)))
  }

  lemma NoRows()
    ensures Flatten(FieldRows([])) == [] && CollectRows(EncodeFields([])) == Ok([])
  {
  }

  lemma CountedOk(count: nat, rows: seq<FieldRow>, body: seq<byte>)
    requires body == EncodeLeb(count) + Flatten(FieldRows(rows))
    ensures Counted(count, Ok(rows)) == Ok(body)
  {
  }

  lemma CountedErr(count: nat, error: CoveError)
    ensures Counted(count, Err(error)) == Err(error)
  {
  }

  /** The loop that writes the sorted fields. */
  method WriteFields(sorted: seq<Field>) returns (r: Result<seq<byte>>)
    requires |sorted| < TWO_64
    ensures r == Counted(|sorted|, CollectRows(EncodeFields(sorted)))
  {
    hide *;
    var out := AppendU64Leb128([], |sorted|);
    ghost var done: seq<FieldRow> := [];
    ghost var rows := CollectRows(EncodeFields(sorted));
    NoRows();
    assert sorted[0..] == sorted;
    PrependNothing(rows);
    for i := 0 to |sorted|
      invariant out == EncodeLeb(|sorted|) + Flatten(FieldRows(done))
      invariant rows == Prepend(done, CollectRows(EncodeFields(sorted[i..])))
    {
      CollectStep(sorted, i);
      out := AppendU64Leb128(out, sorted[i].id);
      var tagged := EncodeTagged(sorted[i].value);
      if tagged.Err? {
        PrependFailed(done, tagged.error);
        CountedErr(|sorted|, tagged.error);
        return Err(tagged.error);
      }
      PrependOne(done, FieldRow(sorted[i].id, tagged.value), CollectRows(EncodeFields(sorted[i + 1..])));
      FieldRowsSnoc(done, FieldRow(sorted[i].id, tagged.value));
      done := done + [FieldRow(sorted[i].id, tagged.value)];
      out := out + tagged.value;
    }
    assert sorted[|sorted|..] == [];
    PrependEnd(done);
    CountedOk(|sorted|, done, out);
    return Ok(out);
  }

  method CanonicalizeStruct(fields: seq<Field>) returns (r: Result<seq<byte>>)
    requires |fields| < TWO_64
    ensures r == Encode(Struct(fields))
  {
    hide EncodeTagged, EncodeFields, CollectRows, StableSort, DuplicateNeighbour, EncodeLeb, Flatten, FieldRows;
    var sorted := StableSort(fields, FieldById());
    SortEncodes(fields);
    SortPermutes(fields, FieldById());
    var duplicate := HasDuplicateIds(sorted);
    if duplicate {
      return Err(BadSchema);
    }
    r := WriteFields(sorted);
  }

  lemma {:induction false} FieldRowsSnoc(done: seq<FieldRow>, row: FieldRow)
    ensures Flatten(FieldRows(done + [row])) == Flatten(FieldRows(done)) + EncodeLeb(row.id) + row.tagged
  {
    hide EncodeLeb;
    if done == [] {
      assert done + [row] == [row];
      assert Flatten(FieldRows([row])) == EncodeLeb(row.id) + row.tagged;
    } else {
      FieldRowsSnoc(done[1..], row);
      assert (done + [row])[1..] == done[1..] + [row];
    }
  }

  /** `canonicalize_map_entries`. */
  method CanonicalizeMapEntries(entries: seq<Entry>) returns (r: Result<seq<Pair>>)
    ensures r == OrderedEntries(EncodeEntries(entries))
  {
    hide EncodeTagged, StableSort;
    var pairs: seq<Pair> := [];
    assert entries[0..] == entries;
    PrependNothing(EncodeEntries(entries));
    for i := 0 to |entries|
      invariant EncodeEntries(entries) == Prepend(pairs, EncodeEntries(entries[i..]))
    {
      assert entries[i..][1..] == entries[i + 1..];
      if !IsScalar(entries[i].key) {
        return Err(BadSchema);
      }
      var key := EncodeTagged(entries[i].key);
      if key.Err? {
        return Err(key.error);
      }
      var value := EncodeTagged(entries[i].value);
      if value.Err? {
        return Err(value.error);
      }
      PrependOne(pairs, Pair(key.value, value.value), EncodeEntries(entries[i + 1..]));
      pairs := pairs + [Pair(key.value, value.value)];
    }
    assert entries[|entries|..] == [];
    PrependEnd(pairs);
    assert EncodeEntries(entries) == Ok(pairs);
    var sorted := StableSort(pairs, ByKey());
    var w := 1;
    while w < |sorted|
      invariant w >= 1
      invariant forall j :: 0 < j < w && j < |sorted| ==> PairKeys(sorted)[j - 1] != PairKeys(sorted)[j]
    {
      if sorted[w - 1].key == sorted[w].key {
        assert PairKeys(sorted)[w - 1] == PairKeys(sorted)[w];
        return Err(BadSchema);
      }
      w := w + 1;
    }
    return Ok(sorted);
  }

  lemma EntryRowsStep(out: seq<byte>, pairs: seq<Pair>, i: nat)
    requires i < |pairs|
    ensures out + Flatten(EntryRows(pairs[i..])) ==
            out + pairs[i].key + pairs[i].value + Flatten(EntryRows(pairs[i + 1..]))
  {
    assert pairs[i..][1..] == pairs[i + 1..];
  }

  method CanonicalizeMap(entries: seq<Entry>) returns (r: Result<seq<byte>>)
    requires |entries| < TWO_64
    ensures r == Encode(Map(entries))
  {
    hide StableSort, EncodeEntries, EncodeLeb;
    var sorted := CanonicalizeMapEntries(entries);
    if sorted.Err? {
      return Err(sorted.error);
    }
    var pairs := sorted.value;
    SortPermutes(EncodeEntries(entries).value, ByKey());
    var out := AppendU64Leb128([], |pairs|);
    assert pairs[0..] == pairs;
    for i := 0 to |pairs|
      invariant out + Flatten(EntryRows(pairs[i..])) == EncodeLeb(|pairs|) + Flatten(EntryRows(pairs))
    {
      EntryRowsStep(out, pairs, i);
      out := out + pairs[i].key;
      out := out + pairs[i].value;
    }
    assert pairs[|pairs|..] == [] && Flatten(EntryRows([])) == [] && out + [] == out;
    return Ok(out);
  }

  // ---- validator loops ----------------------------------------------------------------------

  function Resume(pos: nat, rest: Result<nat>): Result<nat> {
    if rest.Err? then rest else Ok(pos + rest.value)
  }

  /** `validate_payload_inner`. A slice is shorter than `2^64` bytes, so no sum here overflows. */
  method ValidatePayloadInner(json: JsonCheck, tag: Tag, bytes: seq<byte>) returns (r: Result<nat>)
    requires |bytes| < TWO_64
    ensures r == ValidatePayload(json, tag, bytes)
    decreases |bytes|, 0
  {
    hide ValidateElements, ValidateFields, ValidateEntries, DecodeLeb, Utf8Valid;
    if FixedWidth(tag).Some? {
      return MinWidth(bytes, FixedWidth(tag).value);
    }
    if tag == TAG_UTF8 || tag == TAG_BINARY || tag == TAG_JSON {
      var decoded := DecodeLengthPrefixed(bytes);
      if decoded.Err? {
        return Err(decoded.error);
      }
      var (payload, used) := decoded.value;
      if tag == TAG_UTF8 && !Utf8Valid(payload) {
        return Err(BadSection);
      }
      if tag == TAG_JSON && !json(payload) {
        return Err(BadSection);
      }
      return Ok(used);
    }
    var head := DecodeVarint(bytes);
    if head.Err? {
      return Err(head.error);
    }
    var (count, pos) := head.value;
    if tag == TAG_LIST {
      r := ScanElements(json, count, bytes, pos);
    } else if tag == TAG_STRUCT {
      r := ScanFields(json, count, bytes, pos);
    } else {
      r := ScanEntries(json, count, bytes, pos);
    }
  }

  method ScanElements(json: JsonCheck, count: nat, bytes: seq<byte>, start: nat) returns (r: Result<nat>)
    requires |bytes| < TWO_64 && 1 <= start <= |bytes|
    ensures r == Resume(start, ValidateElements(json, count, bytes[start..]))
    decreases |bytes| - start, 2
  {
    hide ValidateTagged;
    var pos := start;
    for i := 0 to count
      invariant start <= pos <= |bytes|
      invariant Resume(start, ValidateElements(json, count, bytes[start..])) ==
                Resume(pos, ValidateElements(json, count - i, bytes[pos..]))
    {
      var element := ValidateTaggedValue(json, bytes[pos..]);
      if element.Err? {
        return Err(element.error);
      }
      var used := element.value.1;
      if pos + used >= TWO_64 {
        return Err(ArithOverflow);
      }
      assert bytes[pos..][used..] == bytes[pos + used..];
      pos := pos + used;
    }
    return Ok(pos);
  }

  /** One turn of the struct loop: the id, then the order check, then the value. */
  method ScanField(json: JsonCheck, prev: Option<nat>, bytes: seq<byte>, start: nat) returns (r: Result<(nat, nat)>)
    requires |bytes| < TWO_64 && 1 <= start <= |bytes|
    ensures r == ValidateField(json, prev, bytes[start..])
    decreases |bytes| - start, 2
  {
    hide ValidateTagged, DecodeVarint;
    var pos := start;
    var id := DecodeVarint(bytes[pos..]);
    if id.Err? {
      return Err(id.error);
    }
    var (fieldId, idLen) := id.value;
    if pos + idLen >= TWO_64 {
      return Err(ArithOverflow);
    }
    pos := pos + idLen;
    if prev.Some? && fieldId <= prev.value {
      return Err(BadSection);
    }
    assert bytes[pos..] == bytes[start..][idLen..];
    var value := ValidateTaggedValue(json, bytes[pos..]);
    if value.Err? {
      return Err(value.error);
    }
    return Ok((fieldId, idLen + value.value.1));
  }

  lemma FieldsTurn(json: JsonCheck, count: nat, prev: Option<nat>, bytes: seq<byte>, pos: nat)
    requires count > 0 && pos <= |bytes|
    ensures var field := ValidateField(json, prev, bytes[pos..]);
      Resume(pos, ValidateFields(json, count, prev, bytes[pos..])) ==
        if field.Err? then Err(field.error)
        else Resume(pos + field.value.1,
                    ValidateFields(json, count - 1, Some(field.value.0), bytes[pos + field.value.1..]))
  {
    hide ValidateField;
    var field := ValidateField(json, prev, bytes[pos..]);
    if field.Ok? {
      assert bytes[pos..][field.value.1..] == bytes[pos + field.value.1..];
    }
  }

  lemma FieldsDone(json: JsonCheck, prev: Option<nat>, bytes: seq<byte>, pos: nat)
    requires pos <= |bytes|
    ensures Resume(pos, ValidateFields(json, 0, prev, bytes[pos..])) == Ok(pos)
  {
  }

  method ScanFields(json: JsonCheck, count: nat, bytes: seq<byte>, start: nat) returns (r: Result<nat>)
    requires |bytes| < TWO_64 && 1 <= start <= |bytes|
    ensures r == Resume(start, ValidateFields(json, count, None, bytes[start..]))
    decreases |bytes| - start, 3
  {
    hide *;
    var pos := start;
    var prev: Option<nat> := None;
    ghost var total := Resume(start, ValidateFields(json, count, None, bytes[start..]));
    for i := 0 to count
      invariant start <= pos <= |bytes|
      invariant total == Resume(pos, ValidateFields(json, count - i, prev, bytes[pos..]))
    {
      FieldsTurn(json, count - i, prev, bytes, pos);
      var field := ScanField(json, prev, bytes, pos);
      if field.Err? {
        return Err(field.error);
      }
      var used := field.value.1;
      if pos + used >= TWO_64 {
        return Err(ArithOverflow);
      }
      pos, prev := pos + used, Some(field.value.0);
    }
    FieldsDone(json, prev, bytes, pos);
    return Ok(pos);
  }

  /** One turn of the map loop: the key, then the order check, then the value. */
  method ScanEntry(json: JsonCheck, prevKey: Option<seq<byte>>, bytes: seq<byte>, start: nat)
    returns (r: Result<(seq<byte>, nat)>)
    requires |bytes| < TWO_64 && 1 <= start <= |bytes|
    ensures r == ValidateEntry(json, prevKey, bytes[start..])
    decreases |bytes| - start, 2
  {
    hide ValidateTagged, LexLt;
    var pos := start;
    var key := ValidateTaggedValue(json, bytes[pos..]);
    if key.Err? {
      return Err(key.error);
    }
    var (keyTag, keyLen) := key.value;
    if !IsScalarTag(keyTag) {
      return Err(BadSection);
    }
    if pos + keyLen >= TWO_64 {
      return Err(ArithOverflow);
    }
    pos := pos + keyLen;
    var keyBytes := bytes[start..pos];
    assert keyBytes == bytes[start..][..keyLen];
    if prevKey.Some? && !LexLt(prevKey.value, keyBytes) {
      return Err(BadSection);
    }
    assert bytes[pos..] == bytes[start..][keyLen..];
    var value := ValidateTaggedValue(json, bytes[pos..]);
    if value.Err? {
      return Err(value.error);
    }
    return Ok((keyBytes, keyLen + value.value.1));
  }

  lemma EntriesTurn(json: JsonCheck, count: nat, prev: Option<seq<byte>>, bytes: seq<byte>, pos: nat)
    requires count > 0 && pos <= |bytes|
    ensures var entry := ValidateEntry(json, prev, bytes[pos..]);
      Resume(pos, ValidateEntries(json, count, prev, bytes[pos..])) ==
        if entry.Err? then Err(entry.error)
        else Resume(pos + entry.value.1,
                    ValidateEntries(json, count - 1, Some(entry.value.0), bytes[pos + entry.value.1..]))
  {
    hide ValidateEntry;
    var entry := ValidateEntry(json, prev, bytes[pos..]);
    if entry.Ok? {
      assert bytes[pos..][entry.value.1..] == bytes[pos + entry.value.1..];
    }
  }

  lemma EntriesDone(json: JsonCheck, prev: Option<seq<byte>>, bytes: seq<byte>, pos: nat)
    requires pos <= |bytes|
    ensures Resume(pos, ValidateEntries(json, 0, prev, bytes[pos..])) == Ok(pos)
  {
  }

  method ScanEntries(json: JsonCheck, count: nat, bytes: seq<byte>, start: nat) returns (r: Result<nat>)
    requires |bytes| < TWO_64 && 1 <= start <= |bytes|
    ensures r == Resume(start, ValidateEntries(json, count, None, bytes[start..]))
    decreases |bytes| - start, 3
  {
    hide *;
    var pos := start;
    var prevKey: Option<seq<byte>> := None;
    ghost var total := Resume(start, ValidateEntries(json, count, None, bytes[start..]));
    for i := 0 to count
      invariant start <= pos <= |bytes|
      invariant total == Resume(pos, ValidateEntries(json, count - i, prevKey, bytes[pos..]))
    {
      EntriesTurn(json, count - i, prevKey, bytes, pos);
      var entry := ScanEntry(json, prevKey, bytes, pos);
      if entry.Err? {
        return Err(entry.error);
      }
      var used := entry.value.1;
      if pos + used >= TWO_64 {
        return Err(ArithOverflow);
      }
      pos, prevKey := pos + used, Some(entry.value.0);
    }
    EntriesDone(json, prevKey, bytes, pos);
    return Ok(pos);
  }

  /** `validate_tagged_value`. */
  method ValidateTaggedValue(json: JsonCheck, bytes: seq<byte>) returns (r: Result<(Tag, nat)>)
    requires |bytes| < TWO_64
    ensures r == ValidateTagged(json, bytes)
    decreases |bytes|, 1
  {
    var raw := DecodeVarint(bytes);
    if raw.Err? {
      return Err(raw.error);
    }
    var (tag, tagLen) := raw.value;
    if tag > 18 {
      return Err(BadSection);
    }
    var payload := ValidatePayloadInner(json, tag, bytes[tagLen..]);
    if payload.Err? {
      return Err(payload.error);
    }
    if tagLen + payload.value >= TWO_64 {
      return Err(ArithOverflow);
    }
    return Ok((tag, tagLen + payload.value));
  }
}
