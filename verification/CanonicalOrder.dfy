/** When encoding succeeds, and the order of what it writes. */
module CanonicalOrder {
  import opened Wrappers
  import opened Sequences
  import opened Canonical

  lemma {:induction false} ElementsEncoded(elements: seq<Value>)
    ensures EncodeElements(elements).Ok? <==> forall i :: 0 <= i < |elements| ==> EncodeTagged(elements[i]).Ok?
    ensures EncodeElements(elements).Ok? ==> forall i :: 0 <= i < |elements| ==>
      EncodeTagged(elements[i]) == Ok(EncodeElements(elements).value[i])
  {
    if elements != [] {
      ElementsEncoded(elements[1..]);
      if EncodeElements(elements).Ok? {
        forall i | 0 <= i < |elements|
          ensures EncodeTagged(elements[i]) == Ok(EncodeElements(elements).value[i])
        {
          if i > 0 {
            assert elements[i] == elements[1..][i - 1];
          }
        }
      }
    }
  }

  predicate IsRowOf(row: FieldRow, field: Field) {
    field.id == row.id && EncodeTagged(field.value) == Ok(row.tagged)
  }

  predicate AscendingIds(rows: seq<FieldRow>) {
    forall i, j :: 0 <= i < j < |rows| ==> rows[i].id < rows[j].id
  }

  lemma {:induction false} EncodeFieldsAt(fields: seq<Field>, i: nat)
    requires i < |fields|
    ensures EncodeFields(fields)[i] == EncodeField(fields[i])
  {
    if i > 0 {
      EncodeFieldsAt(fields[1..], i - 1);
    }
  }

  /** A sorted list without equal neighbours is strictly ascending. */
  lemma {:induction false} StrictFromNeighbours(ids: seq<int>, i: nat, j: nat)
    requires forall i, j :: 0 <= i < j < |ids| ==> ids[i] <= ids[j]
    requires !DuplicateNeighbour(ids)
    requires i < j < |ids|
    ensures ids[i] < ids[j]
  {
    assert ids[j - 1] != ids[j];
  }

  predicate IdLt(a: EncodedField, b: EncodedField) {
    a.id < b.id
  }

  lemma SortedFieldsAscend(fields: seq<EncodedField>)
    requires OrderedFields(fields).Ok?
    ensures SortedBy(StableSort(fields, ById()), IdLt)
  {
    var sorted := StableSort(fields, ById());
    SortSorts(fields, ById());
    forall i, j | 0 <= i < j < |sorted| ensures IdLt(sorted[i], sorted[j]) {
      assert forall p, q :: 0 <= p < q < |sorted| ==> ById()(sorted[p], sorted[q]);
      StrictFromNeighbours(FieldIds(sorted), i, j);
    }
  }

  predicate RowHolds(row: FieldRow, field: EncodedField) {
    row.id == field.id && field.tagged == Ok(row.tagged)
  }

  lemma RowsOfSorted(encoded: seq<EncodedField>)
    requires OrderedFields(encoded).Ok?
    ensures var sorted := StableSort(encoded, ById());
      var rows := OrderedFields(encoded).value;
      |rows| == |sorted| && AscendingIds(rows) && forall i :: 0 <= i < |rows| ==> RowHolds(rows[i], sorted[i])
  {
    SortedFieldsAscend(encoded);
    hide StableSort, CollectRows;
    var sorted := StableSort(encoded, ById());
    var rows := OrderedFields(encoded).value;
    forall i, j | 0 <= i < j < |rows| ensures rows[i].id < rows[j].id {
      assert IdLt(sorted[i], sorted[j]);
    }
  }

  // The ordered rows are the encoded fields, none lost and none repeated.

  lemma SourceOfRow(encoded: seq<EncodedField>, i: nat) returns (j: nat)
    requires OrderedFields(encoded).Ok? && i < |OrderedFields(encoded).value|
    ensures j < |encoded| && RowHolds(OrderedFields(encoded).value[i], encoded[j])
  {
    RowsOfSorted(encoded);
    SortMembers(encoded, ById());
    hide OrderedFields, StableSort;
    assert StableSort(encoded, ById())[i] in encoded;
    j :| 0 <= j < |encoded| && encoded[j] == StableSort(encoded, ById())[i];
  }

  lemma RowOfSource(encoded: seq<EncodedField>, j: nat) returns (i: nat)
    requires OrderedFields(encoded).Ok? && j < |encoded|
    ensures i < |OrderedFields(encoded).value| && RowHolds(OrderedFields(encoded).value[i], encoded[j])
  {
    RowsOfSorted(encoded);
    SortMembers(encoded, ById());
    hide OrderedFields, StableSort;
    assert encoded[j] in StableSort(encoded, ById());
    i :| 0 <= i < |StableSort(encoded, ById())| && StableSort(encoded, ById())[i] == encoded[j];
  }

  lemma EncodedIdsDistinct(encoded: seq<EncodedField>, i: nat, j: nat)
    requires OrderedFields(encoded).Ok? && i < j < |encoded|
    ensures encoded[i].id != encoded[j].id
  {
    SortPermutes(encoded, ById());
    SortedFieldsAscend(encoded);
    PermutationOfStrict(encoded, StableSort(encoded, ById()), IdLt, i, j);
  }

  lemma FieldOfStructRow(fields: seq<Field>, row: FieldRow) returns (f: Field)
    requires OrderedFields(EncodeFields(fields)).Ok? && row in OrderedFields(EncodeFields(fields)).value
    ensures f in fields && IsRowOf(row, f)
  {
    hide EncodeTagged, OrderedFields, EncodeFields;
    var rows := OrderedFields(EncodeFields(fields)).value;
    var i :| 0 <= i < |rows| && rows[i] == row;
    var j := SourceOfRow(EncodeFields(fields), i);
    EncodeFieldsAt(fields, j);
    f := fields[j];
  }

  lemma StructRowOfField(fields: seq<Field>, f: Field) returns (row: FieldRow)
    requires OrderedFields(EncodeFields(fields)).Ok? && f in fields
    ensures row in OrderedFields(EncodeFields(fields)).value && IsRowOf(row, f)
  {
    hide EncodeTagged, OrderedFields, EncodeFields;
    var j :| 0 <= j < |fields| && fields[j] == f;
    EncodeFieldsAt(fields, j);
    var i := RowOfSource(EncodeFields(fields), j);
    row := OrderedFields(EncodeFields(fields)).value[i];
  }

  /** An encoded struct has its field ids strictly ascending, and its rows are exactly its fields. */
  lemma StructRows(fields: seq<Field>)
    requires OrderedFields(EncodeFields(fields)).Ok?
    ensures var rows := OrderedFields(EncodeFields(fields)).value;
      && |rows| == |fields| && AscendingIds(rows)
      && (forall row :: row in rows ==> exists f :: f in fields && IsRowOf(row, f))
      && (forall f :: f in fields ==> exists row :: row in rows && IsRowOf(row, f))
    ensures forall i, j :: 0 <= i < j < |fields| ==> fields[i].id != fields[j].id
  {
    var encoded := EncodeFields(fields);
    var rows := OrderedFields(encoded).value;
    SortPermutes(encoded, ById());
    RowsOfSorted(encoded);
    hide *;
    forall i, j | 0 <= i < j < |fields| ensures fields[i].id != fields[j].id {
      EncodedIdsDistinct(encoded, i, j);
      EncodedIdAt(fields, i);
      EncodedIdAt(fields, j);
    }
    forall f | f in fields ensures exists row :: row in rows && IsRowOf(row, f) {
      var row := StructRowOfField(fields, f);
    }
    forall row | row in rows ensures exists f :: f in fields && IsRowOf(row, f) {
      var f := FieldOfStructRow(fields, row);
    }
  }

  lemma EncodedIdAt(fields: seq<Field>, i: nat)
    requires i < |fields|
    ensures EncodeFields(fields)[i].id == fields[i].id
  {
    EncodeFieldsAt(fields, i);
  }

  predicate IsPairOf(pair: Pair, entry: Entry) {
    IsScalar(entry.key) && EncodeTagged(entry.key) == Ok(pair.key) && EncodeTagged(entry.value) == Ok(pair.value)
  }

  predicate KeyLt(a: Pair, b: Pair) {
    LexLt(a.key, b.key)
  }

  predicate AscendingKeys(pairs: seq<Pair>) {
    SortedBy(pairs, KeyLt)
  }

  lemma {:induction false} EntriesEncoded(entries: seq<Entry>)
    ensures EncodeEntries(entries).Ok? <==> forall i :: 0 <= i < |entries| ==> EncodeEntry(entries[i]).Ok?
    ensures EncodeEntries(entries).Ok? ==> forall i :: 0 <= i < |entries| ==>
      EncodeEntry(entries[i]) == Ok(EncodeEntries(entries).value[i])
  {
    if entries != [] {
      EntriesEncoded(entries[1..]);
      if EncodeEntries(entries).Ok? {
        forall i | 0 <= i < |entries| ensures EncodeEntry(entries[i]) == Ok(EncodeEntries(entries).value[i]) {
          if i > 0 {
            assert entries[i] == entries[1..][i - 1];
          }
        }
      }
    }
  }

  lemma ByKeyIsPreorder()
    ensures TotalPreorder(ByKey())
  {
    forall x: Pair, y: Pair ensures ByKey()(x, y) || ByKey()(y, x) {
      LexConnected(x.key, y.key);
    }
    forall x: Pair, y: Pair, z: Pair | ByKey()(x, y) && ByKey()(y, z) ensures ByKey()(x, z) {
      if x.key != y.key && y.key != z.key {
        LexTransitive(x.key, y.key, z.key);
      }
    }
  }

  lemma KeyLtIsStrict()
    ensures forall x, y :: KeyLt(x, y) ==> !KeyLt(y, x)
    ensures forall x :: !KeyLt(x, x)
  {
    forall x, y | KeyLt(x, y) ensures !KeyLt(y, x) {
      if KeyLt(y, x) {
        LexTransitive(x.key, y.key, x.key);
        LexIrreflexive(x.key);
      }
    }
    forall x ensures !KeyLt(x, x) {
      LexIrreflexive(x.key);
    }
  }

  lemma StrictFromNeighbourKeys(sorted: seq<Pair>, i: nat, j: nat)
    requires SortedBy(sorted, ByKey()) && !DuplicateNeighbour(PairKeys(sorted))
    requires i < j < |sorted|
    ensures KeyLt(sorted[i], sorted[j])
  {
    var keys := PairKeys(sorted);
    assert keys[j - 1] != keys[j];
    assert ByKey()(sorted[j - 1], sorted[j]);
    if i < j - 1 {
      assert ByKey()(sorted[i], sorted[j - 1]);
      if sorted[i].key != sorted[j - 1].key {
        LexTransitive(sorted[i].key, sorted[j - 1].key, sorted[j].key);
      }
    }
  }

  lemma SortedPairsAscend(pairs: seq<Pair>)
    requires !DuplicateNeighbour(PairKeys(StableSort(pairs, ByKey())))
    ensures AscendingKeys(StableSort(pairs, ByKey()))
  {
    var sorted := StableSort(pairs, ByKey());
    ByKeyIsPreorder();
    SortSorts(pairs, ByKey());
    forall i, j | 0 <= i < j < |sorted| ensures KeyLt(sorted[i], sorted[j]) {
      StrictFromNeighbourKeys(sorted, i, j);
    }
  }

  /** The ordered pairs are the encoded pairs, none lost and none repeated. */
  lemma OrderedPairs(encoded: seq<Pair>)
    requires OrderedEntries(Ok(encoded)).Ok?
    ensures var pairs := OrderedEntries(Ok(encoded)).value;
      && |pairs| == |encoded| && AscendingKeys(pairs)
      && forall p :: p in pairs <==> p in encoded
    ensures forall i, j :: 0 <= i < j < |encoded| ==> encoded[i].key != encoded[j].key
  {
    SortPermutes(encoded, ByKey());
    SortMembers(encoded, ByKey());
    SortedPairsAscend(encoded);
    KeyLtIsStrict();
    forall i, j | 0 <= i < j < |encoded| ensures encoded[i].key != encoded[j].key {
      PermutationOfStrict(encoded, StableSort(encoded, ByKey()), KeyLt, i, j);
      LexIrreflexive(encoded[i].key);
    }
  }

  /** An encoded map has its key bytes strictly ascending, and its pairs are exactly its entries. */
  lemma MapPairs(entries: seq<Entry>)
    requires OrderedEntries(EncodeEntries(entries)).Ok?
    ensures var pairs := OrderedEntries(EncodeEntries(entries)).value;
      && |pairs| == |entries| && AscendingKeys(pairs)
      && (forall p :: p in pairs ==> exists e :: e in entries && IsPairOf(p, e))
      && (forall e :: e in entries ==> exists p :: p in pairs && IsPairOf(p, e))
    ensures forall i, j :: 0 <= i < j < |entries| ==> EncodeTagged(entries[i].key) != EncodeTagged(entries[j].key)
  {
    var encoded := EncodeEntries(entries).value;
    var pairs := OrderedEntries(EncodeEntries(entries)).value;
    EntriesEncoded(entries);
    OrderedPairs(encoded);
    forall i | 0 <= i < |entries| ensures IsPairOf(encoded[i], entries[i]) {
      assert EncodeEntry(entries[i]) == Ok(encoded[i]);
    }
    forall p | p in pairs ensures exists e :: e in entries && IsPairOf(p, e) {
      assert p in encoded;
      var j :| 0 <= j < |encoded| && encoded[j] == p;
      assert IsPairOf(p, entries[j]);
    }
    forall e | e in entries ensures exists p :: p in pairs && IsPairOf(p, e) {
      var j :| 0 <= j < |entries| && entries[j] == e;
      assert encoded[j] in encoded && IsPairOf(encoded[j], e);
    }
    forall i, j | 0 <= i < j < |entries|
      ensures EncodeTagged(entries[i].key) != EncodeTagged(entries[j].key)
    {
      assert IsPairOf(encoded[i], entries[i]) && IsPairOf(encoded[j], entries[j]);
    }
  }

  lemma EntryOfMapPair(entries: seq<Entry>, p: Pair) returns (e: Entry)
    requires OrderedEntries(EncodeEntries(entries)).Ok? && p in OrderedEntries(EncodeEntries(entries)).value
    ensures e in entries && IsPairOf(p, e)
  {
    MapPairs(entries);
    e :| e in entries && IsPairOf(p, e);
  }
}
