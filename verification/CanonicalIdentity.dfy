/** The canonical byte form identifies a value: equal bytes under equal tags mean equal values, up to
    integer width, struct field order and map entry order. */
module CanonicalIdentity {
  import opened Wrappers
  import opened Sequences
  import opened Wire
  import opened Canonical
  import opened CanonicalOrder
  import opened CanonicalAcceptance

  // ---- meaning ----------------------------------------------------------------------------

  /** A value without the details the canonical form is meant to forget: the width of an integer,
      the order of struct fields and the order of map entries. */
  datatype Logical =
    | LScalar(value: Value)
    | LList(elements: seq<Logical>)
    | LStruct(fields: map<u64, Logical>)
    | LMap(entries: map<Logical, Logical>)

  function Meaning(v: Value): Logical
    decreases v, 0
  {
    match v
    case List(elements) => LList(MeaningOfElements(elements))
    case Struct(fields) => LStruct(MeaningOfFields(fields))
    case Map(entries) => LMap(MeaningOfEntries(entries))
    case Int(_, x) => LScalar(Int(8, x))
    case Uint(_, x) => LScalar(Uint(8, x))
    case _ => LScalar(v)
  }

  function MeaningOfElements(elements: seq<Value>): (r: seq<Logical>)
    ensures |r| == |elements|
    decreases elements, 0
  {
    if elements == [] then [] else [Meaning(elements[0])] + MeaningOfElements(elements[1..])
  }

  function MeaningOfField(field: Field): Logical
    decreases field, 1
  {
    Meaning(field.value)
  }

  function MeaningOfFields(fields: seq<Field>): map<u64, Logical>
    decreases fields, 0
  {
    if fields == [] then map[]
    else MeaningOfFields(fields[1..])[fields[0].id := MeaningOfField(fields[0])]
  }

  function MeaningOfEntry(entry: Entry): (Logical, Logical)
    decreases entry, 1
  {
    (Meaning(entry.key), Meaning(entry.value))
  }

  function MeaningOfEntries(entries: seq<Entry>): map<Logical, Logical>
    decreases entries, 0
  {
    if entries == [] then map[]
    else
      var (k, v) := MeaningOfEntry(entries[0]);
      MeaningOfEntries(entries[1..])[k := v]
  }

  lemma {:induction false} ElementMeaning(elements: seq<Value>, i: nat)
    requires i < |elements|
    ensures MeaningOfElements(elements)[i] == Meaning(elements[i])
  {
    if i > 0 {
      ElementMeaning(elements[1..], i - 1);
    }
  }

  lemma {:induction false} FieldLookup(fields: seq<Field>)
    requires forall i, j :: 0 <= i < j < |fields| ==> fields[i].id != fields[j].id
    ensures forall f :: f in fields ==>
      f.id in MeaningOfFields(fields) && MeaningOfFields(fields)[f.id] == Meaning(f.value)
    ensures forall id :: id in MeaningOfFields(fields) ==> exists f :: f in fields && f.id == id
  {
    if fields != [] {
      FieldLookup(fields[1..]);
      assert forall f :: f in fields <==> f == fields[0] || f in fields[1..];
      assert fields[0] in fields;
      forall id | id in MeaningOfFields(fields) ensures exists f :: f in fields && f.id == id {
        if id != fields[0].id {
          var f :| f in fields[1..] && f.id == id;
          assert f in fields;
        }
      }
    }
  }

  lemma {:induction false} EntryLookup(entries: seq<Entry>)
    requires forall i, j :: 0 <= i < j < |entries| ==> Meaning(entries[i].key) != Meaning(entries[j].key)
    ensures forall e :: e in entries ==>
      && Meaning(e.key) in MeaningOfEntries(entries)
      && MeaningOfEntries(entries)[Meaning(e.key)] == Meaning(e.value)
    ensures forall k :: k in MeaningOfEntries(entries) ==> exists e :: e in entries && Meaning(e.key) == k
  {
    hide Meaning;
    if entries != [] {
      var rest := entries[1..];
      EntryLookup(rest);
      forall e | e in entries
        ensures Meaning(e.key) in MeaningOfEntries(entries)
        ensures MeaningOfEntries(entries)[Meaning(e.key)] == Meaning(e.value)
      {
        var i :| 0 <= i < |entries| && entries[i] == e;
        if i > 0 {
          assert rest[i - 1] == e;
          assert Meaning(entries[0].key) != Meaning(entries[i].key);
        }
      }
      forall k | k in MeaningOfEntries(entries) ensures exists e :: e in entries && Meaning(e.key) == k {
        if k == Meaning(entries[0].key) {
          assert entries[0] in entries;
        } else {
          var e :| e in rest && Meaning(e.key) == k;
          assert e in entries;
        }
      }
    }
  }

  // ---- equal meaning gives equal bytes ------------------------------------------------------

  ghost predicate SameForm(a: Value, b: Value) {
    TagOf(a) == TagOf(b) && Encode(a) == Encode(b)
  }

  lemma SameFormTagged(a: Value, b: Value)
    requires SameForm(a, b)
    ensures EncodeTagged(a) == EncodeTagged(b)
  {
  }

  lemma MeaningfulScalar(a: Value, b: Value)
    requires IsScalar(a) && Encode(a).Ok? && Encode(b).Ok?
    requires Meaning(a) == Meaning(b)
    ensures SameForm(a, b)
  {
  }

  /** Rows and pairs as views of the fields and entries they were encoded from. */
  ghost predicate StructView(fields: seq<Field>, rows: seq<FieldRow>) {
    && |rows| == |fields| && AscendingIds(rows)
    && (forall row :: row in rows ==> exists f :: f in fields && IsRowOf(row, f))
    && (forall f :: f in fields ==> exists row :: row in rows && IsRowOf(row, f))
    && (forall i, j :: 0 <= i < j < |fields| ==> fields[i].id != fields[j].id)
  }

  ghost predicate MapView(entries: seq<Entry>, pairs: seq<Pair>) {
    && |pairs| == |entries| && AscendingKeys(pairs)
    && (forall p :: p in pairs ==> exists e :: e in entries && IsPairOf(p, e))
    && (forall e :: e in entries ==> exists p :: p in pairs && IsPairOf(p, e))
    && (forall i, j :: 0 <= i < j < |entries| ==> EncodeTagged(entries[i].key) != EncodeTagged(entries[j].key))
  }

  lemma StructViewOf(v: Value) returns (rows: seq<FieldRow>)
    requires v.Struct? && Encode(v).Ok?
    ensures StructView(v.fields, rows)
    ensures Encode(v).value == EncodeLeb(|v.fields|) + Flatten(FieldRows(rows))
  {
    StructRows(v.fields);
    rows := OrderedFields(EncodeFields(v.fields)).value;
  }

  lemma MapViewOf(v: Value) returns (pairs: seq<Pair>)
    requires v.Map? && Encode(v).Ok?
    ensures MapView(v.entries, pairs)
    ensures Encode(v).value == EncodeLeb(|v.entries|) + Flatten(EntryRows(pairs))
  {
    MapPairs(v.entries);
    pairs := OrderedEntries(EncodeEntries(v.entries)).value;
  }

  lemma KeyMeaningsDistinct(entries: seq<Entry>, pairs: seq<Pair>)
    requires MapView(entries, pairs)
    ensures forall i, j :: 0 <= i < j < |entries| ==> Meaning(entries[i].key) != Meaning(entries[j].key)
  {
    forall i, j | 0 <= i < j < |entries| ensures Meaning(entries[i].key) != Meaning(entries[j].key) {
      assert entries[i] in entries && entries[j] in entries;
      if Meaning(entries[i].key) == Meaning(entries[j].key) {
        MeaningfulScalar(entries[i].key, entries[j].key);
        SameFormTagged(entries[i].key, entries[j].key);
      }
    }
  }

  // Witnesses out of a view, one at a time.

  lemma FieldOfRow(fields: seq<Field>, rows: seq<FieldRow>, row: FieldRow) returns (f: Field)
    requires StructView(fields, rows) && row in rows
    ensures f in fields && IsRowOf(row, f)
  {
    f :| f in fields && IsRowOf(row, f);
  }

  lemma RowOfField(fields: seq<Field>, rows: seq<FieldRow>, f: Field) returns (row: FieldRow)
    requires StructView(fields, rows) && f in fields
    ensures row in rows && IsRowOf(row, f)
  {
    row :| row in rows && IsRowOf(row, f);
  }

  lemma EntryOfPair(entries: seq<Entry>, pairs: seq<Pair>, p: Pair) returns (e: Entry)
    requires MapView(entries, pairs) && p in pairs
    ensures e in entries && IsPairOf(p, e)
  {
    e :| e in entries && IsPairOf(p, e);
  }

  lemma PairOfEntry(entries: seq<Entry>, pairs: seq<Pair>, e: Entry) returns (p: Pair)
    requires MapView(entries, pairs) && e in entries
    ensures p in pairs && IsPairOf(p, e)
  {
    p :| p in pairs && IsPairOf(p, e);
  }

  lemma FieldWithId(fields: seq<Field>, rows: seq<FieldRow>, id: u64) returns (f: Field)
    requires StructView(fields, rows) && id in MeaningOfFields(fields)
    ensures f in fields && f.id == id && MeaningOfFields(fields)[id] == Meaning(f.value)
  {
    FieldLookup(fields);
    f :| f in fields && f.id == id;
  }

  lemma FieldIsLookedUp(fields: seq<Field>, rows: seq<FieldRow>, f: Field)
    requires StructView(fields, rows) && f in fields
    ensures f.id in MeaningOfFields(fields) && MeaningOfFields(fields)[f.id] == Meaning(f.value)
  {
    FieldLookup(fields);
  }

  lemma EntryWithKey(entries: seq<Entry>, pairs: seq<Pair>, k: Logical) returns (e: Entry)
    requires MapView(entries, pairs) && k in MeaningOfEntries(entries)
    ensures e in entries && Meaning(e.key) == k && MeaningOfEntries(entries)[k] == Meaning(e.value)
  {
    KeyMeaningsDistinct(entries, pairs);
    EntryLookup(entries);
    e :| e in entries && Meaning(e.key) == k;
  }

  lemma EntryIsLookedUp(entries: seq<Entry>, pairs: seq<Pair>, e: Entry)
    requires MapView(entries, pairs) && e in entries
    ensures Meaning(e.key) in MeaningOfEntries(entries)
    ensures MeaningOfEntries(entries)[Meaning(e.key)] == Meaning(e.value)
  {
    KeyMeaningsDistinct(entries, pairs);
    EntryLookup(entries);
  }

  lemma CompleteList(a: Value, b: Value)
    requires a.List? && Encode(a).Ok? && Encode(b).Ok? && Meaning(a) == Meaning(b)
    ensures SameForm(a, b)
    decreases a, 0
  {
    ElementsEncoded(a.elements);
    ElementsEncoded(b.elements);
    assert |MeaningOfElements(a.elements)| == |MeaningOfElements(b.elements)|;
    forall i | 0 <= i < |a.elements|
      ensures EncodeElements(a.elements).value[i] == EncodeElements(b.elements).value[i]
    {
      ElementMeaning(a.elements, i);
      ElementMeaning(b.elements, i);
      Complete(a.elements[i], b.elements[i]);
      SameFormTagged(a.elements[i], b.elements[i]);
    }
    assert EncodeElements(a.elements).value == EncodeElements(b.elements).value;
  }

  predicate RowLt(a: FieldRow, b: FieldRow) {
    a.id < b.id
  }

  lemma RowCarriesOver(a: Value, ra: seq<FieldRow>, fields: seq<Field>, rb: seq<FieldRow>, row: FieldRow)
    requires a.Struct? && StructView(a.fields, ra) && StructView(fields, rb)
    requires MeaningOfFields(a.fields) == MeaningOfFields(fields)
    ensures row in ra <==> row in rb
    decreases a, 0
  {
    hide StructView;
    if row in ra {
      var f := FieldOfRow(a.fields, ra, row);
      FieldIsLookedUp(a.fields, ra, f);
      var g := FieldWithId(fields, rb, f.id);
      var other := RowOfField(fields, rb, g);
      Complete(f.value, g.value);
      SameFormTagged(f.value, g.value);
    }
    if row in rb {
      var g := FieldOfRow(fields, rb, row);
      FieldIsLookedUp(fields, rb, g);
      var f := FieldWithId(a.fields, ra, g.id);
      var other := RowOfField(a.fields, ra, f);
      Complete(f.value, g.value);
      SameFormTagged(f.value, g.value);
    }
  }

  lemma CompleteStruct(a: Value, b: Value)
    requires a.Struct? && Encode(a).Ok? && Encode(b).Ok? && Meaning(a) == Meaning(b)
    ensures SameForm(a, b)
    decreases a, 1
  {
    var ra := StructViewOf(a);
    var rb := StructViewOf(b);
    forall row ensures row in ra <==> row in rb {
      RowCarriesOver(a, ra, b.fields, rb, row);
    }
    StrictlySortedUnique(ra, rb, RowLt);
  }

  lemma PairGoesOver(a: Value, pa: seq<Pair>, entries: seq<Entry>, pb: seq<Pair>, p: Pair)
    requires a.Map? && MapView(a.entries, pa) && MapView(entries, pb)
    requires MeaningOfEntries(a.entries) == MeaningOfEntries(entries)
    requires p in pa
    ensures p in pb
    decreases a, 1
  {
    hide MapView;
    var e := EntryOfPair(a.entries, pa, p);
    EntryIsLookedUp(a.entries, pa, e);
    var d := EntryWithKey(entries, pb, Meaning(e.key));
    var q := PairOfEntry(entries, pb, d);
    SamePair(a, e, d);
  }

  lemma PairComesBack(a: Value, pa: seq<Pair>, entries: seq<Entry>, pb: seq<Pair>, q: Pair)
    requires a.Map? && MapView(a.entries, pa) && MapView(entries, pb)
    requires MeaningOfEntries(a.entries) == MeaningOfEntries(entries)
    requires q in pb
    ensures q in pa
    decreases a, 1
  {
    hide MapView;
    var d := EntryOfPair(entries, pb, q);
    EntryIsLookedUp(entries, pb, d);
    var e := EntryWithKey(a.entries, pa, Meaning(d.key));
    var p := PairOfEntry(a.entries, pa, e);
    SamePair(a, e, d);
  }

  lemma SamePair(a: Value, e: Entry, d: Entry)
    requires a.Map? && e in a.entries
    requires Encode(e.key).Ok? && Encode(d.key).Ok? && Encode(e.value).Ok? && Encode(d.value).Ok?
    requires Meaning(e.key) == Meaning(d.key) && Meaning(e.value) == Meaning(d.value)
    ensures EncodeTagged(e.key) == EncodeTagged(d.key) && EncodeTagged(e.value) == EncodeTagged(d.value)
    decreases a, 0
  {
    Complete(e.key, d.key);
    SameFormTagged(e.key, d.key);
    Complete(e.value, d.value);
    SameFormTagged(e.value, d.value);
  }

  lemma CompleteMap(a: Value, b: Value)
    requires a.Map? && Encode(a).Ok? && Encode(b).Ok? && Meaning(a) == Meaning(b)
    ensures SameForm(a, b)
    decreases a, 2
  {
    var pa := MapViewOf(a);
    var pb := MapViewOf(b);
    forall p ensures p in pa <==> p in pb {
      if p in pa {
        PairGoesOver(a, pa, b.entries, pb, p);
      }
      if p in pb {
        PairComesBack(a, pa, b.entries, pb, p);
      }
    }
    KeyLtIsStrict();
    StrictlySortedUnique(pa, pb, KeyLt);
  }

  lemma Complete(a: Value, b: Value)
    requires Encode(a).Ok? && Encode(b).Ok? && Meaning(a) == Meaning(b)
    ensures SameForm(a, b)
    decreases a, 3
  {
    match a {
      case List(_) => CompleteList(a, b);
      case Struct(_) => CompleteStruct(a, b);
      case Map(_) => CompleteMap(a, b);
      case _ => MeaningfulScalar(a, b);
    }
  }

  // ---- equal bytes give equal meaning -------------------------------------------------------

  lemma SignedLEInjective(x: int, y: int, n: nat, half: int)
    requires Pow256(n) == 2 * half && -half <= x < half && -half <= y < half
    requires SignedLE(x, n) == SignedLE(y, n)
    ensures x == y
  {
    ToLEInjective(if x < 0 then x + Pow256(n) else x, if y < 0 then y + Pow256(n) else y, n);
  }

  lemma LengthPrefixedInjective(x: Blob, y: Blob)
    requires LengthPrefixed(x) == LengthPrefixed(y)
    ensures x == y
  {
    LebRoundTrip(|x|, x);
    LebRoundTrip(|y|, y);
    assert x == LengthPrefixed(x)[|EncodeLeb(|x|)|..];
    assert y == LengthPrefixed(y)[|EncodeLeb(|y|)|..];
  }

  lemma ScalarFromForm(a: Value, b: Value)
    requires IsScalar(a) && Encode(a).Ok? && SameForm(a, b)
    ensures Meaning(a) == Meaning(b)
  {
    Pow256Values();
    match a {
      case Null =>
      case Bool(_) =>
      case Int(_, x) => SignedLEInjective(x, b.signed, 8, TWO_63);
      case Uint(_, x) => ToLEInjective(x, b.unsigned, 8);
      case Float32(x) => ToLEInjective(x, b.bits32, 4);
      case Float64(x) => ToLEInjective(x, b.bits64, 8);
      case Decimal64(x) => SignedLEInjective(x, b.d64, 8, TWO_63);
      case Decimal128(x) => SignedLEInjective(x, b.d128, 16, TWO_127);
      case DateDays(x) => SignedLEInjective(x, b.days, 4, TWO_31);
      case TimestampMicros(x) => SignedLEInjective(x, b.micros, 8, TWO_63);
      case TimestampNanos(x) => SignedLEInjective(x, b.nanos, 8, TWO_63);
      case Uuid(_) =>
      case Text(x) => LengthPrefixedInjective(x, b.text);
      case Binary(x) => LengthPrefixedInjective(x, b.bytes);
      case Json(x) => LengthPrefixedInjective(x, b.json);
    }
  }

  lemma TaggedForm(a: Value, b: Value)
    requires EncodeTagged(a).Ok? && EncodeTagged(a) == EncodeTagged(b)
    ensures SameForm(a, b)
  {
    var pa, pb := Encode(a).value, Encode(b).value;
    LebRoundTrip(TagOf(a), pa);
    LebRoundTrip(TagOf(b), pb);
    assert pa == EncodeTagged(a).value[|EncodeLeb(TagOf(a))|..];
    assert pb == EncodeTagged(b).value[|EncodeLeb(TagOf(b))|..];
  }

  lemma CountedBodies(n: u64, x: seq<byte>, m: u64, y: seq<byte>)
    requires EncodeLeb(n) + x == EncodeLeb(m) + y
    ensures n == m && x == y
  {
    LebRoundTrip(n, x);
    LebRoundTrip(m, y);
    assert x == (EncodeLeb(n) + x)[|EncodeLeb(n)|..];
    assert y == (EncodeLeb(m) + y)[|EncodeLeb(m)|..];
  }

  const ANY_JSON: JsonCheck := _ => true

  lemma TakenTagged(v: Value)
    requires Addressable(v) && EncodeTagged(v).Ok?
    ensures AnyAccepted(ANY_JSON, EncodeTagged(v).value)
  {
    AnyJson(v);
    TaggedAccepted(ANY_JSON, v);
  }

  lemma AnyJson(v: Value)
    ensures JsonWellFormed(ANY_JSON, v)
  {
  }

  lemma {:induction false} SameElements(x: seq<seq<byte>>, y: seq<seq<byte>>)
    requires |x| == |y| && Flatten(x) == Flatten(y)
    requires forall t :: t in x || t in y ==> AnyAccepted(ANY_JSON, t)
    ensures x == y
  {
    if x != [] {
      assert x[0] in x && y[0] in y;
      AcceptedSplit(ANY_JSON, x[0], Flatten(x[1..]), y[0], Flatten(y[1..]));
      SameElements(x[1..], y[1..]);
      assert x == [x[0]] + x[1..] == y;
    }
  }

  lemma {:induction false} SameFields(x: seq<FieldRow>, y: seq<FieldRow>)
    requires |x| == |y| && Flatten(FieldRows(x)) == Flatten(FieldRows(y))
    requires forall row :: row in x || row in y ==> AnyAccepted(ANY_JSON, row.tagged)
    ensures x == y
  {
    hide AnyAccepted, EncodeLeb;
    if x != [] {
      var xs, ys := Flatten(FieldRows(x[1..])), Flatten(FieldRows(y[1..]));
      assert x[0] in x && y[0] in y;
      assert Flatten(FieldRows(x)) == EncodeLeb(x[0].id) + (x[0].tagged + xs);
      assert Flatten(FieldRows(y)) == EncodeLeb(y[0].id) + (y[0].tagged + ys);
      CountedBodies(x[0].id, x[0].tagged + xs, y[0].id, y[0].tagged + ys);
      AcceptedSplit(ANY_JSON, x[0].tagged, xs, y[0].tagged, ys);
      SameFields(x[1..], y[1..]);
      assert x == [x[0]] + x[1..] == y;
    }
  }

  lemma EntryRowsSplit(pairs: seq<Pair>)
    requires pairs != []
    ensures Flatten(EntryRows(pairs)) == pairs[0].key + (pairs[0].value + Flatten(EntryRows(pairs[1..])))
  {
  }

  lemma {:induction false} SamePairs(x: seq<Pair>, y: seq<Pair>)
    requires |x| == |y| && Flatten(EntryRows(x)) == Flatten(EntryRows(y))
    requires forall p :: p in x || p in y ==> AnyAccepted(ANY_JSON, p.key) && AnyAccepted(ANY_JSON, p.value)
    ensures x == y
  {
    hide AnyAccepted;
    if x != [] {
      var xs, ys := Flatten(EntryRows(x[1..])), Flatten(EntryRows(y[1..]));
      assert x[0] in x && y[0] in y;
      EntryRowsSplit(x);
      EntryRowsSplit(y);
      AcceptedSplit(ANY_JSON, x[0].key, x[0].value + xs, y[0].key, y[0].value + ys);
      AcceptedSplit(ANY_JSON, x[0].value, xs, y[0].value, ys);
      SamePairs(x[1..], y[1..]);
      assert x == [x[0]] + x[1..] == y;
    }
  }

  lemma SoundList(a: Value, b: Value)
    requires a.List? && Addressable(a) && Addressable(b) && Encode(a).Ok? && SameForm(a, b)
    ensures Meaning(a) == Meaning(b)
    decreases a, 0
  {
    var x, y := EncodeElements(a.elements).value, EncodeElements(b.elements).value;
    ElementsEncoded(a.elements);
    ElementsEncoded(b.elements);
    CountedBodies(|a.elements|, Flatten(x), |b.elements|, Flatten(y));
    forall t | t in x || t in y ensures AnyAccepted(ANY_JSON, t) {
      if t in x {
        var i :| 0 <= i < |x| && x[i] == t;
        assert EncodeTagged(a.elements[i]) == Ok(x[i]);
        TakenTagged(a.elements[i]);
      } else {
        var i :| 0 <= i < |y| && y[i] == t;
        assert EncodeTagged(b.elements[i]) == Ok(y[i]);
        TakenTagged(b.elements[i]);
      }
    }
    SameElements(x, y);
    forall i | 0 <= i < |a.elements| ensures MeaningOfElements(a.elements)[i] == MeaningOfElements(b.elements)[i] {
      assert EncodeTagged(a.elements[i]) == Ok(x[i]) == EncodeTagged(b.elements[i]);
      TaggedForm(a.elements[i], b.elements[i]);
      Sound(a.elements[i], b.elements[i]);
      ElementMeaning(a.elements, i);
      ElementMeaning(b.elements, i);
    }
  }

  lemma RowsTaken(v: Value, rows: seq<FieldRow>)
    requires v.Struct? && Addressable(v) && StructView(v.fields, rows)
    ensures forall row :: row in rows ==> AnyAccepted(ANY_JSON, row.tagged)
  {
    hide StructView, AnyAccepted, EncodeTagged;
    forall row | row in rows ensures AnyAccepted(ANY_JSON, row.tagged) {
      var f := FieldOfRow(v.fields, rows, row);
      TakenTagged(f.value);
    }
  }

  lemma PairsTaken(v: Value, pairs: seq<Pair>)
    requires v.Map? && Addressable(v) && MapView(v.entries, pairs)
    ensures forall p :: p in pairs ==> AnyAccepted(ANY_JSON, p.key) && AnyAccepted(ANY_JSON, p.value)
  {
    hide MapView, AnyAccepted, EncodeTagged;
    forall p | p in pairs ensures AnyAccepted(ANY_JSON, p.key) && AnyAccepted(ANY_JSON, p.value) {
      var e := EntryOfPair(v.entries, pairs, p);
      TakenTagged(e.key);
      TakenTagged(e.value);
    }
  }

  lemma FieldMeaningGoesOver(a: Value, b: Value, rows: seq<FieldRow>, id: u64)
    requires a.Struct? && b.Struct? && Addressable(a) && Addressable(b)
    requires StructView(a.fields, rows) && StructView(b.fields, rows)
    requires id in MeaningOfFields(a.fields)
    ensures id in MeaningOfFields(b.fields) && MeaningOfFields(a.fields)[id] == MeaningOfFields(b.fields)[id]
    decreases a, 0
  {
    hide StructView;
    var f := FieldWithId(a.fields, rows, id);
    var row := RowOfField(a.fields, rows, f);
    var g := FieldOfRow(b.fields, rows, row);
    FieldIsLookedUp(b.fields, rows, g);
    TaggedForm(f.value, g.value);
    Sound(f.value, g.value);
  }

  lemma FieldMeaningComesBack(fields: seq<Field>, others: seq<Field>, rows: seq<FieldRow>, id: u64)
    requires StructView(fields, rows) && StructView(others, rows)
    requires id in MeaningOfFields(others)
    ensures id in MeaningOfFields(fields)
  {
    hide StructView;
    var g := FieldWithId(others, rows, id);
    var row := RowOfField(others, rows, g);
    var f := FieldOfRow(fields, rows, row);
    FieldIsLookedUp(fields, rows, f);
  }

  lemma SameFieldMaps(a: Value, b: Value, rows: seq<FieldRow>)
    requires a.Struct? && b.Struct? && Addressable(a) && Addressable(b)
    requires StructView(a.fields, rows) && StructView(b.fields, rows)
    ensures MeaningOfFields(a.fields) == MeaningOfFields(b.fields)
    decreases a, 1
  {
    hide StructView;
    var ma, mb := MeaningOfFields(a.fields), MeaningOfFields(b.fields);
    forall id | id in ma ensures id in mb && ma[id] == mb[id] {
      FieldMeaningGoesOver(a, b, rows, id);
    }
    forall id | id in mb ensures id in ma {
      FieldMeaningComesBack(a.fields, b.fields, rows, id);
    }
  }

  lemma SoundStruct(a: Value, b: Value)
    requires a.Struct? && Addressable(a) && Addressable(b) && Encode(a).Ok? && SameForm(a, b)
    ensures Meaning(a) == Meaning(b)
    decreases a, 2
  {
    hide StructView;
    var x := StructViewOf(a);
    var y := StructViewOf(b);
    RowsTaken(a, x);
    RowsTaken(b, y);
    CountedBodies(|a.fields|, Flatten(FieldRows(x)), |b.fields|, Flatten(FieldRows(y)));
    SameFields(x, y);
    SameFieldMaps(a, b, x);
  }

  /** Two entries with the same bytes mean the same. */
  lemma SameEntry(a: Value, p: Pair, e: Entry, d: Entry)
    requires a.Map? && e in a.entries && IsPairOf(p, e) && IsPairOf(p, d)
    requires Addressable(e.key) && Addressable(d.key) && Addressable(e.value) && Addressable(d.value)
    ensures Meaning(e.key) == Meaning(d.key) && Meaning(e.value) == Meaning(d.value)
    decreases a, 0
  {
    TaggedForm(e.key, d.key);
    TaggedForm(e.value, d.value);
    Sound(e.key, d.key);
    Sound(e.value, d.value);
  }

  lemma EntryMeaningGoesOver(a: Value, b: Value, pairs: seq<Pair>, k: Logical)
    requires a.Map? && b.Map? && Addressable(a) && Addressable(b)
    requires MapView(a.entries, pairs) && MapView(b.entries, pairs)
    requires k in MeaningOfEntries(a.entries)
    ensures k in MeaningOfEntries(b.entries) && MeaningOfEntries(a.entries)[k] == MeaningOfEntries(b.entries)[k]
    decreases a, 1
  {
    hide MapView;
    var e := EntryWithKey(a.entries, pairs, k);
    var p := PairOfEntry(a.entries, pairs, e);
    var d := EntryOfPair(b.entries, pairs, p);
    EntryIsLookedUp(b.entries, pairs, d);
    SameEntry(a, p, e, d);
  }

  lemma EntryMeaningComesBack(a: Value, b: Value, pairs: seq<Pair>, k: Logical)
    requires a.Map? && b.Map? && Addressable(a) && Addressable(b)
    requires MapView(a.entries, pairs) && MapView(b.entries, pairs)
    requires k in MeaningOfEntries(b.entries)
    ensures k in MeaningOfEntries(a.entries)
    decreases a, 1
  {
    hide MapView;
    var d := EntryWithKey(b.entries, pairs, k);
    var p := PairOfEntry(b.entries, pairs, d);
    var e := EntryOfPair(a.entries, pairs, p);
    EntryIsLookedUp(a.entries, pairs, e);
    SameEntry(a, p, e, d);
  }

  lemma SameEntryMaps(a: Value, b: Value, pairs: seq<Pair>)
    requires a.Map? && b.Map? && Addressable(a) && Addressable(b)
    requires MapView(a.entries, pairs) && MapView(b.entries, pairs)
    ensures MeaningOfEntries(a.entries) == MeaningOfEntries(b.entries)
    decreases a, 2
  {
    hide MapView;
    var ma, mb := MeaningOfEntries(a.entries), MeaningOfEntries(b.entries);
    forall k | k in ma ensures k in mb && ma[k] == mb[k] {
      EntryMeaningGoesOver(a, b, pairs, k);
    }
    forall k | k in mb ensures k in ma {
      EntryMeaningComesBack(a, b, pairs, k);
    }
  }

  lemma SoundMap(a: Value, b: Value)
    requires a.Map? && Addressable(a) && Addressable(b) && Encode(a).Ok? && SameForm(a, b)
    ensures Meaning(a) == Meaning(b)
    decreases a, 3
  {
    hide MapView;
    var x := MapViewOf(a);
    var y := MapViewOf(b);
    PairsTaken(a, x);
    PairsTaken(b, y);
    CountedBodies(|a.entries|, Flatten(EntryRows(x)), |b.entries|, Flatten(EntryRows(y)));
    SamePairs(x, y);
    SameEntryMaps(a, b, x);
  }

  lemma Sound(a: Value, b: Value)
    requires Addressable(a) && Addressable(b) && Encode(a).Ok? && SameForm(a, b)
    ensures Meaning(a) == Meaning(b)
    decreases a, 4
  {
    match a {
      case List(_) => SoundList(a, b);
      case Struct(_) => SoundStruct(a, b);
      case Map(_) => SoundMap(a, b);
      case _ => ScalarFromForm(a, b);
    }
  }

  // ---- the identity theorem -----------------------------------------------------------------

  /** Dictionary equality: `(value_tag, canonical_bytes)` agree exactly when the values do. */
  lemma CanonicalFormIsIdentity(a: Value, b: Value)
    requires Addressable(a) && Addressable(b) && Encode(a).Ok? && Encode(b).Ok?
    ensures TagOf(a) == TagOf(b) && Encode(a) == Encode(b) <==> Meaning(a) == Meaning(b)
  {
    if SameForm(a, b) {
      Sound(a, b);
    }
    if Meaning(a) == Meaning(b) {
      Complete(a, b);
    }
  }

  /** No tagged encoding is a proper prefix of another, and what follows it can be told apart. */
  lemma TaggedEncodingsArePrefixFree(a: Value, s: seq<byte>, b: Value, t: seq<byte>)
    requires Addressable(a) && Addressable(b) && EncodeTagged(a).Ok? && EncodeTagged(b).Ok?
    requires EncodeTagged(a).value + s == EncodeTagged(b).value + t
    ensures s == t && Meaning(a) == Meaning(b)
  {
    TakenTagged(a);
    TakenTagged(b);
    AcceptedSplit(ANY_JSON, EncodeTagged(a).value, s, EncodeTagged(b).value, t);
    TaggedForm(a, b);
    Sound(a, b);
  }
}
