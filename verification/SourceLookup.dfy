/** What the lookup index and the composite zones say about the source's own values. */
module SourceLookup {
  import opened Wrappers
  import opened ConvertedColumns
  import opened RowLayout
  import opened LookupIndex
  import opened SourceColumns

  /** The key under which a searcher asks for a value: booleans as 0 and 1, whole numbers wrapped into 64 bits,
      floats by their bits, rewritten columns by their FileCode. */
  predicate IsKeyFor(kind: SourceKind, v: SourceValue, key: u64) {
    match v
    case Truth(b) => key == (if b then 1 else 0)
    case Whole(n) => kind != FromDecimal128 && NumberHeld(key, kind, n)
    case Float(bits) => key == bits
    case Code(code) => key == code
    case Octets(_) => false
  }

  /** A value that rows of the column may hold. */
  predicate Possible(c: Column, kind: SourceKind, v: SourceValue) {
    if c.values.FileCodes? then v.Code? else Fits(kind, v)
  }

  /** Boolean, numeric and rewritten columns have keys. */
  predicate HasKeys(c: Column) {
    c.values.Booleans? || c.values.FileCodes? || c.values.NumCodes?
  }

  lemma KeyOfHeld(c: Column, kind: SourceKind, rows: seq<SourceCell>, row: nat)
    requires Holds(c, kind, rows) && row < |rows|
    ensures rows[row].None? || !HasKeys(c) ==> KeyOf(c, row).None?
    ensures rows[row].Some? && HasKeys(c) ==>
      && KeyOf(c, row).Some? && IsKeyFor(kind, rows[row].value, KeyOf(c, row).value)
      && Possible(c, kind, rows[row].value)
  {
    assert CellHeld(c, kind, row, rows[row]);
    hide NumberHeld, StandsFor, Scale;
  }

  lemma SameKeySameValue(c: Column, kind: SourceKind, v: SourceValue, w: SourceValue, key: u64)
    requires LaidOut(c.values, kind) || c.values.FileCodes?
    requires HasKeys(c) && Possible(c, kind, v) && Possible(c, kind, w)
    requires IsKeyFor(kind, v, key) && IsKeyFor(kind, w, key)
    ensures v == w
  {
    if v.Whole? && w.Whole? {
      HeldOnce(kind, key, v, w);
    }
    hide NumberHeld, Scale;
  }

  lemma OneKey(kind: SourceKind, v: SourceValue, a: u64, b: u64)
    requires IsKeyFor(kind, v, a) && IsKeyFor(kind, v, b)
    ensures a == b
  {
    hide Scale;
  }

  /** A row has the key of a value exactly when it holds the value. */
  lemma KeyMeansValue(c: Column, kind: SourceKind, rows: seq<SourceCell>, v: SourceValue, key: u64, row: nat)
    requires Holds(c, kind, rows) && row < |rows| && HasKeys(c) && Possible(c, kind, v) && IsKeyFor(kind, v, key)
    ensures KeyOf(c, row) == Some(key) <==> rows[row] == Some(v)
  {
    hide KeyOf, IsKeyFor, Possible, CellHeld, LaidOut;
    KeyOfHeld(c, kind, rows, row);
    if rows[row].Some? {
      if KeyOf(c, row) == Some(key) {
        SameKeySameValue(c, kind, v, rows[row].value, key);
      }
      if rows[row] == Some(v) {
        OneKey(kind, v, key, KeyOf(c, row).value);
      }
    }
  }

  /** `found` are the rows that hold a value, each once, in order. */
  predicate RowsHolding(rows: seq<SourceCell>, v: SourceValue, found: seq<nat>) {
    && (forall i, j :: 0 <= i < j < |found| ==> found[i] < found[j])
    && (forall i :: 0 <= i < |found| ==> found[i] < |rows| && rows[found[i]] == Some(v))
    && (forall row :: 0 <= row < |rows| && rows[row] == Some(v) ==> row in found)
  }

  /** Asking a column's index for a source value gives the addresses of exactly the rows that hold it, in row order;
      there is no entry when no row does. */
  lemma IndexFindsSource(entries: seq<LookupEntry>, c: Column, kind: SourceKind, rows: seq<SourceCell>,
      segments: seq<Segment>, morsel: nat, v: SourceValue, key: u64)
    returns (found: seq<nat>)
    requires morsel > 0 && Indexable(c, segments, morsel, |rows|) && Lists(entries, c, segments, morsel, |rows|)
    requires Holds(c, kind, rows) && HasKeys(c) && Possible(c, kind, v) && IsKeyFor(kind, v, key)
    ensures RowsHolding(rows, v, found) && Addressed(segments, morsel, found)
    ensures forall i :: 0 <= i < |entries| && entries[i].key == key ==>
      entries[i].rows == Addresses(segments, morsel, found) && found != []
    ensures found != [] ==> exists i :: 0 <= i < |entries| && entries[i].key == key
  {
    hide KeyOf, AddressOf, Lists, Indexable, IsKeyFor, Possible, Holds;
    found := RowsWithKey(c, key, |rows|);
    IndexAgreesWithScan(entries, c, segments, morsel, |rows|, key);
    RowsWithKeyExact(c, key, |rows|);
    forall row: nat | row < |rows| ensures row in found <==> rows[row] == Some(v) {
      KeyMeansValue(c, kind, rows, v, key, row);
    }
    forall i | 0 <= i < |found| ensures found[i] < |rows| && rows[found[i]] == Some(v) {
      assert found[i] in found;
    }
  }

  /** The index is unique exactly when no two rows hold one source value. */
  lemma UniqueOfSource(c: Column, kind: SourceKind, rows: seq<SourceCell>)
    requires Holds(c, kind, rows) && HasKeys(c)
    ensures KeysDistinct(c, |rows|) <==> forall a, b :: 0 <= a < b < |rows| && rows[a].Some? ==> rows[a] != rows[b]
  {
    hide KeyOf, IsKeyFor, Possible, Holds;
    forall a, b | 0 <= a < b < |rows| && rows[a].Some?
      ensures KeyOf(c, a).Some? && (KeyOf(c, a) == KeyOf(c, b) <==> rows[a] == rows[b])
    {
      KeyOfHeld(c, kind, rows, a);
      KeyMeansValue(c, kind, rows, rows[a].value, KeyOf(c, a).value, b);
    }
    forall a | 0 <= a < |rows| ensures KeyOf(c, a).Some? <==> rows[a].Some? {
      KeyOfHeld(c, kind, rows, a);
    }
  }
}
