/** Dictionary synthesis by size never makes a table's bytes grow. */
module SynthesisSize {
  import opened Wrappers
  import opened Ordered
  import opened DictionaryFormat
  import opened Dictionary
  import opened ConvertedColumns
  import opened Synthesis
  import Paging
  import VarBytes

  // ---- the weight of a set of keys ----------------------------------------------------------------------

  /** What one key adds to a dictionary: its index entry, and its bytes when it is long. */
  function KeyWeight(key: Key): nat {
    DICT_INDEX_ENTRY_SIZE + if IsLong(key) then |key.canonical| else 0
  }

  function Weight(keys: seq<Key>): nat {
    if keys == [] then 0 else KeyWeight(keys[0]) + Weight(keys[1..])
  }

  lemma {:induction false} WeightAppend(a: seq<Key>, b: seq<Key>)
    ensures Weight(a + b) == Weight(a) + Weight(b)
  {
    hide KeyWeight;
    if a == [] {
      assert a + b == b;
    } else {
      WeightAppend(a[1..], b);
      assert (a + b)[1..] == a[1..] + b;
    }
  }

  /** The index entries and payload of the first `n` keys weigh what they are worth. */
  lemma {:induction false} WeightOfPrefix(keys: seq<Key>, n: nat)
    requires n <= |keys|
    ensures Weight(keys[..n]) == DICT_INDEX_ENTRY_SIZE * n + |PayloadUpTo(keys, n)|
  {
    if n > 0 {
      WeightOfPrefix(keys, n - 1);
      var one: seq<Key> := [keys[n - 1]];
      assert keys[..n] == keys[..n - 1] + one;
      WeightAppend(keys[..n - 1], one);
      assert Weight(one) == KeyWeight(keys[n - 1]) + Weight([]);
    }
  }

  lemma {:induction false} InsertWeight(x: Key, s: seq<Key>)
    ensures Weight(InsertUnique(x, s, KeyLess)) <= KeyWeight(x) + Weight(s)
  {
    hide KeyWeight, KeyLess;
    if s != [] && x != s[0] && !KeyLess(x, s[0]) {
      InsertWeight(x, s[1..]);
      FirstWeight(s[0], InsertUnique(x, s[1..], KeyLess));
    } else if s == [] || KeyLess(x, s[0]) {
      FirstWeight(x, s);
    }
  }

  lemma FirstWeight(x: Key, s: seq<Key>)
    ensures Weight([x] + s) == KeyWeight(x) + Weight(s)
  {
    assert ([x] + s)[1..] == s;
  }

  /** Collecting keys into a set adds no weight. */
  lemma {:induction false} CollectWeight(keys: seq<Key>)
    ensures Weight(Collect(keys, KeyLess)) <= Weight(keys)
  {
    hide KeyWeight, KeyLess, InsertUnique;
    if keys != [] {
      var init, last := keys[..|keys| - 1], keys[|keys| - 1];
      CollectWeight(init);
      InsertWeight(last, Collect(init, KeyLess));
      assert keys == init + [last];
      WeightAppend(init, [last]);
      FirstWeight(last, []);
      assert [last] + [] == [last];
    }
  }

  // ---- the bytes of a column ----------------------------------------------------------------------------

  /** The plain size of a column is the size of its payload. */
  lemma PlainIsPayload(c: Column)
    requires c.values.VarBytes? && Paging.EncodeRows(c.values, 0, |c.values.blobs|).Ok?
    ensures |Paging.EncodeRows(c.values, 0, |c.values.blobs|).value| == PlainSize(c.values.blobs)
  {
    var rows := Paging.SlotsOf(c.values, 0, |c.values.blobs|);
    assert rows == c.values.blobs;
    PageSize(rows);
  }

  lemma {:induction false} PageSize(rows: seq<seq<byte>>)
    requires VarBytes.PrefixesFit(rows)
    ensures |VarBytes.U32Page(rows)| == PlainSize(rows)
  {
    if rows != [] {
      PageSize(rows[..|rows| - 1]);
    }
  }

  /** The payload of a FileCode column: four bytes a row. */
  lemma CodesArePayload(c: Column)
    requires c.values.FileCodes?
    ensures var payload := Paging.EncodeRows(c.values, 0, |c.values.codes|);
      payload.Ok? && |payload.value| == 4 * |c.values.codes|
  {
    CodeSlots(c.values, |c.values.codes|);
  }

  lemma {:induction false} CodeSlots(values: Values, n: nat)
    requires values.FileCodes? && n <= |values.codes|
    ensures |Paging.Slots(Paging.SlotsOf(values, 0, n))| == 4 * n
  {
    if n > 0 {
      CodeSlots(values, n - 1);
      Paging.SlotsSnoc(values, 0, n - 1);
    }
  }

  // ---- the taken columns --------------------------------------------------------------------------------

  /** The keys of the taken columns among the first `n`, each column's set behind the other. */
  function TakenKeys(columns: seq<Column>, policy: DictionaryPolicy, n: nat): seq<Key>
    requires n <= |columns|
  {
    if n == 0 then []
    else
      var c := columns[n - 1];
      TakenKeys(columns, policy, n - 1) +
        (if Taken(c, policy) then TakenColumn(c, policy); Collect(ColumnKeys(c).value, KeyLess) else [])
  }

  /** The bytes of their payloads before, and of their codes after. */
  function PlainBytes(columns: seq<Column>, policy: DictionaryPolicy, n: nat): nat
    requires n <= |columns|
  {
    if n == 0 then 0
    else
      var c := columns[n - 1];
      PlainBytes(columns, policy, n - 1) +
        (if Taken(c, policy) then TakenColumn(c, policy); PlainSize(c.values.blobs) else 0)
  }

  function CodeBytes(columns: seq<Column>, policy: DictionaryPolicy, n: nat): nat
    requires n <= |columns|
  {
    if n == 0 then 0
    else
      var c := columns[n - 1];
      CodeBytes(columns, policy, n - 1) + (if Taken(c, policy) then 4 * RowCount(c.values) else 0)
  }

  predicate NoneTaken(columns: seq<Column>, policy: DictionaryPolicy, n: nat)
    requires n <= |columns|
  {
    forall i :: 0 <= i < n ==> !Taken(columns[i], policy)
  }

  /** A column taken by size is smaller with a dictionary of its own. */
  lemma TakenIsSmaller(c: Column)
    requires Taken(c, WhenSmaller)
    ensures c.values.VarBytes? && ColumnKeys(c).Ok?
    ensures DICT_HEADER_SIZE + Weight(Collect(ColumnKeys(c).value, KeyLess)) + 4 * RowCount(c.values)
            < PlainSize(c.values.blobs)
  {
    var keys := Collect(ColumnKeys(c).value, KeyLess);
    hide ColumnKeys, Collect, PlainSize;
    WeightOfPrefix(keys, |keys|);
    assert keys[..|keys|] == keys;
  }

  /** A column whose rows all have keys and whose sizes fit 64 bits is taken by size exactly when a dictionary of its
      own, its sections and codes written out, is smaller than its plain form; under `Always` it always is. */
  lemma TakenExactly(c: Column)
    requires Eligible(c) && ColumnKeys(c).Ok? && KeysFit(Collect(ColumnKeys(c).value, KeyLess))
    requires StoredSize(Collect(ColumnKeys(c).value, KeyLess), RowCount(c.values)) < TWO_64
    requires PlainSize(c.values.blobs) < TWO_64
    ensures Taken(c, WhenSmaller) <==>
      StoredSize(Collect(ColumnKeys(c).value, KeyLess), RowCount(c.values)) < PlainSize(c.values.blobs)
    ensures Taken(c, Always)
  {
    var keys := Collect(ColumnKeys(c).value, KeyLess);
    EstimateIsExact(keys, RowCount(c.values));
    hide StoredSize, ColumnKeys, Collect, PlainSize, PayloadUpTo, KeysFit;
  }

  lemma {:induction false} TakenAreSmaller(columns: seq<Column>, n: nat)
    requires n <= |columns|
    ensures !NoneTaken(columns, WhenSmaller, n) ==>
      DICT_HEADER_SIZE + Weight(TakenKeys(columns, WhenSmaller, n)) + CodeBytes(columns, WhenSmaller, n)
      < PlainBytes(columns, WhenSmaller, n)
    ensures NoneTaken(columns, WhenSmaller, n) ==>
      TakenKeys(columns, WhenSmaller, n) == [] && CodeBytes(columns, WhenSmaller, n) == 0
  {
    hide Takes, ColumnKeys, Collect, PlainSize, Weight, Taken;
    if n > 0 {
      TakenAreSmaller(columns, n - 1);
      var c, before := columns[n - 1], TakenKeys(columns, WhenSmaller, n - 1);
      if Taken(c, WhenSmaller) {
        TakenIsSmaller(c);
        var own := Collect(ColumnKeys(c).value, KeyLess);
        WeightAppend(before, own);
        NoWeight();
      } else {
        assert before + [] == before;
      }
    }
  }

  lemma NoWeight()
    ensures Weight([]) == 0
  {
  }

  lemma {:induction false} TakenKeysListed(columns: seq<Column>, policy: DictionaryPolicy, n: nat, key: Key)
    requires n <= |columns|
    ensures key in TakenKeys(columns, policy, n) <==>
      exists i :: 0 <= i < n && Taken(columns[i], policy) && HasKey(columns[i], key)
  {
    hide Takes, ColumnKeys, Collect, Taken;
    if n > 0 {
      TakenKeysListed(columns, policy, n - 1, key);
      var c := columns[n - 1];
      if Taken(c, policy) {
        TakenColumn(c, policy);
        CollectMembers(ColumnKeys(c).value, KeyLess, key);
        assert HasKey(c, key) <==> key in Collect(ColumnKeys(c).value, KeyLess);
      }
    }
  }

  /** The dictionary of the table weighs no more than those its taken columns would have on their own. */
  lemma DictionaryWeight(json: JsonCheck, columns: seq<Column>, policy: DictionaryPolicy, d: FileDictionary)
    requires FromTaken(json, columns, policy, d)
    ensures |IndexBytes(d)| + |d.payload| <= DICT_HEADER_SIZE + Weight(TakenKeys(columns, policy, |columns|))
  {
    hide Taken, HasKey, KeyAccepted, TakenKeys, Collect, DictionaryOf, IndexBytes;
    var all: seq<Key> :|
      KeysOfTaken(columns, policy, all) && FromKeys(json, all).Ok? && FromKeys(json, all).value.dictionary == d;
    var listed := TakenKeys(columns, policy, |columns|);
    forall key ensures key in all <==> key in listed {
      TakenKeysListed(columns, policy, |columns|, key);
      assert key in all <==> TakenKey(columns, policy, key);
    }
    EncodingIgnoresOrder(json, all, listed);
    var unique := Collect(listed, KeyLess);
    CollectWeight(listed);
    EstimateIsExact(unique, 0);
    WeightOfPrefix(unique, |unique|);
    assert unique[..|unique|] == unique;
  }

  /** Synthesis by size makes a table smaller: the dictionary and the codes of the taken columns take fewer bytes than
      the payloads of those columns took before. */
  lemma SynthesisShrinks(json: JsonCheck, before: seq<Column>, after: seq<Column>, d: FileDictionary)
    requires Synthesized(before, after, WhenSmaller, d) && FromTaken(json, before, WhenSmaller, d)
    requires !NoneTaken(before, WhenSmaller, |before|)
    ensures |IndexBytes(d)| + |d.payload| + CodeBytes(before, WhenSmaller, |before|)
            < PlainBytes(before, WhenSmaller, |before|)
  {
    hide Synthesized, FromTaken, NoneTaken, IndexBytes, TakenKeys, CodeBytes, PlainBytes;
    DictionaryWeight(json, before, WhenSmaller, d);
    TakenAreSmaller(before, |before|);
  }

  /** The sizes are those of the columns' payloads. */
  lemma SizesAreBytes(before: Column, after: Column, d: FileDictionary)
    requires before.values.VarBytes? && SameMeaning(before, after, d)
    ensures |Paging.EncodeRows(after.values, 0, RowCount(after.values)).value| == 4 * RowCount(before.values)
    ensures var plain := Paging.EncodeRows(before.values, 0, RowCount(before.values));
      plain.Ok? ==> |plain.value| == PlainSize(before.values.blobs)
  {
    hide Paging.EncodeRows, PlainSize, RowMeans;
    CodesArePayload(after);
    if Paging.EncodeRows(before.values, 0, RowCount(before.values)).Ok? {
      PlainIsPayload(before);
    }
  }
}
