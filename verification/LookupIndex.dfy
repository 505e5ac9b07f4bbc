/** The lookup index of a converted column (`build_lookup_index`): key to the addresses of its rows. */
module LookupIndex {
  import opened Wrappers
  import opened Sequences
  import opened ConvertedColumns
  import opened RowLayout

  datatype LookupEntry = LookupEntry(key: u64, rows: seq<RowRef>)
  datatype Index = Index(entries: seq<LookupEntry>, unique: bool)

  /** `key_u64`: boolean bytes as 0 and 1, FileCodes and NumCodes as they are, nothing for nulls and bytes. */
  function KeyOf(c: Column, row: nat): Option<u64> {
    if IsNull(c, row) || row >= RowCount(c.values) then None
    else match c.values
      case Booleans(v) => Some(if v[row] != 0 then 1 else 0)
      case FileCodes(v) => Some(v[row])
      case NumCodes(v) => Some(v[row])
      case _ => None
  }

  // ---- the scan --------------------------------------------------------------------------------

  /** The rows below `n` that hold `key`, in row order. */
  function RowsWithKey(c: Column, key: u64, n: nat): seq<nat> {
    if n == 0 then []
    else RowsWithKey(c, key, n - 1) + (if KeyOf(c, n - 1) == Some(key) then [n - 1] else [])
  }

  lemma {:induction false} RowsWithKeyExact(c: Column, key: u64, n: nat)
    ensures StrictlyAscending(RowsWithKey(c, key, n))
    ensures forall row: nat :: row in RowsWithKey(c, key, n) <==> row < n && KeyOf(c, row) == Some(key)
  {
    hide KeyOf;
    if n > 0 {
      RowsWithKeyExact(c, key, n - 1);
      var before := RowsWithKey(c, key, n - 1);
      forall i | 0 <= i < |before| ensures before[i] < n - 1 {
        assert before[i] in before;
      }
    }
  }

  /** Whether every row that is not null has a key and an address. */
  predicate Indexable(c: Column, segments: seq<Segment>, morsel: nat, n: nat)
    requires morsel > 0
  {
    forall row :: 0 <= row < n && !IsNull(c, row) ==> KeyOf(c, row).Some? && AddressOf(segments, morsel, row).Ok?
  }

  predicate Addressed(segments: seq<Segment>, morsel: nat, rows: seq<nat>)
    requires morsel > 0
  {
    forall i :: 0 <= i < |rows| ==> AddressOf(segments, morsel, rows[i]).Ok?
  }

  function Addresses(segments: seq<Segment>, morsel: nat, rows: seq<nat>): (refs: seq<RowRef>)
    requires morsel > 0 && Addressed(segments, morsel, rows)
    ensures |refs| == |rows| && forall i :: 0 <= i < |rows| ==> AddressOf(segments, morsel, rows[i]) == Ok(refs[i])
  {
    seq(|rows|, i requires 0 <= i < |rows| => AddressOf(segments, morsel, rows[i]).value)
  }

  lemma KeyRowsAddressed(c: Column, segments: seq<Segment>, morsel: nat, n: nat, key: u64)
    requires morsel > 0 && Indexable(c, segments, morsel, n)
    ensures Addressed(segments, morsel, RowsWithKey(c, key, n))
  {
    hide KeyOf, AddressOf;
    RowsWithKeyExact(c, key, n);
    var rows := RowsWithKey(c, key, n);
    forall i | 0 <= i < |rows| ensures AddressOf(segments, morsel, rows[i]).Ok? {
      assert rows[i] in rows;
      KeyedNotNull(c, rows[i]);
    }
  }

  lemma KeyedNotNull(c: Column, row: nat)
    requires KeyOf(c, row).Some?
    ensures !IsNull(c, row)
  {
  }

  // ---- the ordered map of keys to rows ------------------------------------------------------------

  predicate KeysAscend(entries: seq<LookupEntry>) {
    forall i, j :: 0 <= i < j < |entries| ==> entries[i].key < entries[j].key
  }

  /** The rows stored under a key. */
  function RowsFor(entries: seq<LookupEntry>, key: u64): seq<RowRef> {
    if entries == [] then [] else if entries[0].key == key then entries[0].rows else RowsFor(entries[1..], key)
  }

  /** `rows_by_key.entry(key).or_default().push(row)`. */
  function Push(entries: seq<LookupEntry>, key: u64, ref: RowRef): seq<LookupEntry> {
    if entries == [] then [LookupEntry(key, [ref])]
    else if key == entries[0].key then [LookupEntry(key, entries[0].rows + [ref])] + entries[1..]
    else if key < entries[0].key then [LookupEntry(key, [ref])] + entries
    else [entries[0]] + Push(entries[1..], key, ref)
  }

  predicate NoEmptyEntry(entries: seq<LookupEntry>) {
    forall i :: 0 <= i < |entries| ==> entries[i].rows != []
  }

  lemma {:induction false} AbsentBelow(entries: seq<LookupEntry>, key: u64)
    requires forall i :: 0 <= i < |entries| ==> key < entries[i].key
    ensures RowsFor(entries, key) == []
  {
    if entries != [] {
      AbsentBelow(entries[1..], key);
    }
  }

  lemma {:induction false} PushKeys(entries: seq<LookupEntry>, key: u64, ref: RowRef, i: nat)
    requires i < |Push(entries, key, ref)|
    ensures Push(entries, key, ref)[i].key == key ||
      exists j :: 0 <= j < |entries| && entries[j].key == Push(entries, key, ref)[i].key
  {
    if entries != [] && key > entries[0].key && i > 0 {
      PushKeys(entries[1..], key, ref, i - 1);
    }
  }

  /** Pushing appends one row under its key and leaves every other key as it was. */
  lemma {:induction false} PushRows(entries: seq<LookupEntry>, key: u64, ref: RowRef)
    requires KeysAscend(entries) && NoEmptyEntry(entries)
    ensures KeysAscend(Push(entries, key, ref)) && NoEmptyEntry(Push(entries, key, ref))
    ensures RowsFor(Push(entries, key, ref), key) == RowsFor(entries, key) + [ref]
  {
    if entries != [] && key > entries[0].key {
      PushRows(entries[1..], key, ref);
      var rest := Push(entries[1..], key, ref);
      forall i | 0 <= i < |rest| ensures entries[0].key < rest[i].key {
        PushKeys(entries[1..], key, ref, i);
      }
    } else if entries != [] && key < entries[0].key {
      AbsentBelow(entries, key);
    }
  }

  lemma {:induction false} PushOthers(entries: seq<LookupEntry>, key: u64, ref: RowRef, other: u64)
    requires other != key
    ensures RowsFor(Push(entries, key, ref), other) == RowsFor(entries, other)
  {
    if entries != [] && key > entries[0].key {
      PushOthers(entries[1..], key, ref, other);
    } else if entries != [] && key == entries[0].key {
      assert Push(entries, key, ref)[1..] == entries[1..];
    }
  }

  lemma {:induction false} EntryRows(entries: seq<LookupEntry>, i: nat)
    requires KeysAscend(entries) && i < |entries|
    ensures RowsFor(entries, entries[i].key) == entries[i].rows
  {
    if i > 0 {
      EntryRows(entries[1..], i - 1);
    }
  }

  lemma {:induction false} SomeEntry(entries: seq<LookupEntry>, key: u64) returns (i: nat)
    requires RowsFor(entries, key) != []
    ensures i < |entries| && entries[i].key == key && entries[i].rows == RowsFor(entries, key)
  {
    if entries[0].key == key {
      i := 0;
    } else {
      i := SomeEntry(entries[1..], key);
      i := i + 1;
    }
  }

  // ---- the build --------------------------------------------------------------------------------

  /** The entries list, for every key, the addresses of exactly the first `n` rows holding it, in order. */
  ghost predicate Lists(entries: seq<LookupEntry>, c: Column, segments: seq<Segment>, morsel: nat, n: nat)
    requires morsel > 0 && Indexable(c, segments, morsel, n)
  {
    KeysAscend(entries) && NoEmptyEntry(entries) && forall key: u64 :: ListsKey(entries, c, segments, morsel, n, key)
  }

  predicate ListsKey(entries: seq<LookupEntry>, c: Column, segments: seq<Segment>, morsel: nat, n: nat, key: u64)
    requires morsel > 0
  {
    && Addressed(segments, morsel, RowsWithKey(c, key, n))
    && RowsFor(entries, key) == Addresses(segments, morsel, RowsWithKey(c, key, n))
  }

  lemma NothingListed(c: Column, segments: seq<Segment>, morsel: nat)
    requires morsel > 0
    ensures Indexable(c, segments, morsel, 0) && Lists([], c, segments, morsel, 0)
  {
  }

  lemma SkipNull(entries: seq<LookupEntry>, c: Column, segments: seq<Segment>, morsel: nat, n: nat)
    requires morsel > 0 && Indexable(c, segments, morsel, n) && Lists(entries, c, segments, morsel, n) && IsNull(c, n)
    ensures Indexable(c, segments, morsel, n + 1) && Lists(entries, c, segments, morsel, n + 1)
  {
    hide AddressOf, RowsFor;
    var next := n + 1;
    forall key: u64 ensures ListsKey(entries, c, segments, morsel, next, key) {
      assert ListsKey(entries, c, segments, morsel, n, key);
      assert RowsWithKey(c, key, n + 1) == RowsWithKey(c, key, n);
    }
  }

  lemma ListOneMore(entries: seq<LookupEntry>, c: Column, segments: seq<Segment>, morsel: nat, n: nat, key: u64,
      ref: RowRef)
    requires morsel > 0 && Indexable(c, segments, morsel, n) && Lists(entries, c, segments, morsel, n)
    requires KeyOf(c, n) == Some(key) && AddressOf(segments, morsel, n) == Ok(ref)
    ensures Indexable(c, segments, morsel, n + 1) && Lists(Push(entries, key, ref), c, segments, morsel, n + 1)
  {
    hide AddressOf, RowsFor, Push, KeyOf;
    PushRows(entries, key, ref);
    var next := n + 1;
    forall other: u64 ensures ListsKey(Push(entries, key, ref), c, segments, morsel, next, other) {
      assert ListsKey(entries, c, segments, morsel, n, other);
      KeyRowsAddressed(c, segments, morsel, n + 1, other);
      if other == key {
        AddressesSnoc(segments, morsel, RowsWithKey(c, other, n), n);
      } else {
        PushOthers(entries, key, ref, other);
        assert RowsWithKey(c, other, n + 1) == RowsWithKey(c, other, n);
      }
    }
  }

  lemma AddressesSnoc(segments: seq<Segment>, morsel: nat, rows: seq<nat>, row: nat)
    requires morsel > 0 && Addressed(segments, morsel, rows) && AddressOf(segments, morsel, row).Ok?
    ensures Addressed(segments, morsel, rows + [row])
    ensures Addresses(segments, morsel, rows + [row]) ==
      Addresses(segments, morsel, rows) + [AddressOf(segments, morsel, row).value]
  {
  }

  /** `build_lookup_index`: it fails exactly when some row that is not null has no key or no address. */
  method BuildLookupIndex(c: Column, segments: seq<Segment>, morsel: u32) returns (r: Result<Index>)
    requires morsel > 0
    ensures r.Ok? <==> Indexable(c, segments, morsel, RowCount(c.values))
    ensures r.Ok? ==> Lists(r.value.entries, c, segments, morsel, RowCount(c.values))
    ensures r.Ok? ==> (r.value.unique <==> forall i :: 0 <= i < |r.value.entries| ==> |r.value.entries[i].rows| == 1)
  {
    hide AddressOf, Push, KeyOf, Lists;
    var entries: seq<LookupEntry> := [];
    NothingListed(c, segments, morsel);
    for row := 0 to RowCount(c.values)
      invariant Indexable(c, segments, morsel, row) && Lists(entries, c, segments, morsel, row)
    {
      if IsNull(c, row) {
        SkipNull(entries, c, segments, morsel, row);
      } else {
        var key := KeyOf(c, row);
        if key.None? {
          return Err(BadSchema);
        }
        var address := AddressOf(segments, morsel, row);
        if address.Err? {
          return Err(address.error);
        }
        ListOneMore(entries, c, segments, morsel, row, key.value, address.value);
        entries := Push(entries, key.value, address.value);
      }
    }
    var unique := true;
    for i := 0 to |entries|
      invariant unique <==> forall k :: 0 <= k < i ==> |entries[k].rows| == 1
    {
      unique := unique && |entries[i].rows| == 1;
    }
    return Ok(Index(entries, unique));
  }

  // ---- the index against a scan -------------------------------------------------------------------

  /** An entry holds, in row order, the addresses of exactly the rows a scan finds for its key, and every
      key a scan finds has an entry. */
  lemma IndexAgreesWithScan(entries: seq<LookupEntry>, c: Column, segments: seq<Segment>, morsel: nat, n: nat, key: u64)
    requires morsel > 0 && Indexable(c, segments, morsel, n) && Lists(entries, c, segments, morsel, n)
    ensures Addressed(segments, morsel, RowsWithKey(c, key, n))
    ensures KeysAscend(entries)
    ensures forall i :: 0 <= i < |entries| && entries[i].key == key ==>
      entries[i].rows == Addresses(segments, morsel, RowsWithKey(c, key, n)) && RowsWithKey(c, key, n) != []
    ensures RowsWithKey(c, key, n) != [] ==> exists i :: 0 <= i < |entries| && entries[i].key == key
  {
    hide AddressOf, RowsFor, KeyOf, RowsWithKey;
    assert ListsKey(entries, c, segments, morsel, n, key);
    forall i | 0 <= i < |entries| && entries[i].key == key
      ensures entries[i].rows == Addresses(segments, morsel, RowsWithKey(c, key, n)) && RowsWithKey(c, key, n) != []
    {
      EntryRows(entries, i);
    }
    if RowsWithKey(c, key, n) != [] {
      assert Addresses(segments, morsel, RowsWithKey(c, key, n)) != [];
      var i := SomeEntry(entries, key);
    }
  }

  /** No two rows that are not null share a key. */
  predicate KeysDistinct(c: Column, n: nat) {
    forall a, b :: 0 <= a < b < n && KeyOf(c, a).Some? ==> KeyOf(c, a) != KeyOf(c, b)
  }

  lemma SharedKeyListed(c: Column, n: nat, a: nat, b: nat)
    requires a < b < n && KeyOf(c, a).Some?
    ensures KeyOf(c, a) == KeyOf(c, b) ==> |RowsWithKey(c, KeyOf(c, a).value, n)| >= 2
  {
    hide KeyOf;
    var rows := RowsWithKey(c, KeyOf(c, a).value, n);
    RowsWithKeyExact(c, KeyOf(c, a).value, n);
    assert KeyOf(c, a) == KeyOf(c, b) ==> a in rows && b in rows;
  }

  lemma ListedTwiceShares(c: Column, n: nat, key: u64)
    ensures |RowsWithKey(c, key, n)| >= 2 ==> !KeysDistinct(c, n)
  {
    hide KeyOf;
    var rows := RowsWithKey(c, key, n);
    RowsWithKeyExact(c, key, n);
    if |rows| >= 2 {
      assert rows[0] in rows && rows[1] in rows;
      assert KeyOf(c, rows[0]) == KeyOf(c, rows[1]);
    }
  }

  /** The index is marked unique exactly when no two rows that are not null share a key. */
  lemma UniqueExactly(entries: seq<LookupEntry>, c: Column, segments: seq<Segment>, morsel: nat, n: nat)
    requires morsel > 0 && Indexable(c, segments, morsel, n) && Lists(entries, c, segments, morsel, n)
    ensures (forall i :: 0 <= i < |entries| ==> |entries[i].rows| == 1) <==> KeysDistinct(c, n)
  {
    hide AddressOf, RowsFor, KeyOf, RowsWithKey, Lists;
    if forall i :: 0 <= i < |entries| ==> |entries[i].rows| == 1 {
      forall a, b | 0 <= a < b < n && KeyOf(c, a).Some? ensures KeyOf(c, a) != KeyOf(c, b) {
        IndexAgreesWithScan(entries, c, segments, morsel, n, KeyOf(c, a).value);
        SharedKeyListed(c, n, a, b);
      }
    }
    if KeysDistinct(c, n) {
      forall i | 0 <= i < |entries| ensures |entries[i].rows| == 1 {
        IndexAgreesWithScan(entries, c, segments, morsel, n, entries[i].key);
        ListedTwiceShares(c, n, entries[i].key);
      }
    }
  }
}
