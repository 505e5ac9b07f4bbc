/** Building a file dictionary from canonical keys (`dictionary.rs`): FileCodes are ranks of the sorted keys. */
module Dictionary {
  import opened Wrappers
  import opened Sequences
  import opened Ordered
  import opened Utf8
  import Canonical
  import CanonicalAcceptance
  import CanonicalIdentity
  import opened ColumnTypes
  import opened DictionaryFormat

  type JsonCheck = Canonical.JsonCheck

  datatype Key = Key(tag: u16, canonical: seq<byte>)

  /** The derived order of `FileDictionaryKey`. */
  predicate KeyLess(a: Key, b: Key) {
    a.tag < b.tag || (a.tag == b.tag && LexLt(a.canonical, b.canonical))
  }

  lemma KeyLessIsStrict()
    ensures StrictOrder(KeyLess)
  {
    forall x: Key ensures !KeyLess(x, x) {
      LexIrreflexive(x.canonical);
    }
    forall x: Key, y: Key ensures x == y || KeyLess(x, y) || KeyLess(y, x) {
      LexConnected(x.canonical, y.canonical);
    }
    forall x: Key, y: Key, z: Key | KeyLess(x, y) && KeyLess(y, z) ensures KeyLess(x, z) {
      if x.tag == y.tag == z.tag {
        LexTransitive(x.canonical, y.canonical, z.canonical);
      }
    }
  }

  /** `FileDictionaryKey::from_logical_bytes`. */
  function KeyFromLogicalBytes(logical: LogicalType, value: Canonical.Blob): Result<Key> {
    match logical
    case Utf8 =>
      if !Utf8Valid(value) then Err(BadSection)
      else
        var v := Canonical.Text(value);
        var payload :- Canonical.Encode(v);
        Ok(Key(Canonical.TagOf(v), payload))
    case Binary =>
      var v := Canonical.Binary(value);
      var payload :- Canonical.Encode(v);
      Ok(Key(Canonical.TagOf(v), payload))
    case _ => Err(BadSchema)
  }

  /** Keys tell values of one logical type apart. */
  lemma KeysIdentifyValues(logical: LogicalType, a: Canonical.Blob, b: Canonical.Blob)
    requires KeyFromLogicalBytes(logical, a).Ok? && KeyFromLogicalBytes(logical, b).Ok?
    ensures KeyFromLogicalBytes(logical, a) == KeyFromLogicalBytes(logical, b) ==> a == b
  {
    if KeyFromLogicalBytes(logical, a) == KeyFromLogicalBytes(logical, b) {
      CanonicalIdentity.LengthPrefixedInjective(a, b);
    }
  }

  // ---- index and payload --------------------------------------------------------------------------

  predicate IsLong(key: Key) {
    |key.canonical| > 16
  }

  /** The payload holding the long keys among the first `n`. */
  function PayloadUpTo(keys: seq<Key>, n: nat): seq<byte>
    requires n <= |keys|
  {
    if n == 0 then []
    else PayloadUpTo(keys, n - 1) + (if IsLong(keys[n - 1]) then keys[n - 1].canonical else [])
  }

  predicate KeysFit(keys: seq<Key>) {
    |keys| < TWO_32 && forall i :: 0 <= i < |keys| ==> |keys[i].canonical| < TWO_32
  }

  lemma {:induction false} PayloadBound(keys: seq<Key>, n: nat)
    requires n <= |keys| && KeysFit(keys)
    ensures |PayloadUpTo(keys, n)| <= n * (TWO_32 - 1) && |PayloadUpTo(keys, n)| < TWO_64
  {
    if n > 0 {
      PayloadBound(keys, n - 1);
    }
  }

  /** The index entry of key `i`: up to sixteen bytes inline, longer ones in the payload. */
  function EntryOf(keys: seq<Key>, i: nat): IndexEntry
    requires KeysFit(keys) && i < |keys|
  {
    var key := keys[i];
    PayloadBound(keys, i);
    if IsLong(key) then
      IndexEntry(key.tag, PAYLOAD, 0, 0, Zeros(3), Zeros(16), |PayloadUpTo(keys, i)|, |key.canonical|, 0, 0)
    else
      IndexEntry(key.tag, INLINE, 0, |key.canonical|, Zeros(3), key.canonical + Zeros(16 - |key.canonical|), 0, 0, 0, 0)
  }

  function EntriesOf(keys: seq<Key>): (entries: seq<IndexEntry>)
    requires KeysFit(keys)
    ensures |entries| == |keys| && forall i :: 0 <= i < |keys| ==> entries[i] == EntryOf(keys, i)
  {
    seq(|keys|, i requires 0 <= i < |keys| => EntryOf(keys, i))
  }

  /** The dictionary of sorted distinct keys. */
  function DictionaryOf(keys: seq<Key>): FileDictionary
    requires KeysFit(keys)
  {
    PayloadBound(keys, |keys|);
    FileDictionary(
      DictHeader(|keys|, 0, DICT_INDEX_ENTRY_SIZE, 0, |PayloadUpTo(keys, |keys|)|, Zeros(24)),
      EntriesOf(keys), PayloadUpTo(keys, |keys|))
  }

  /** A long key lies where its entry says. */
  lemma {:induction false} PayloadSlice(keys: seq<Key>, i: nat, n: nat)
    requires i < n <= |keys| && IsLong(keys[i])
    ensures var at := |PayloadUpTo(keys, i)|; var end := at + |keys[i].canonical|;
      end <= |PayloadUpTo(keys, n)| && PayloadUpTo(keys, n)[at..end] == keys[i].canonical
  {
    if i < n - 1 {
      PayloadSlice(keys, i, n - 1);
    }
  }

  lemma {:induction false} TilesDisjoint(keys: seq<Key>, i: nat, j: nat)
    requires i < j <= |keys| && IsLong(keys[i])
    ensures |PayloadUpTo(keys, i)| + |keys[i].canonical| <= |PayloadUpTo(keys, j)|
    decreases j - i
  {
    if i + 1 < j {
      TilesDisjoint(keys, i, j - 1);
    }
  }

  /** Byte `p` of the payload is one of key `i`'s. */
  predicate InTile(keys: seq<Key>, i: nat, p: nat) {
    i < |keys| && IsLong(keys[i]) && |PayloadUpTo(keys, i)| <= p < |PayloadUpTo(keys, i)| + |keys[i].canonical|
  }

  /** Long keys tile the payload: each of its bytes belongs to exactly one of them. */
  lemma {:induction false} PayloadTile(keys: seq<Key>, n: nat, p: nat) returns (i: nat)
    requires n <= |keys| && p < |PayloadUpTo(keys, n)|
    ensures i < n && InTile(keys, i, p)
    ensures forall j: nat :: InTile(keys, j, p) ==> j == i
  {
    if p < |PayloadUpTo(keys, n - 1)| {
      i := PayloadTile(keys, n - 1, p);
    } else {
      i := n - 1;
      forall j: nat | InTile(keys, j, p) ensures j == i {
        if j < i {
          TilesDisjoint(keys, j, i);
        } else if i < j {
          TilesDisjoint(keys, i, j);
        }
      }
    }
  }

  /** A FileCode decodes to the canonical bytes of its key. */
  lemma CodeDecodesToKey(keys: seq<Key>, code: nat)
    requires KeysFit(keys) && code < |keys|
    ensures DecodeValue(DictionaryOf(keys), code) == Ok(RawBytes(keys[code].canonical))
    ensures DictionaryOf(keys).entries[code].valueTag == keys[code].tag
  {
    PayloadBound(keys, |keys|);
    if IsLong(keys[code]) {
      PayloadSlice(keys, code, |keys|);
    } else {
      assert EntryOf(keys, code).inlineData[..|keys[code].canonical|] == keys[code].canonical;
    }
  }

  // ---- when building succeeds -----------------------------------------------------------------------

  /** The canonical validator accepts the key under its tag. */
  predicate KeyAccepted(json: JsonCheck, key: Key) {
    key.tag <= 18 && Canonical.ValidateCanonicalPayload(json, key.tag, key.canonical).Ok?
  }

  predicate KeysAccepted(json: JsonCheck, keys: seq<Key>) {
    forall i :: 0 <= i < |keys| ==> KeyAccepted(json, keys[i])
  }

  lemma EntryAcceptedExactly(json: JsonCheck, keys: seq<Key>, i: nat)
    requires KeysFit(keys) && i < |keys|
    ensures var d := DictionaryOf(keys); var e := d.entries[i];
      CheckEntry(e).Ok? && ValidateEntry(json, e, d.payload, |d.payload|).Ok? <==> KeyAccepted(json, keys[i])
  {
    hide Canonical.ValidateCanonicalPayload;
    PayloadBound(keys, |keys|);
    if IsLong(keys[i]) {
      PayloadSlice(keys, i, |keys|);
    } else {
      assert EntryOf(keys, i).inlineData[..|keys[i].canonical|] == keys[i].canonical;
    }
  }

  /** Keys made from column values are always accepted. */
  lemma LogicalKeysAccepted(json: JsonCheck, logical: LogicalType, value: Canonical.Blob)
    requires KeyFromLogicalBytes(logical, value).Ok? && |Canonical.LengthPrefixed(value)| < TWO_64
    ensures KeyAccepted(json, KeyFromLogicalBytes(logical, value).value)
  {
    var key := KeyFromLogicalBytes(logical, value).value;
    var v := if logical == Utf8 then Canonical.Text(value) else Canonical.Binary(value);
    hide Canonical.ValidatePayload, Canonical.LengthPrefixed;
    CanonicalAcceptance.PayloadAccepted(json, v, []);
    assert key.canonical + [] == key.canonical;
  }

  /** The loop of `build_file_dictionary`. */
  method BuildSections(keys: seq<Key>) returns (r: Result<FileDictionary>)
    requires |keys| < TWO_32
    ensures r == if KeysFit(keys) then Ok(DictionaryOf(keys)) else Err(ArithOverflow)
  {
    var entries: seq<IndexEntry>, payload: seq<byte> := [], [];
    for code := 0 to |keys|
      invariant forall i :: 0 <= i < code ==> |keys[i].canonical| < TWO_32
      invariant payload == PayloadUpTo(keys, code) && |payload| <= code * (TWO_32 - 1)
      invariant |entries| == code
      invariant KeysFit(keys) ==> forall i :: 0 <= i < code ==> entries[i] == EntryOf(keys, i)
    {
      var key := keys[code];
      if |key.canonical| <= 16 {
        var inlineData := key.canonical + Zeros(16 - |key.canonical|);
        entries := entries + [IndexEntry(key.tag, INLINE, 0, |key.canonical|, Zeros(3), inlineData, 0, 0, 0, 0)];
      } else {
        if |key.canonical| >= TWO_32 {
          return Err(ArithOverflow);
        }
        entries := entries +
          [IndexEntry(key.tag, PAYLOAD, 0, 0, Zeros(3), Zeros(16), |payload|, |key.canonical|, 0, 0)];
        payload := payload + key.canonical;
      }
    }
    PayloadBound(keys, |keys|);
    assert entries == EntriesOf(keys);
    return Ok(FileDictionary(DictHeader(|keys|, 0, DICT_INDEX_ENTRY_SIZE, 0, |payload|, Zeros(24)), entries, payload));
  }

  /** The dictionary and the FileCode of each key: its place among the sorted keys. */
  datatype DictionaryEncoding = DictionaryEncoding(dictionary: FileDictionary, assignments: seq<Key>)

  /** `from_keys`: succeeds exactly when the distinct keys fit and each is accepted under its tag. */
  function FromKeys(json: JsonCheck, keys: seq<Key>): Result<DictionaryEncoding> {
    var unique := Collect(keys, KeyLess);
    if |unique| >= TWO_32 then Err(BadSchema)
    else if !KeysFit(unique) then Err(ArithOverflow)
    else if !KeysAccepted(json, unique) then Err(BadSection)
    else Ok(DictionaryEncoding(DictionaryOf(unique), unique))
  }

  method BuildFromKeys(json: JsonCheck, keys: seq<Key>) returns (r: Result<DictionaryEncoding>)
    ensures r.Ok? <==> FromKeys(json, keys).Ok?
    ensures r.Ok? ==> r == FromKeys(json, keys)
  {
    hide KeyAccepted, DictionaryOf, Collect;
    var unique: seq<Key> := CollectKeys(keys);
    if |unique| >= TWO_32 {
      return Err(BadSchema);
    }
    var built := BuildSections(unique);
    if built.Err? {
      return Err(built.error);
    }
    Written(unique);
    var parsed := ReparseWritten(json, built.value);
    AcceptableExactly(json, unique);
    if parsed.Err? {
      return Err(parsed.error);
    }
    return Ok(DictionaryEncoding(built.value, unique));
  }

  /** The keys inserted into an ordered set one by one. */
  method CollectKeys(keys: seq<Key>) returns (unique: seq<Key>)
    ensures unique == Collect(keys, KeyLess)
  {
    unique := [];
    for i := 0 to |keys|
      invariant unique == Collect(keys[..i], KeyLess)
    {
      assert keys[..i + 1][..i] == keys[..i];
      unique := InsertUnique(keys[i], unique, KeyLess);
    }
    assert keys[..|keys|] == keys;
  }

  lemma Written(keys: seq<Key>)
    requires KeysFit(keys)
    ensures Consistent(DictionaryOf(keys))
  {
  }

  lemma AcceptableExactly(json: JsonCheck, keys: seq<Key>)
    requires KeysFit(keys)
    ensures Acceptable(json, DictionaryOf(keys)) <==> KeysAccepted(json, keys)
  {
    var d := DictionaryOf(keys);
    hide KeyAccepted, DictionaryOf, CheckEntry, ValidateEntry;
    assert |d.entries| == |keys| by {
      DictionarySize(keys);
    }
    forall i | 0 <= i < |keys|
      ensures CheckEntry(d.entries[i]).Ok? && ValidateEntry(json, d.entries[i], d.payload, |d.payload|).Ok? <==>
        KeyAccepted(json, keys[i])
    {
      EntryAcceptedExactly(json, keys, i);
    }
  }

  lemma DictionarySize(keys: seq<Key>)
    requires KeysFit(keys)
    ensures |DictionaryOf(keys).entries| == |keys|
  {
  }

  // ---- what the encoding guarantees -----------------------------------------------------------------

  /** `file_code_for_key`. */
  function CodeForKey(e: DictionaryEncoding, key: Key): Result<nat> {
    if key in e.assignments then Ok(Position(e.assignments, key)) else Err(BadFileCode)
  }

  /** The encoding depends on the set of keys alone. */
  lemma EncodingIgnoresOrder(json: JsonCheck, a: seq<Key>, b: seq<Key>)
    requires forall key :: key in a <==> key in b
    ensures FromKeys(json, a) == FromKeys(json, b)
  {
    KeyLessIsStrict();
    CollectDependsOnElements(a, b, KeyLess);
  }

  /** Every key given has a code, which decodes to its canonical bytes; no other key has one. */
  lemma EncodingRoundTrip(json: JsonCheck, keys: seq<Key>, key: Key)
    requires FromKeys(json, keys).Ok?
    ensures var e := FromKeys(json, keys).value;
      && (CodeForKey(e, key).Ok? <==> key in keys)
      && (key in keys ==>
           && DecodeValue(e.dictionary, CodeForKey(e, key).value) == Ok(RawBytes(key.canonical))
           && CodeForKey(e, key).value < |e.dictionary.entries|
           && e.dictionary.entries[CodeForKey(e, key).value].valueTag == key.tag)
  {
    CollectMembers(keys, KeyLess, key);
    hide Collect, DictionaryOf, KeyAccepted;
    var unique := Collect(keys, KeyLess);
    DictionarySize(unique);
    if key in unique {
      CodeDecodesToKey(unique, Position(unique, key));
    }
  }

  /** Codes are dense ranks: the numbers below the entry count, each once, ordered as the keys are. */
  lemma CodesAreRanks(json: JsonCheck, keys: seq<Key>, a: Key, b: Key, code: nat)
    requires FromKeys(json, keys).Ok? && a in keys && b in keys
    ensures var e := FromKeys(json, keys).value;
      && CodeForKey(e, a).Ok? && CodeForKey(e, b).Ok?
      && (CodeForKey(e, a).value < CodeForKey(e, b).value <==> KeyLess(a, b))
      && (code < |e.assignments| ==> e.assignments[code] in keys && CodeForKey(e, e.assignments[code]) == Ok(code))
  {
    KeyLessIsStrict();
    CollectSorts(keys, KeyLess);
    CollectMembers(keys, KeyLess, a);
    CollectMembers(keys, KeyLess, b);
    hide Collect, DictionaryOf, KeyAccepted;
    var unique := Collect(keys, KeyLess);
    RanksOrder(unique, a, b);
    if code < |unique| {
      CollectMembers(keys, KeyLess, unique[code]);
      SortedPositionUnique(unique, KeyLess, code);
    }
  }

  lemma RanksOrder(unique: seq<Key>, a: Key, b: Key)
    requires StrictOrder(KeyLess) && SortedBy(unique, KeyLess) && a in unique && b in unique
    ensures Position(unique, a) < Position(unique, b) <==> KeyLess(a, b)
  {
    var p, q := Position(unique, a), Position(unique, b);
    if p < q {
      assert KeyLess(unique[p], unique[q]);
    } else if q < p {
      assert KeyLess(unique[q], unique[p]);
    }
  }

  // ---- the size estimate ------------------------------------------------------------------------------

  /** What a FileCode column with these keys stores: index section, payload and one u32 per row. */
  function StoredSize(keys: seq<Key>, rowCount: nat): nat
    requires KeysFit(keys)
  {
    |IndexBytes(DictionaryOf(keys))| + |DictionaryOf(keys).payload| + 4 * rowCount
  }

  /** `file_dictionary_candidate_len` is exact. */
  method CandidateLen(keys: seq<Key>, rowCount: nat) returns (r: Result<nat>)
    ensures KeysFit(keys) ==>
      r == if StoredSize(keys, rowCount) < TWO_64 then Ok(StoredSize(keys, rowCount)) else Err(ArithOverflow)
    ensures r == EstimatedSize(keys, rowCount)
  {
    if KeysFit(keys) {
      EstimateIsExact(keys, rowCount);
    }
    hide StoredSize;
    if |keys| * DICT_INDEX_ENTRY_SIZE >= TWO_64 || rowCount * 4 >= TWO_64 {
      return Err(ArithOverflow);
    }
    var payloadLen := 0;
    for i := 0 to |keys|
      invariant payloadLen == |PayloadUpTo(keys, i)| < TWO_64
    {
      if |keys[i].canonical| > 16 {
        PayloadGrows(keys, i + 1, |keys|);
        if payloadLen + |keys[i].canonical| >= TWO_64 {
          return Err(ArithOverflow);
        }
        payloadLen := payloadLen + |keys[i].canonical|;
      }
    }
    var total := DICT_HEADER_SIZE + |keys| * DICT_INDEX_ENTRY_SIZE + payloadLen + rowCount * 4;
    if total >= TWO_64 {
      return Err(ArithOverflow);
    }
    return Ok(total);
  }

  function EstimatedSize(keys: seq<Key>, rowCount: nat): Result<nat> {
    var total := DICT_HEADER_SIZE + DICT_INDEX_ENTRY_SIZE * |keys| + |PayloadUpTo(keys, |keys|)| + 4 * rowCount;
    if total < TWO_64 then Ok(total) else Err(ArithOverflow)
  }

  lemma {:induction false} PayloadGrows(keys: seq<Key>, i: nat, n: nat)
    requires i <= n <= |keys|
    ensures |PayloadUpTo(keys, i)| <= |PayloadUpTo(keys, n)|
    decreases n - i
  {
    if i < n {
      PayloadGrows(keys, i, n - 1);
    }
  }

  lemma EstimateIsExact(keys: seq<Key>, rowCount: nat)
    requires KeysFit(keys)
    ensures StoredSize(keys, rowCount) ==
      DICT_HEADER_SIZE + DICT_INDEX_ENTRY_SIZE * |keys| + |PayloadUpTo(keys, |keys|)| + 4 * rowCount
  {
    Written(keys);
    ViewOfWritten(DictionaryOf(keys));
  }

  /** A code that decodes to a key's bytes under its tag is the key's code. */
  lemma CodeIdentified(json: JsonCheck, keys: seq<Key>, e: DictionaryEncoding, key: Key, code: nat)
    requires FromKeys(json, keys) == Ok(e) && key in keys && code < |e.dictionary.entries|
    requires e.dictionary.entries[code].valueTag == key.tag
    requires DecodeValue(e.dictionary, code) == Ok(RawBytes(key.canonical))
    ensures CodeForKey(e, key) == Ok(code)
  {
    var unique := Collect(keys, KeyLess);
    DictionarySize(unique);
    CodeDecodesToKey(unique, code);
    CodesAreRanks(json, keys, key, key, code);
    hide Collect, DictionaryOf, KeyAccepted, KeyLess;
    assert unique[code] == key;
  }
}
