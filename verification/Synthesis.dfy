/** FileCode dictionary synthesis for converted columns (`apply_dictionary_synthesis`). */
module Synthesis {
  import opened Wrappers
  import opened Sequences
  import opened Ordered
  import Canonical
  import CanonicalAcceptance
  import opened ColumnTypes
  import opened DictionaryFormat
  import opened Dictionary
  import opened ConvertedColumns

  datatype DictionaryPolicy = Never | Always | WhenSmaller

  predicate Eligible(c: Column) {
    (c.logical == Utf8 || c.logical == Binary) && c.values.VarBytes?
  }

  /** `dictionary_key_for_row`, collected over the first `n` rows; null rows have no key. */
  function KeysUpTo(c: Column, n: nat): Result<seq<Key>>
    requires c.values.VarBytes? && n <= |c.values.blobs|
  {
    if n == 0 then Ok([])
    else
      var done :- KeysUpTo(c, n - 1);
      if IsNull(c, n - 1) then Ok(done)
      else
        var key :- KeyFromLogicalBytes(c.logical, c.values.blobs[n - 1]);
        Ok(done + [key])
  }

  /** The keys of a column, in row order. */
  function ColumnKeys(c: Column): Result<seq<Key>>
    requires c.values.VarBytes?
  {
    KeysUpTo(c, |c.values.blobs|)
  }

  function PlainSize(blobs: seq<seq<byte>>): nat {
    if blobs == [] then 0 else PlainSize(blobs[..|blobs| - 1]) + 4 + |blobs[|blobs| - 1]|
  }

  /** Whether synthesis takes a column, or why it fails on it. */
  function Takes(c: Column, policy: DictionaryPolicy): Result<bool> {
    if !Eligible(c) then Ok(false)
    else
      var keys :- ColumnKeys(c);
      var plain :- (if PlainSize(c.values.blobs) < TWO_64 then Ok(PlainSize(c.values.blobs)) else Err(ArithOverflow));
      var coded :- EstimatedSize(Collect(keys, KeyLess), |c.values.blobs|);
      Ok(policy == Always || coded < plain)
  }

  // ---- the loops over one column ------------------------------------------------------------------

  lemma {:induction false} KeysUpToFails(c: Column, n: nat, m: nat)
    requires c.values.VarBytes? && n <= m <= |c.values.blobs| && KeysUpTo(c, n).Err?
    ensures KeysUpTo(c, m) == KeysUpTo(c, n)
  {
    if n < m {
      KeysUpToFails(c, n, m - 1);
    }
  }

  lemma {:induction false} KeysUpToPrefix(c: Column, n: nat, m: nat)
    requires c.values.VarBytes? && n <= m <= |c.values.blobs| && KeysUpTo(c, m).Ok?
    ensures KeysUpTo(c, n).Ok? && KeysUpTo(c, n).value <= KeysUpTo(c, m).value
  {
    if n < m {
      KeysUpToPrefix(c, n, m - 1);
    }
  }

  /** The key of a row that is not null is among the column's keys. */
  lemma RowKeyListed(c: Column, row: nat)
    requires c.values.VarBytes? && row < |c.values.blobs| && ColumnKeys(c).Ok? && !IsNull(c, row)
    ensures KeyFromLogicalBytes(c.logical, c.values.blobs[row]).Ok?
    ensures KeyFromLogicalBytes(c.logical, c.values.blobs[row]).value in ColumnKeys(c).value
  {
    hide KeyFromLogicalBytes;
    KeysUpToPrefix(c, row + 1, |c.values.blobs|);
    var keys := KeysUpTo(c, row + 1).value;
    assert keys[|keys| - 1] in ColumnKeys(c).value by {
      assert keys[|keys| - 1] == ColumnKeys(c).value[|keys| - 1];
    }
  }

  /** `dictionary_unique_keys`. */
  method UniqueKeys(c: Column) returns (r: Result<seq<Key>>)
    requires c.values.VarBytes?
    ensures r == if ColumnKeys(c).Err? then Err(ColumnKeys(c).error) else Ok(Collect(ColumnKeys(c).value, KeyLess))
  {
    hide KeyFromLogicalBytes;
    var unique: seq<Key> := [];
    ghost var keys: seq<Key> := [];
    for row := 0 to |c.values.blobs|
      invariant KeysUpTo(c, row) == Ok(keys) && unique == Collect(keys, KeyLess)
    {
      if !IsNull(c, row) {
        var key := KeyFromLogicalBytes(c.logical, c.values.blobs[row]);
        if key.Err? {
          KeysUpToFails(c, row + 1, |c.values.blobs|);
          return Err(key.error);
        }
        assert (keys + [key.value])[..|keys|] == keys;
        unique := InsertUnique(key.value, unique, KeyLess);
        keys := keys + [key.value];
      }
    }
    return Ok(unique);
  }

  /** `varbytes_payload_len`. */
  method PayloadLen(blobs: seq<Canonical.Blob>) returns (r: Result<nat>)
    ensures r == if PlainSize(blobs) < TWO_64 then Ok(PlainSize(blobs)) else Err(ArithOverflow)
  {
    var total := 0;
    for i := 0 to |blobs|
      invariant total == PlainSize(blobs[..i]) < TWO_64
    {
      assert blobs[..i + 1][..i] == blobs[..i];
      if total + 4 + |blobs[i]| >= TWO_64 {
        SizeGrows(blobs, i + 1);
        return Err(ArithOverflow);
      }
      total := total + 4 + |blobs[i]|;
    }
    assert blobs[..|blobs|] == blobs;
    return Ok(total);
  }

  lemma {:induction false} SizeGrows(blobs: seq<seq<byte>>, n: nat)
    requires n <= |blobs|
    ensures PlainSize(blobs[..n]) <= PlainSize(blobs)
    decreases |blobs|
  {
    if n < |blobs| {
      var init := blobs[..|blobs| - 1];
      assert init[..n] == blobs[..n];
      SizeGrows(init, n);
    } else {
      assert blobs[..n] == blobs;
    }
  }

  method ShouldTake(c: Column, policy: DictionaryPolicy) returns (r: Result<bool>)
    ensures r == Takes(c, policy)
  {
    hide ColumnKeys, Collect, EstimatedSize;
    if !Eligible(c) {
      return Ok(false);
    }
    var unique := UniqueKeys(c);
    if unique.Err? {
      return Err(unique.error);
    }
    var plain := PayloadLen(c.values.blobs);
    if plain.Err? {
      return Err(plain.error);
    }
    var coded := CandidateLen(unique.value, |c.values.blobs|);
    if coded.Err? {
      return Err(coded.error);
    }
    return Ok(policy == Always || coded.value < plain.value);
  }

  // ---- the codes of one column ----------------------------------------------------------------------

  /** Row by row: 0 under a null, the FileCode of the row's key otherwise. */
  function CodeOfRow(c: Column, e: DictionaryEncoding, row: nat): Result<nat>
    requires c.values.VarBytes? && row < |c.values.blobs|
  {
    if IsNull(c, row) then Ok(0)
    else
      var key :- KeyFromLogicalBytes(c.logical, c.values.blobs[row]);
      CodeForKey(e, key)
  }

  /** `codes` are the FileCodes of the column's rows. */
  predicate CodesOf(c: Column, e: DictionaryEncoding, codes: seq<nat>)
    requires c.values.VarBytes?
  {
    |codes| == |c.values.blobs| && forall row :: 0 <= row < |codes| ==> CodeOfRow(c, e, row) == Ok(codes[row])
  }

  /** The encoding knows the keys of the column. */
  ghost predicate Knows(json: JsonCheck, e: DictionaryEncoding, all: seq<Key>, c: Column)
    requires c.values.VarBytes?
  {
    FromKeys(json, all) == Ok(e) && ColumnKeys(c).Ok? && forall key :: key in ColumnKeys(c).value ==> key in all
  }

  lemma RowHasCode(json: JsonCheck, e: DictionaryEncoding, all: seq<Key>, c: Column, row: nat)
    requires c.values.VarBytes? && row < |c.values.blobs| && Knows(json, e, all, c)
    ensures CodeOfRow(c, e, row).Ok? && CodeOfRow(c, e, row).value < TWO_32
  {
    hide KeyFromLogicalBytes, ColumnKeys, CodeForKey;
    if !IsNull(c, row) {
      RowKeyListed(c, row);
      var key := KeyFromLogicalBytes(c.logical, c.values.blobs[row]).value;
      EncodingRoundTrip(json, all, key);
      EntriesCounted(json, all, e);
    }
  }

  lemma EntriesCounted(json: JsonCheck, all: seq<Key>, e: DictionaryEncoding)
    requires FromKeys(json, all) == Ok(e)
    ensures |e.dictionary.entries| < TWO_32
  {
    DictionarySize(Collect(all, KeyLess));
  }

  method ColumnCodes(json: JsonCheck, e: DictionaryEncoding, ghost all: seq<Key>, c: Column) returns (codes: seq<u32>)
    requires c.values.VarBytes? && Knows(json, e, all, c)
    ensures CodesOf(c, e, codes)
  {
    hide CodeOfRow, Knows;
    codes := [];
    for row := 0 to |c.values.blobs|
      invariant |codes| == row && forall k :: 0 <= k < row ==> CodeOfRow(c, e, k) == Ok(codes[k])
    {
      RowHasCode(json, e, all, c, row);
      codes := codes + [CodeOfRow(c, e, row).value];
    }
  }

  // ---- what synthesis preserves -----------------------------------------------------------------------

  /** What a synthesized column still says: every row null as before or its code decoding to the
      canonical bytes of the original value. */
  predicate SameMeaning(before: Column, after: Column, d: FileDictionary)
    requires before.values.VarBytes?
  {
    && after.values.FileCodes? && after.nulls == before.nulls && |after.values.codes| == |before.values.blobs|
    && after.name == before.name && after.logical == before.logical
    && after.physical == FileCodeKind && after.encoding == FileCodeEncoding
    && forall row :: 0 <= row < |after.values.codes| ==>
         if IsNull(before, row) then after.values.codes[row] == 0
         else RowMeans(before, row, d, after.values.codes[row])
  }

  predicate RowMeans(before: Column, row: nat, d: FileDictionary, code: nat)
    requires before.values.VarBytes? && row < |before.values.blobs|
  {
    var key := KeyFromLogicalBytes(before.logical, before.values.blobs[row]);
    && key.Ok? && DecodeValue(d, code) == Ok(RawBytes(key.value.canonical))
    && code < |d.entries| && d.entries[code].valueTag == key.value.tag
  }

  lemma CodesKeepMeaning(json: JsonCheck, e: DictionaryEncoding, all: seq<Key>, c: Column, codes: seq<u32>)
    requires c.values.VarBytes? && Knows(json, e, all, c) && CodesOf(c, e, codes)
    ensures SameMeaning(c, WithCodes(c, codes), e.dictionary)
  {
    hide KeyFromLogicalBytes, ColumnKeys, DecodeValue;
    forall row | 0 <= row < |codes| && !IsNull(c, row) ensures RowMeans(c, row, e.dictionary, codes[row]) {
      RowKeyListed(c, row);
      EncodingRoundTrip(json, all, KeyFromLogicalBytes(c.logical, c.values.blobs[row]).value);
    }
  }

  lemma KeyHoldsBytes(logical: LogicalType, blob: Canonical.Blob)
    requires KeyFromLogicalBytes(logical, blob).Ok?
    ensures KeyFromLogicalBytes(logical, blob).value.canonical == Canonical.LengthPrefixed(blob)
  {
  }

  /** The original bytes can be read back from the canonical bytes a code decodes to. */
  lemma MeaningGivesBytes(before: Column, row: nat, d: FileDictionary, code: nat)
    requires before.values.VarBytes? && row < |before.values.blobs| && RowMeans(before, row, d, code)
    requires |Canonical.LengthPrefixed(before.values.blobs[row])| < TWO_64
    ensures DecodeValue(d, code).value.RawBytes?
    ensures var bytes := DecodeValue(d, code).value.bytes;
      Canonical.DecodeLengthPrefixed(bytes) == Ok((before.values.blobs[row], |bytes|))
  {
    var blob := before.values.blobs[row];
    hide Canonical.DecodeLengthPrefixed, DecodeValue, KeyFromLogicalBytes, Canonical.LengthPrefixed;
    KeyHoldsBytes(before.logical, blob);
    CanonicalAcceptance.LengthPrefixedRoundTrip(blob, []);
    assert Canonical.LengthPrefixed(blob) + [] == Canonical.LengthPrefixed(blob);
  }

  // ---- the whole table ------------------------------------------------------------------------------

  /** Every column can be judged. */
  predicate AllJudged(columns: seq<Column>, policy: DictionaryPolicy) {
    forall i :: 0 <= i < |columns| ==> Takes(columns[i], policy).Ok?
  }

  predicate Taken(c: Column, policy: DictionaryPolicy) {
    Takes(c, policy) == Ok(true)
  }

  lemma TakenColumn(c: Column, policy: DictionaryPolicy)
    requires Taken(c, policy)
    ensures c.values.VarBytes? && ColumnKeys(c).Ok?
  {
  }

  /** The selection loop. */
  method SelectColumns(columns: seq<Column>, policy: DictionaryPolicy) returns (r: Result<seq<nat>>)
    ensures r.Ok? <==> AllJudged(columns, policy)
    ensures r.Ok? ==> forall k :: 0 <= k < |r.value| ==> r.value[k] < |columns| && Taken(columns[r.value[k]], policy)
    ensures r.Ok? ==> forall i :: 0 <= i < |columns| && Taken(columns[i], policy) ==> i in r.value
    ensures r.Ok? ==> StrictlyAscending(r.value)
  {
    hide Takes;
    var selected: seq<nat> := [];
    for i := 0 to |columns|
      invariant forall k :: 0 <= k < i ==> Takes(columns[k], policy).Ok?
      invariant forall k :: 0 <= k < |selected| ==> selected[k] < i && Taken(columns[selected[k]], policy)
      invariant forall k :: 0 <= k < i && Taken(columns[k], policy) ==> k in selected
      invariant StrictlyAscending(selected)
    {
      var take := ShouldTake(columns[i], policy);
      if take.Err? {
        return Err(take.error);
      }
      if take.value {
        selected := selected + [i];
      }
    }
    return Ok(selected);
  }

  /** `all_keys` holds the keys of the selected columns and nothing else. */
  ghost predicate Gathers(columns: seq<Column>, selected: seq<nat>, all: seq<Key>)
    requires forall k :: 0 <= k < |selected| ==> selected[k] < |columns| && columns[selected[k]].values.VarBytes?
  {
    forall key :: key in all <==>
      exists k :: 0 <= k < |selected| && ColumnKeys(columns[selected[k]]).Ok?
        && key in ColumnKeys(columns[selected[k]]).value
  }

  lemma {:induction false} InsertAllMembers(s: seq<Key>, list: seq<Key>, key: Key)
    ensures key in InsertAll(s, list, KeyLess) <==> key in s || key in list
  {
    if list != [] {
      var init, last := list[..|list| - 1], list[|list| - 1];
      InsertAllMembers(s, init, key);
      InsertUniqueMembers(last, InsertAll(s, init, KeyLess), KeyLess, key);
      assert list == init + [last];
    }
  }

  method CollectAll(columns: seq<Column>, selected: seq<nat>, policy: DictionaryPolicy) returns (all: seq<Key>)
    requires forall k :: 0 <= k < |selected| ==> selected[k] < |columns| && Taken(columns[selected[k]], policy)
    ensures forall k :: 0 <= k < |selected| ==>
      columns[selected[k]].values.VarBytes? && ColumnKeys(columns[selected[k]]).Ok?
    ensures Gathers(columns, selected, all)
  {
    forall k | 0 <= k < |selected|
      ensures columns[selected[k]].values.VarBytes? && ColumnKeys(columns[selected[k]]).Ok?
    {
      TakenColumn(columns[selected[k]], policy);
    }
    hide Takes, ColumnKeys, InsertAll, Collect;
    all := [];
    for i := 0 to |selected|
      invariant Gathers(columns, selected[..i], all)
    {
      var unique := UniqueKeys(columns[selected[i]]);
      ghost var before := all;
      all := InsertAll(all, unique.value, KeyLess);
      GatherStep(columns, selected, i, before, unique.value);
    }
    assert selected[..|selected|] == selected;
  }

  lemma GatherStep(columns: seq<Column>, selected: seq<nat>, i: nat, before: seq<Key>, unique: seq<Key>)
    requires forall k :: 0 <= k < |selected| ==> selected[k] < |columns| && columns[selected[k]].values.VarBytes?
    requires i < |selected| && Gathers(columns, selected[..i], before) && ColumnKeys(columns[selected[i]]).Ok?
    requires unique == Collect(ColumnKeys(columns[selected[i]]).value, KeyLess)
    ensures Gathers(columns, selected[..i + 1], InsertAll(before, unique, KeyLess))
  {
    hide ColumnKeys, InsertAll, Collect;
    var upTo := selected[..i + 1];
    var keys := ColumnKeys(columns[selected[i]]).value;
    forall key ensures key in InsertAll(before, unique, KeyLess) <==>
      exists k :: 0 <= k < |upTo| && ColumnKeys(columns[upTo[k]]).Ok? && key in ColumnKeys(columns[upTo[k]]).value
    {
      InsertAllMembers(before, unique, key);
      CollectMembers(keys, KeyLess, key);
      if key in before {
        var k :| 0 <= k < i && ColumnKeys(columns[selected[..i][k]]).Ok?
          && key in ColumnKeys(columns[selected[..i][k]]).value;
        assert upTo[k] == selected[..i][k];
      }
      if key in keys {
        assert upTo[i] == selected[i];
      }
      if k :| 0 <= k < |upTo| && ColumnKeys(columns[upTo[k]]).Ok? && key in ColumnKeys(columns[upTo[k]]).value {
        if k < i {
          assert selected[..i][k] == upTo[k];
        }
      }
    }
  }

  lemma KnowsColumn(json: JsonCheck, e: DictionaryEncoding, all: seq<Key>, columns: seq<Column>, selected: seq<nat>,
      k: nat)
    requires forall i :: 0 <= i < |selected| ==> selected[i] < |columns| && columns[selected[i]].values.VarBytes?
    requires k < |selected| && Gathers(columns, selected, all) && FromKeys(json, all) == Ok(e)
    requires ColumnKeys(columns[selected[k]]).Ok?
    ensures Knows(json, e, all, columns[selected[k]])
  {
    hide ColumnKeys, FromKeys;
  }

  /** What the table looks like after synthesis. */
  ghost predicate Synthesized(before: seq<Column>, after: seq<Column>, policy: DictionaryPolicy, d: FileDictionary) {
    && |after| == |before|
    && forall i :: 0 <= i < |before| ==>
         if Taken(before[i], policy) then before[i].values.VarBytes? && SameMeaning(before[i], after[i], d)
         else after[i] == before[i]
  }

  /** `all` holds the keys of the rows of the columns the policy takes, and nothing else. */
  ghost predicate KeysOfTaken(before: seq<Column>, policy: DictionaryPolicy, all: seq<Key>) {
    forall key :: key in all <==> TakenKey(before, policy, key)
  }

  predicate TakenKey(before: seq<Column>, policy: DictionaryPolicy, key: Key) {
    exists i :: 0 <= i < |before| && Taken(before[i], policy) && HasKey(before[i], key)
  }

  predicate HasKey(c: Column, key: Key) {
    c.values.VarBytes? && ColumnKeys(c).Ok? && key in ColumnKeys(c).value
  }

  /** The dictionary is the one built from the keys of the taken columns. */
  ghost predicate FromTaken(json: JsonCheck, before: seq<Column>, policy: DictionaryPolicy, d: FileDictionary) {
    exists all: seq<Key> ::
      KeysOfTaken(before, policy, all) && FromKeys(json, all).Ok? && FromKeys(json, all).value.dictionary == d
  }

  lemma GathersTaken(before: seq<Column>, selected: seq<nat>, policy: DictionaryPolicy, all: seq<Key>)
    requires Plan(before, selected, policy) && Gathers(before, selected, all)
    ensures KeysOfTaken(before, policy, all)
  {
    hide Takes, ColumnKeys, Taken;
    forall key ensures key in all <==> TakenKey(before, policy, key) {
      if key in all {
        var k :| 0 <= k < |selected| && ColumnKeys(before[selected[k]]).Ok?
          && key in ColumnKeys(before[selected[k]]).value;
        assert HasKey(before[selected[k]], key);
      }
      if i :| 0 <= i < |before| && Taken(before[i], policy) && HasKey(before[i], key) {
        var k :| 0 <= k < |selected| && selected[k] == i;
        assert ColumnKeys(before[selected[k]]).Ok? && key in ColumnKeys(before[selected[k]]).value;
      }
    }
  }

  /** Across all synthesized columns, codes compare as the keys of the original rows do. */
  lemma TableCodesAreRanks(json: JsonCheck, before: seq<Column>, after: seq<Column>, policy: DictionaryPolicy,
      d: FileDictionary, i: nat, row: nat, j: nat, other: nat)
    requires Synthesized(before, after, policy, d) && FromTaken(json, before, policy, d)
    requires i < |before| && Taken(before[i], policy) && j < |before| && Taken(before[j], policy)
    requires before[i].values.VarBytes? && row < |before[i].values.blobs| && !IsNull(before[i], row)
    requires before[j].values.VarBytes? && other < |before[j].values.blobs| && !IsNull(before[j], other)
    ensures after[i].values.FileCodes? && row < |after[i].values.codes|
    ensures after[j].values.FileCodes? && other < |after[j].values.codes|
    ensures var a := KeyFromLogicalBytes(before[i].logical, before[i].values.blobs[row]);
      var b := KeyFromLogicalBytes(before[j].logical, before[j].values.blobs[other]);
      && a.Ok? && b.Ok?
      && (after[i].values.codes[row] < after[j].values.codes[other] <==> KeyLess(a.value, b.value))
  {
    hide KeyFromLogicalBytes, DecodeValue, FromKeys, ColumnKeys, KeysOfTaken;
    var all: seq<Key> :| KeysOfTaken(before, policy, all) && FromKeys(json, all).Ok?
                         && FromKeys(json, all).value.dictionary == d;
    var e := FromKeys(json, all).value;
    assert RowMeans(before[i], row, d, after[i].values.codes[row]);
    assert RowMeans(before[j], other, d, after[j].values.codes[other]);
    var a := KeyFromLogicalBytes(before[i].logical, before[i].values.blobs[row]).value;
    var b := KeyFromLogicalBytes(before[j].logical, before[j].values.blobs[other]).value;
    TakenKeyListed(before, policy, all, i, row);
    TakenKeyListed(before, policy, all, j, other);
    hide Taken, SameMeaning, KeyLess;
    CodeIdentified(json, all, e, a, after[i].values.codes[row]);
    CodeIdentified(json, all, e, b, after[j].values.codes[other]);
    CodesAreRanks(json, all, a, b, 0);
  }

  lemma TakenKeyListed(before: seq<Column>, policy: DictionaryPolicy, all: seq<Key>, i: nat, row: nat)
    requires KeysOfTaken(before, policy, all) && i < |before| && Taken(before[i], policy)
    requires before[i].values.VarBytes? && row < |before[i].values.blobs| && !IsNull(before[i], row)
    ensures KeyFromLogicalBytes(before[i].logical, before[i].values.blobs[row]).Ok?
    ensures KeyFromLogicalBytes(before[i].logical, before[i].values.blobs[row]).value in all
  {
    TakenColumn(before[i], policy);
    hide Takes, ColumnKeys, KeyFromLogicalBytes;
    RowKeyListed(before[i], row);
    assert HasKey(before[i], KeyFromLogicalBytes(before[i].logical, before[i].values.blobs[row]).value);
  }

  /** Tables whose taken columns hold the same keys get the same dictionary, whatever the order, repetition
      and distribution of the rows. */
  lemma SameKeysSameDictionary(json: JsonCheck, a: seq<Column>, b: seq<Column>, policy: DictionaryPolicy,
      d: FileDictionary, other: FileDictionary)
    requires FromTaken(json, a, policy, d) && FromTaken(json, b, policy, other)
    requires forall key :: TakenKey(a, policy, key) <==> TakenKey(b, policy, key)
    ensures d == other
  {
    hide FromKeys, TakenKey;
    var x: seq<Key> :| KeysOfTaken(a, policy, x) && FromKeys(json, x).Ok? && FromKeys(json, x).value.dictionary == d;
    var y: seq<Key> :| KeysOfTaken(b, policy, y) && FromKeys(json, y).Ok?
      && FromKeys(json, y).value.dictionary == other;
    EncodingIgnoresOrder(json, x, y);
  }

  /** `apply_dictionary_synthesis`: either nothing changes, or every column keeps its meaning. */
  method ApplyDictionarySynthesis(json: JsonCheck, columns: seq<ConvertedColumn>, policy: DictionaryPolicy)
    returns (r: Result<Option<FileDictionary>>)
    requires Distinct(columns)
    modifies columns
    ensures policy == Never || r.Err? || r.value.None? ==> Views(columns) == old(Views(columns))
    ensures policy == Never ==> r == Ok(None)
    ensures policy != Never && r.Ok? ==> AllJudged(old(Views(columns)), policy)
    ensures policy != Never && r.Ok? && r.value.None? ==>
      forall i :: 0 <= i < |columns| ==> !Taken(old(Views(columns))[i], policy)
    ensures r.Ok? && r.value.Some? ==> Synthesized(old(Views(columns)), Views(columns), policy, r.value.value)
    ensures r.Ok? && r.value.Some? ==> FromTaken(json, old(Views(columns)), policy, r.value.value)
  {
    hide Takes, FromKeys, ColumnKeys, SameMeaning, Gathers, Synthesized, KeysOfTaken;
    if policy == Never {
      return Ok(None);
    }
    var before := Snapshot(columns);
    var selected := SelectColumns(before, policy);
    if selected.Err? {
      return Err(selected.error);
    }
    if selected.value == [] {
      return Ok(None);
    }
    var all := CollectAll(before, selected.value, policy);
    var encoding := BuildFromKeys(json, all);
    if encoding.Err? {
      return Err(encoding.error);
    }
    GathersTaken(before, selected.value, policy, all);
    RewriteSelected(json, columns, selected.value, encoding.value, all, policy, before);
    return Ok(Some(encoding.value.dictionary));
  }

  /** One selected column, rewritten in place. */
  method RewriteColumn(json: JsonCheck, column: ConvertedColumn, e: DictionaryEncoding, ghost all: seq<Key>)
    requires column.View().values.VarBytes? && Knows(json, e, all, column.View())
    modifies column
    ensures old(column.View()).values.VarBytes? && SameMeaning(old(column.View()), column.View(), e.dictionary)
  {
    hide Knows, SameMeaning, CodesOf;
    var codes := ColumnCodes(json, e, all, column.View());
    CodesKeepMeaning(json, e, all, column.View(), codes);
    column.ReplaceWithCodes(codes);
  }

  /** The columns to rewrite: in order, each taken, none left out, each with keys. */
  ghost predicate Plan(before: seq<Column>, selected: seq<nat>, policy: DictionaryPolicy) {
    && StrictlyAscending(selected)
    && (forall k :: 0 <= k < |selected| ==> selected[k] < |before| && Taken(before[selected[k]], policy))
    && (forall i :: 0 <= i < |before| && Taken(before[i], policy) ==> i in selected)
    && (forall k :: 0 <= k < |selected| ==> before[selected[k]].values.VarBytes? && ColumnKeys(before[selected[k]]).Ok?)
  }

  /** After the first `k` selected columns. */
  ghost predicate Rewritten(before: seq<Column>, now: seq<Column>, selected: seq<nat>, policy: DictionaryPolicy,
      k: nat, d: FileDictionary)
    requires Plan(before, selected, policy) && k <= |selected|
  {
    && |now| == |before|
    && (forall i :: 0 <= i < |before| && i !in selected[..k] ==> now[i] == before[i])
    && (forall j :: 0 <= j < k ==> SameMeaning(before[selected[j]], now[selected[j]], d))
  }

  lemma RewriteStep(before: seq<Column>, now: seq<Column>, selected: seq<nat>, policy: DictionaryPolicy, k: nat,
      d: FileDictionary, column: Column)
    requires Plan(before, selected, policy) && k < |selected| && Rewritten(before, now, selected, policy, k, d)
    requires SameMeaning(before[selected[k]], column, d)
    ensures Rewritten(before, now[selected[k] := column], selected, policy, k + 1, d)
  {
    hide Taken, ColumnKeys, SameMeaning;
    assert selected[..k + 1] == selected[..k] + [selected[k]];
  }

  lemma NotYetRewritten(before: seq<Column>, now: seq<Column>, selected: seq<nat>, policy: DictionaryPolicy, k: nat,
      d: FileDictionary)
    requires Plan(before, selected, policy) && k < |selected| && Rewritten(before, now, selected, policy, k, d)
    ensures now[selected[k]] == before[selected[k]]
  {
    hide Taken, ColumnKeys, SameMeaning;
    assert selected[k] !in selected[..k];
  }

  lemma AllRewritten(before: seq<Column>, now: seq<Column>, selected: seq<nat>, policy: DictionaryPolicy,
      d: FileDictionary)
    requires Plan(before, selected, policy) && Rewritten(before, now, selected, policy, |selected|, d)
    ensures Synthesized(before, now, policy, d)
  {
    hide Taken, ColumnKeys, SameMeaning;
    assert selected[..|selected|] == selected;
  }

  /** The rewriting loop. */
  method RewriteSelected(json: JsonCheck, columns: seq<ConvertedColumn>, selected: seq<nat>, e: DictionaryEncoding,
      ghost all: seq<Key>, ghost policy: DictionaryPolicy, ghost before: seq<Column>)
    requires Distinct(columns) && Views(columns) == before && Plan(before, selected, policy)
    requires Gathers(before, selected, all) && FromKeys(json, all) == Ok(e)
    modifies columns
    ensures Synthesized(before, Views(columns), policy, e.dictionary)
  {
    hide Taken, FromKeys, ColumnKeys, SameMeaning, Gathers, Knows, Rewritten;
    RewriteStart(before, selected, policy, e.dictionary);
    for k := 0 to |selected|
      invariant Rewritten(before, Views(columns), selected, policy, k, e.dictionary)
    {
      ghost var now := Views(columns);
      NotYetRewritten(before, now, selected, policy, k, e.dictionary);
      KnowsColumn(json, e, all, before, selected, k);
      RewriteColumn(json, columns[selected[k]], e, all);
      RewriteStep(before, now, selected, policy, k, e.dictionary, columns[selected[k]].View());
      assert Views(columns) == now[selected[k] := columns[selected[k]].View()];
    }
    AllRewritten(before, Views(columns), selected, policy, e.dictionary);
  }

  lemma RewriteStart(before: seq<Column>, selected: seq<nat>, policy: DictionaryPolicy, d: FileDictionary)
    requires Plan(before, selected, policy)
    ensures Rewritten(before, before, selected, policy, 0, d)
  {
  }
}
