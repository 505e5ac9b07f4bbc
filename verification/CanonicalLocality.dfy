/** What the validator accepts at the front of some bytes does not depend on the bytes behind it. */
module CanonicalLocality {
  import opened Wrappers
  import opened Sequences
  import opened Wire
  import opened Canonical

  lemma {:induction false} LebFromLocal(bytes: seq<byte>, shift: nat, suffix: seq<byte>)
    requires shift < 64 && DecodeLebFrom(bytes, shift).Ok?
    ensures DecodeLebFrom(bytes + suffix, shift) == DecodeLebFrom(bytes, shift)
    decreases |bytes|
  {
    var whole := bytes + suffix;
    assert whole[0] == bytes[0] && whole[1..] == bytes[1..] + suffix;
    if bytes[0] >= 128 {
      LebFromLocal(bytes[1..], shift + 7, suffix);
    }
  }

  lemma VarintLocal(bytes: seq<byte>, suffix: seq<byte>)
    requires DecodeVarint(bytes).Ok?
    ensures DecodeVarint(bytes + suffix) == DecodeVarint(bytes)
    ensures var used := DecodeVarint(bytes).value.1; (bytes + suffix)[used..] == bytes[used..] + suffix
  {
    hide DecodeLebFrom;
    LebFromLocal(bytes, 0, suffix);
  }

  lemma LengthPrefixedLocal(bytes: seq<byte>, suffix: seq<byte>)
    requires DecodeLengthPrefixed(bytes).Ok?
    ensures DecodeLengthPrefixed(bytes + suffix) == DecodeLengthPrefixed(bytes)
  {
    hide DecodeVarint;
    VarintLocal(bytes, suffix);
    var (len, prefix) := DecodeVarint(bytes).value;
    assert (bytes + suffix)[prefix..prefix + len] == bytes[prefix..prefix + len];
  }

  lemma PayloadLocal(json: JsonCheck, tag: Tag, bytes: seq<byte>, suffix: seq<byte>)
    requires ValidatePayload(json, tag, bytes).Ok?
    ensures ValidatePayload(json, tag, bytes + suffix) == ValidatePayload(json, tag, bytes)
    decreases |bytes|, 1
  {
    hide DecodeVarint, DecodeLengthPrefixed, ValidateElements, ValidateFields, ValidateEntries;
    if tag == TAG_UTF8 || tag == TAG_BINARY || tag == TAG_JSON {
      LengthPrefixedLocal(bytes, suffix);
    } else if tag >= TAG_LIST {
      VarintLocal(bytes, suffix);
      var (count, pos) := DecodeVarint(bytes).value;
      if tag == TAG_LIST {
        ElementsLocal(json, count, bytes[pos..], suffix);
      } else if tag == TAG_STRUCT {
        FieldsLocal(json, count, None, bytes[pos..], suffix);
      } else {
        EntriesLocal(json, count, None, bytes[pos..], suffix);
      }
    }
  }

  lemma TaggedLocal(json: JsonCheck, bytes: seq<byte>, suffix: seq<byte>)
    requires ValidateTagged(json, bytes).Ok?
    ensures ValidateTagged(json, bytes + suffix) == ValidateTagged(json, bytes)
    decreases |bytes|, 1
  {
    hide DecodeVarint, ValidatePayload;
    VarintLocal(bytes, suffix);
    var (raw, tagLen) := DecodeVarint(bytes).value;
    PayloadLocal(json, raw, bytes[tagLen..], suffix);
  }

  lemma ElementsLocal(json: JsonCheck, count: nat, bytes: seq<byte>, suffix: seq<byte>)
    requires ValidateElements(json, count, bytes).Ok?
    ensures ValidateElements(json, count, bytes + suffix) == ValidateElements(json, count, bytes)
    decreases |bytes|, 2
  {
    hide ValidateTagged;
    if count > 0 {
      TaggedLocal(json, bytes, suffix);
      var used := ValidateTagged(json, bytes).value.1;
      assert (bytes + suffix)[used..] == bytes[used..] + suffix;
      ElementsLocal(json, count - 1, bytes[used..], suffix);
    }
  }

  lemma FieldLocal(json: JsonCheck, prev: Option<nat>, bytes: seq<byte>, suffix: seq<byte>)
    requires ValidateField(json, prev, bytes).Ok?
    ensures ValidateField(json, prev, bytes + suffix) == ValidateField(json, prev, bytes)
    decreases |bytes|, 2
  {
    hide ValidateTagged, DecodeVarint;
    VarintLocal(bytes, suffix);
    TaggedLocal(json, bytes[DecodeVarint(bytes).value.1..], suffix);
  }

  lemma FieldsLocal(json: JsonCheck, count: nat, prev: Option<nat>, bytes: seq<byte>, suffix: seq<byte>)
    requires ValidateFields(json, count, prev, bytes).Ok?
    ensures ValidateFields(json, count, prev, bytes + suffix) == ValidateFields(json, count, prev, bytes)
    decreases |bytes|, 3
  {
    hide ValidateField;
    if count > 0 {
      FieldLocal(json, prev, bytes, suffix);
      var (id, used) := ValidateField(json, prev, bytes).value;
      assert (bytes + suffix)[used..] == bytes[used..] + suffix;
      FieldsLocal(json, count - 1, Some(id), bytes[used..], suffix);
    }
  }

  lemma EntryLocal(json: JsonCheck, prev: Option<seq<byte>>, bytes: seq<byte>, suffix: seq<byte>)
    requires ValidateEntry(json, prev, bytes).Ok?
    ensures ValidateEntry(json, prev, bytes + suffix) == ValidateEntry(json, prev, bytes)
    decreases |bytes|, 2
  {
    hide ValidateTagged, LexLt;
    TaggedLocal(json, bytes, suffix);
    var keyLen := ValidateTagged(json, bytes).value.1;
    assert (bytes + suffix)[..keyLen] == bytes[..keyLen] && (bytes + suffix)[keyLen..] == bytes[keyLen..] + suffix;
    TaggedLocal(json, bytes[keyLen..], suffix);
  }

  lemma EntriesLocal(json: JsonCheck, count: nat, prev: Option<seq<byte>>, bytes: seq<byte>, suffix: seq<byte>)
    requires ValidateEntries(json, count, prev, bytes).Ok?
    ensures ValidateEntries(json, count, prev, bytes + suffix) == ValidateEntries(json, count, prev, bytes)
    decreases |bytes|, 3
  {
    hide ValidateEntry;
    if count > 0 {
      EntryLocal(json, prev, bytes, suffix);
      var (key, used) := ValidateEntry(json, prev, bytes).value;
      assert (bytes + suffix)[used..] == bytes[used..] + suffix;
      EntriesLocal(json, count - 1, Some(key), bytes[used..], suffix);
    }
  }

  /** The byte strings that are one tagged value to the validator are prefix-free. */
  lemma UniqueSplit(json: JsonCheck, t1: seq<byte>, s1: seq<byte>, t2: seq<byte>, s2: seq<byte>)
    requires ValidateTagged(json, t1).Ok? && ValidateTagged(json, t1).value.1 == |t1|
    requires ValidateTagged(json, t2).Ok? && ValidateTagged(json, t2).value.1 == |t2|
    requires t1 + s1 == t2 + s2
    ensures t1 == t2 && s1 == s2
  {
    hide ValidateTagged;
    TaggedLocal(json, t1, s1);
    TaggedLocal(json, t2, s2);
    assert t1 == (t1 + s1)[..|t1|] && t2 == (t2 + s2)[..|t2|];
    assert s1 == (t1 + s1)[|t1|..] && s2 == (t2 + s2)[|t2|..];
  }

  /** So the validator's answer for a whole tagged value is its answer in front of anything. */
  lemma WholeMeansAnywhere(json: JsonCheck, tag: Tag, t: seq<byte>)
    ensures ValidateTagged(json, t) == Ok((tag, |t|)) <==>
      forall suffix :: ValidateTagged(json, t + suffix) == Ok((tag, |t|))
  {
    hide ValidateTagged;
    if ValidateTagged(json, t) == Ok((tag, |t|)) {
      forall suffix ensures ValidateTagged(json, t + suffix) == Ok((tag, |t|)) {
        TaggedLocal(json, t, suffix);
      }
    }
    assert t + [] == t;
  }
}
