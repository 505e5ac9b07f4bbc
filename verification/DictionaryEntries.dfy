/** Checking a dictionary entry and decoding it: what passes the check is what decodes to a well-formed value. */
module DictionaryEntries {
  import opened Wrappers
  import Canonical
  import opened DictionaryFormat

  /** The length that an entry's storage class has no use for is zero, and its payload range lies in the payload. */
  predicate WellPlaced(e: IndexEntry, payload: seq<byte>) {
    && e.payloadOffset + e.payloadLength <= |payload|
    && (e.storageClass == INLINE ==> e.payloadLength == 0)
    && (e.storageClass == PAYLOAD ==> e.inlineLen == 0)
  }

  /** What a value may be: bytes the canonical validator takes under the entry's tag, or redacted and not null. */
  predicate GoodValue(json: Canonical.JsonCheck, tag: nat, value: DictionaryValue) {
    match value
    case RawBytes(bytes) => tag <= 18 && Canonical.ValidateCanonicalPayload(json, tag, bytes).Ok?
    case RedactedPresent => tag != 0
  }

  /** An entry passes exactly when it is well placed and decodes to a good value. */
  lemma PassesExactly(json: Canonical.JsonCheck, e: IndexEntry, payload: seq<byte>)
    requires CheckEntry(e).Ok? && |payload| < TWO_64
    ensures ValidateEntry(json, e, payload, |payload|).Ok? <==>
      && WellPlaced(e, payload) && DecodeEntry(e, payload).Ok?
      && GoodValue(json, e.valueTag, DecodeEntry(e, payload).value)
  {
    hide Canonical.ValidateCanonicalPayload;
  }

  /** In a dictionary whose entries all pass, the codes below the entry count decode to good values, and no other code
      decodes. */
  lemma CheckedCodesDecode(json: Canonical.JsonCheck, d: FileDictionary, code: nat)
    requires |d.payload| < TWO_64
    requires forall i :: 0 <= i < |d.entries| ==>
      CheckEntry(d.entries[i]).Ok? && ValidateEntry(json, d.entries[i], d.payload, |d.payload|).Ok?
    ensures DecodeValue(d, code).Ok? <==> code < |d.entries|
    ensures code < |d.entries| ==> GoodValue(json, d.entries[code].valueTag, DecodeValue(d, code).value)
  {
    hide CheckEntry, ValidateEntry, DecodeEntry, GoodValue;
    if code < |d.entries| {
      assert CheckEntry(d.entries[code]).Ok?;
      PassesExactly(json, d.entries[code], d.payload);
    }
  }
}
