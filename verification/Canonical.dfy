/** The canonical byte form of a value and the validator for it (`canonical.rs`). */
module Canonical {
  import opened Wrappers
  import opened Sequences
  import opened Wire
  import opened Utf8

  // ---- values -----------------------------------------------------------------------------

  /** Rust's `&str`: valid UTF-8 held in memory. */
  type Str = s: seq<byte> | Utf8Valid(s) && |s| < TWO_64
  type Blob = s: seq<byte> | |s| < TWO_64
  type Uuid16 = s: seq<byte> | |s| == 16 witness seq(16, _ => 0)
  type u128 = x: int | 0 <= x < TWO_128

  /** `CanonicalValue`. Floats are held as their raw IEEE 754 bits, which is all the encoder reads. */
  datatype Value =
    | Null
    | Bool(b: bool)
    | Int(width: nat, signed: i128)
    | Uint(width: nat, unsigned: u128)
    | Float32(bits32: u32)
    | Float64(bits64: u64)
    | Decimal64(d64: i64)
    | Decimal128(d128: i128)
    | DateDays(days: i32)
    | TimestampMicros(micros: i64)
    | TimestampNanos(nanos: i64)
    | Uuid(uuid: Uuid16)
    | Text(text: Str)
    | Binary(bytes: Blob)
    | Json(json: Str)
    | List(elements: seq<Value>)
    | Struct(fields: seq<Field>)
    | Map(entries: seq<Entry>)

  datatype Field = Field(id: u64, value: Value)
  datatype Entry = Entry(key: Value, value: Value)

  // Wire numbers of `ValueTag`.
  type Tag = t: int | 0 <= t <= 18
  const TAG_INT64: Tag := 3
  const TAG_UINT64: Tag := 4
  const TAG_FLOAT32: Tag := 5
  const TAG_FLOAT64: Tag := 6
  const TAG_DECIMAL64: Tag := 7
  const TAG_DECIMAL128: Tag := 8
  const TAG_DATE_DAYS: Tag := 9
  const TAG_TIMESTAMP_MICROS: Tag := 10
  const TAG_TIMESTAMP_NANOS: Tag := 11
  const TAG_UTF8: Tag := 12
  const TAG_BINARY: Tag := 13
  const TAG_UUID: Tag := 14
  const TAG_JSON: Tag := 15
  const TAG_LIST: Tag := 16
  const TAG_STRUCT: Tag := 17
  const TAG_MAP: Tag := 18

  function TagOf(v: Value): Tag {
    match v
    case Null => 0
    case Bool(b) => if b then 2 else 1
    case Int(_, _) => TAG_INT64
    case Uint(_, _) => TAG_UINT64
    case Float32(_) => TAG_FLOAT32
    case Float64(_) => TAG_FLOAT64
    case Decimal64(_) => TAG_DECIMAL64
    case Decimal128(_) => TAG_DECIMAL128
    case DateDays(_) => TAG_DATE_DAYS
    case TimestampMicros(_) => TAG_TIMESTAMP_MICROS
    case TimestampNanos(_) => TAG_TIMESTAMP_NANOS
    case Uuid(_) => TAG_UUID
    case Text(_) => TAG_UTF8
    case Binary(_) => TAG_BINARY
    case Json(_) => TAG_JSON
    case List(_) => TAG_LIST
    case Struct(_) => TAG_STRUCT
    case Map(_) => TAG_MAP
  }

  predicate IsScalar(v: Value) {
    !(v.List? || v.Struct? || v.Map?)
  }

  predicate IsScalarTag(tag: Tag) {
    tag < TAG_LIST
  }

  // ---- encoding ---------------------------------------------------------------------------

  /** Two's complement, little-endian, `n` bytes. */
  function SignedLE(v: int, n: nat): seq<byte>
    requires -(Pow256(n) as int) <= v
  {
    ToLE(if v < 0 then v + Pow256(n) else v, n)
  }

  /** `2^(8 * width - 1)` for the widths the encoder knows. */
  function HalfRange(width: nat): Option<int> {
    match width
    case 1 => Some(0x80)
    case 2 => Some(0x8000)
    case 4 => Some(TWO_31)
    case 8 => Some(TWO_63)
    case _ => None
  }

  function EncodeSigned(width: nat, v: i128): Result<seq<byte>> {
    match HalfRange(width)
    case None => Err(BadSection)
    case Some(half) =>
      Pow256Values();
      if -half <= v < half then Ok(SignedLE(v, 8)) else Err(BadSection)
  }

  function EncodeUnsigned(width: nat, v: u128): Result<seq<byte>> {
    match HalfRange(width)
    case None => Err(BadSection)
    case Some(half) => if v < 2 * half then Ok(ToLE(v, 8)) else Err(BadSection)
  }

  function LengthPrefixed(bytes: Blob): seq<byte> {
    EncodeLeb(|bytes|) + bytes
  }

  function Encode(v: Value): Result<seq<byte>>
    decreases v, 0
  {
    Pow256Values();
    match v
    case Null => Ok([])
    case Bool(_) => Ok([])
    case Int(width, x) => EncodeSigned(width, x)
    case Uint(width, x) => EncodeUnsigned(width, x)
    case Float32(bits) => Ok(ToLE(bits, 4))
    case Float64(bits) => Ok(ToLE(bits, 8))
    case Decimal64(x) => Ok(SignedLE(x, 8))
    case Decimal128(x) => Ok(SignedLE(x, 16))
    case DateDays(x) => Ok(SignedLE(x, 4))
    case TimestampMicros(x) => Ok(SignedLE(x, 8))
    case TimestampNanos(x) => Ok(SignedLE(x, 8))
    case Uuid(uuid) => Ok(uuid)
    case Text(text) => Ok(LengthPrefixed(text))
    case Binary(bytes) => Ok(LengthPrefixed(bytes))
    case Json(text) => Ok(LengthPrefixed(text))
    case List(elements) =>
      var rows :- EncodeElements(elements);
      Ok(EncodeLeb(|elements|) + Flatten(rows))
    case Struct(fields) =>
      var rows :- OrderedFields(EncodeFields(fields));
      Ok(EncodeLeb(|fields|) + Flatten(FieldRows(rows)))
    case Map(entries) =>
      var pairs :- OrderedEntries(EncodeEntries(entries));
      Ok(EncodeLeb(|entries|) + Flatten(EntryRows(pairs)))
  }

  function EncodeTagged(v: Value): Result<seq<byte>>
    decreases v, 1
  {
    var payload :- Encode(v);
    Ok(EncodeLeb(TagOf(v)) + payload)
  }

  function EncodeElements(elements: seq<Value>): (r: Result<seq<seq<byte>>>)
    ensures r.Ok? ==> |r.value| == |elements|
    decreases elements, 0
  {
    if elements == [] then Ok([])
    else
      var first :- EncodeTagged(elements[0]);
      var rest :- EncodeElements(elements[1..]);
      Ok([first] + rest)
  }

  // A struct is ordered by field id and only then encoded, so a field keeps its own outcome.
  datatype EncodedField = EncodedField(id: u64, tagged: Result<seq<byte>>)

  function EncodeFields(fields: seq<Field>): (r: seq<EncodedField>)
    ensures |r| == |fields|
    decreases fields, 0
  {
    if fields == [] then []
    else [EncodeField(fields[0])] + EncodeFields(fields[1..])
  }

  function EncodeField(field: Field): EncodedField
    decreases field, 2
  {
    EncodedField(field.id, EncodeTagged(field.value))
  }

  datatype FieldRow = FieldRow(id: u64, tagged: seq<byte>)

  predicate DuplicateNeighbour<K(==)>(keys: seq<K>) {
    exists i :: 0 < i < |keys| && keys[i - 1] == keys[i]
  }

  function FieldIds(fields: seq<EncodedField>): (ids: seq<u64>)
    ensures |ids| == |fields|
    ensures forall i :: 0 <= i < |fields| ==> ids[i] == fields[i].id
  {
    seq(|fields|, i requires 0 <= i < |fields| => fields[i].id)
  }

  function ById(): (EncodedField, EncodedField) -> bool {
    (a: EncodedField, b: EncodedField) => a.id <= b.id
  }

  function OrderedFields(fields: seq<EncodedField>): Result<seq<FieldRow>> {
    var sorted := StableSort(fields, ById());
    if DuplicateNeighbour(FieldIds(sorted)) then Err(BadSchema) else CollectRows(sorted)
  }

  function CollectRows(fields: seq<EncodedField>): (r: Result<seq<FieldRow>>)
    ensures r.Ok? ==> |r.value| == |fields|
    ensures r.Ok? ==> forall i :: 0 <= i < |fields| ==>
      fields[i].tagged.Ok? && r.value[i] == FieldRow(fields[i].id, fields[i].tagged.value)
    ensures r.Err? ==> exists i :: 0 <= i < |fields| && fields[i].tagged.Err?
  {
    if fields == [] then Ok([])
    else
      var tagged :- fields[0].tagged;
      var rest :- CollectRows(fields[1..]);
      Ok([FieldRow(fields[0].id, tagged)] + rest)
  }

  function FieldRows(rows: seq<FieldRow>): (r: seq<seq<byte>>)
    ensures |r| == |rows|
  {
    if rows == [] then [] else [EncodeLeb(rows[0].id) + rows[0].tagged] + FieldRows(rows[1..])
  }

  datatype Pair = Pair(key: seq<byte>, value: seq<byte>)

  function EncodeEntries(entries: seq<Entry>): (r: Result<seq<Pair>>)
    ensures r.Ok? ==> |r.value| == |entries|
    decreases entries, 0
  {
    if entries == [] then Ok([])
    else
      var first :- EncodeEntry(entries[0]);
      var rest :- EncodeEntries(entries[1..]);
      Ok([first] + rest)
  }

  function EncodeEntry(entry: Entry): Result<Pair>
    decreases entry, 2
  {
    if !IsScalar(entry.key) then Err(BadSchema)
    else
      var key :- EncodeTagged(entry.key);
      var value :- EncodeTagged(entry.value);
      Ok(Pair(key, value))
  }

  function ByKey(): (Pair, Pair) -> bool {
    (a: Pair, b: Pair) => LexLe(a.key, b.key)
  }

  function PairKeys(pairs: seq<Pair>): (keys: seq<seq<byte>>)
    ensures |keys| == |pairs|
    ensures forall i :: 0 <= i < |pairs| ==> keys[i] == pairs[i].key
  {
    seq(|pairs|, i requires 0 <= i < |pairs| => pairs[i].key)
  }

  /** The ordering half of `canonicalize_map_entries`. */
  function OrderedEntries(encoded: Result<seq<Pair>>): Result<seq<Pair>> {
    var pairs :- encoded;
    var sorted := StableSort(pairs, ByKey());
    if DuplicateNeighbour(PairKeys(sorted)) then Err(BadSchema) else Ok(sorted)
  }

  function EntryRows(pairs: seq<Pair>): (r: seq<seq<byte>>)
    ensures |r| == |pairs|
  {
    if pairs == [] then [] else [pairs[0].key + pairs[0].value] + EntryRows(pairs[1..])
  }

  // ---- validation -------------------------------------------------------------------------

  /** The JSON syntax check of the library is a parameter. */
  type JsonCheck = seq<byte> -> bool

  function DecodeVarint(bytes: seq<byte>): (r: Result<(nat, nat)>)
    ensures r.Ok? ==> 1 <= r.value.1 <= |bytes| && r.value.0 < TWO_64
  {
    match DecodeLeb(bytes)
    case Ok(v) => Ok(v)
    case Err(_) => Err(BadSection)
  }

  /** The payload and the total number of bytes with its prefix. */
  function DecodeLengthPrefixed(bytes: seq<byte>): (r: Result<(seq<byte>, nat)>)
    ensures r.Ok? ==> r.value.1 <= |bytes|
  {
    var (len, prefix) :- DecodeVarint(bytes);
    if prefix + len >= TWO_64 then Err(ArithOverflow)
    else if prefix + len > |bytes| then Err(BadSection)
    else Ok((bytes[prefix..prefix + len], prefix + len))
  }

  function MinWidth(bytes: seq<byte>, width: nat): (r: Result<nat>)
    ensures r.Ok? ==> r.value <= |bytes|
  {
    if |bytes| < width then Err(BadSection) else Ok(width)
  }

  /** Payload width of the fixed-width tags. */
  function FixedWidth(tag: Tag): Option<nat> {
    if tag <= 2 then Some(0)
    else if tag == TAG_FLOAT32 || tag == TAG_DATE_DAYS then Some(4)
    else if tag == TAG_DECIMAL128 || tag == TAG_UUID then Some(16)
    else if tag <= TAG_TIMESTAMP_NANOS then Some(8)
    else None
  }

  /** Bytes used by the payload at the head of `bytes`. */
  function ValidatePayload(json: JsonCheck, tag: Tag, bytes: seq<byte>): (r: Result<nat>)
    ensures r.Ok? ==> r.value <= |bytes|
    decreases |bytes|, 1
  {
    if FixedWidth(tag).Some? then MinWidth(bytes, FixedWidth(tag).value)
    else if tag == TAG_UTF8 then
      var (payload, used) :- DecodeLengthPrefixed(bytes);
      if Utf8Valid(payload) then Ok(used) else Err(BadSection)
    else if tag == TAG_BINARY then
      var (_, used) :- DecodeLengthPrefixed(bytes);
      Ok(used)
    else if tag == TAG_JSON then
      var (payload, used) :- DecodeLengthPrefixed(bytes);
      if json(payload) then Ok(used) else Err(BadSection)
    else
      var (count, pos) :- DecodeVarint(bytes);
      var used :-
        if tag == TAG_LIST then ValidateElements(json, count, bytes[pos..])
        else if tag == TAG_STRUCT then ValidateFields(json, count, None, bytes[pos..])
        else ValidateEntries(json, count, None, bytes[pos..]);
      Ok(pos + used)
  }

  function ValidateTagged(json: JsonCheck, bytes: seq<byte>): (r: Result<(Tag, nat)>)
    ensures r.Ok? ==> 1 <= r.value.1 <= |bytes|
    decreases |bytes|, 1
  {
    var (raw, tagLen) :- DecodeVarint(bytes);
    if raw > 18 then Err(BadSection)
    else
      var used :- ValidatePayload(json, raw, bytes[tagLen..]);
      Ok((raw, tagLen + used))
  }

  function ValidateElements(json: JsonCheck, count: nat, bytes: seq<byte>): (r: Result<nat>)
    ensures r.Ok? ==> r.value <= |bytes|
    decreases |bytes|, 2
  {
    if count == 0 then Ok(0)
    else
      var (_, used) :- ValidateTagged(json, bytes);
      var rest :- ValidateElements(json, count - 1, bytes[used..]);
      Ok(used + rest)
  }

  /** One struct field: its id and the bytes it takes. */
  function ValidateField(json: JsonCheck, prev: Option<nat>, bytes: seq<byte>): (r: Result<(nat, nat)>)
    ensures r.Ok? ==> 1 <= r.value.1 <= |bytes|
    decreases |bytes|, 2
  {
    var (id, idLen) :- DecodeVarint(bytes);
    if prev.Some? && id <= prev.value then Err(BadSection)
    else
      var (_, used) :- ValidateTagged(json, bytes[idLen..]);
      Ok((id, idLen + used))
  }

  function ValidateFields(json: JsonCheck, count: nat, prev: Option<nat>, bytes: seq<byte>): (r: Result<nat>)
    ensures r.Ok? ==> r.value <= |bytes|
    decreases |bytes|, 3
  {
    if count == 0 then Ok(0)
    else
      var (id, used) :- ValidateField(json, prev, bytes);
      var rest :- ValidateFields(json, count - 1, Some(id), bytes[used..]);
      Ok(used + rest)
  }

  /** One map entry: its key bytes and the bytes it takes. */
  function ValidateEntry(json: JsonCheck, prev: Option<seq<byte>>, bytes: seq<byte>): (r: Result<(seq<byte>, nat)>)
    ensures r.Ok? ==> 1 <= r.value.1 <= |bytes|
    decreases |bytes|, 2
  {
    var (keyTag, keyLen) :- ValidateTagged(json, bytes);
    if !IsScalarTag(keyTag) then Err(BadSection)
    else if prev.Some? && !LexLt(prev.value, bytes[..keyLen]) then Err(BadSection)
    else
      var (_, valueLen) :- ValidateTagged(json, bytes[keyLen..]);
      Ok((bytes[..keyLen], keyLen + valueLen))
  }

  function ValidateEntries(json: JsonCheck, count: nat, prev: Option<seq<byte>>, bytes: seq<byte>): (r: Result<nat>)
    ensures r.Ok? ==> r.value <= |bytes|
    decreases |bytes|, 3
  {
    if count == 0 then Ok(0)
    else
      var (key, used) :- ValidateEntry(json, prev, bytes);
      var rest :- ValidateEntries(json, count - 1, Some(key), bytes[used..]);
      Ok(used + rest)
  }

  /** `validate_canonical_payload`: nothing may follow the payload. */
  function ValidateCanonicalPayload(json: JsonCheck, tag: Tag, bytes: seq<byte>): Result<()> {
    var used :- ValidatePayload(json, tag, bytes);
    if used != |bytes| then Err(BadSection) else Ok(())
  }
}
