/** Primitive wire formats: little-endian integers, unsigned LEB128 and checked ranges. */
module Wire {
  import opened Wrappers
  import opened Bits

  // ---- little-endian integers ------------------------------------------------------------

  function ToLE(v: nat, n: nat): (bytes: seq<byte>)
    ensures |bytes| == n
  {
    if n == 0 then [] else [v % 256] + ToLE(v / 256, n - 1)
  }

  function FromLE(bytes: seq<byte>): nat {
    if bytes == [] then 0 else bytes[0] + 256 * FromLE(bytes[1..])
  }

  /** `256^n`, the number of values an `n`-byte integer can hold. */
  function Pow256(n: nat): (p: nat)
    ensures p >= 1
  {
    if n == 0 then 1 else 256 * Pow256(n - 1)
  }

  lemma Pow256Values()
    ensures Pow256(1) == 256 && Pow256(2) == TWO_16 && Pow256(4) == TWO_32 && Pow256(8) == TWO_64
    ensures Pow256(16) == TWO_128
  {
    assert Pow256(4) == 256 * Pow256(3);
    assert Pow256(6) == 256 * 256 * Pow256(4);
    assert Pow256(8) == 256 * 256 * Pow256(6);
    assert Pow256(10) == 256 * 256 * Pow256(8);
    assert Pow256(12) == 256 * 256 * Pow256(10);
    assert Pow256(14) == 256 * 256 * Pow256(12);
    assert Pow256(16) == 256 * 256 * Pow256(14);
  }

  lemma {:induction false} FromToLE(v: nat, n: nat)
    requires v < Pow256(n)
    ensures FromLE(ToLE(v, n)) == v
  {
    if n > 0 {
      FromToLE(v / 256, n - 1);
    }
  }

  lemma {:induction false} ToFromLE(bytes: seq<byte>)
    ensures ToLE(FromLE(bytes), |bytes|) == bytes
    ensures FromLE(bytes) < Pow256(|bytes|)
  {
    if bytes != [] {
      ToFromLE(bytes[1..]);
      var rest := FromLE(bytes[1..]);
      assert (bytes[0] + 256 * rest) / 256 == rest && (bytes[0] + 256 * rest) % 256 == bytes[0];
      assert bytes == [bytes[0]] + bytes[1..];
    }
  }

  /** Distinct values of one width have distinct encodings. */
  lemma ToLEInjective(v: nat, w: nat, n: nat)
    requires v < Pow256(n) && w < Pow256(n)
    requires ToLE(v, n) == ToLE(w, n)
    ensures v == w
  {
    FromToLE(v, n);
    FromToLE(w, n);
  }

  /** `read_range_checked`; slices are shorter than `2^64` bytes, so only the sum can overflow. */
  function ReadRangeChecked(bytes: seq<byte>, offset: nat, len: nat): Result<seq<byte>> {
    if offset + len >= TWO_64 then Err(ArithOverflow)
    else if offset + len > |bytes| then Err(OffsetRange)
    else Ok(bytes[offset..offset + len])
  }

  function ReadU32(bytes: seq<byte>, offset: nat): Result<nat> {
    var slice :- ReadRangeChecked(bytes, offset, 4);
    Ok(FromLE(slice))
  }

  // ---- unsigned LEB128 (section 7.6 of the DWARF 5 standard) -----------------------------

  function EncodeLeb(v: nat): (bytes: seq<byte>)
    ensures |bytes| >= 1
  {
    if v < 128 then [v] else [128 + v % 128] + EncodeLeb(v / 128)
  }

  /** `append_u64_leb128`. */
  method AppendU64Leb128(prefix: seq<byte>, v: u64) returns (out: seq<byte>)
    ensures out == prefix + EncodeLeb(v)
  {
    out := prefix;
    var value: nat := v;
    while true
      invariant out + EncodeLeb(value) == prefix + EncodeLeb(v)
      decreases value
    {
      var low: byte := value % 128;
      var rest := value / 128;
      if rest != 0 {
        low := low + 128;
      }
      ghost var before := out;
      out := out + [low];
      assert before + EncodeLeb(value) == out + (if rest == 0 then [] else EncodeLeb(rest));
      value := rest;
      if value == 0 {
        break;
      }
    }
  }

  /** The value and the number of bytes used, reading groups from bit position `shift` on. The
      value is relative to that position. Overlong forms are accepted. */
  function DecodeLebFrom(bytes: seq<byte>, shift: nat): (r: Result<(nat, nat)>)
    requires shift < 64
    ensures r.Ok? ==> 1 <= r.value.1 <= |bytes|
    ensures r.Ok? ==> r.value.0 < Pow2(64 - shift)
    decreases |bytes|
  {
    if bytes == [] then Err(BufferTooShort)
    else
      var low := bytes[0] % 128;
      var remaining := 64 - shift;
      if remaining < 7 && low >= Pow2(remaining) then Err(ArithOverflow)
      else if bytes[0] < 128 then
        assert low < Pow2(remaining) by { if remaining >= 7 { Pow2Plus7(remaining - 7); } }
        Ok((low, 1))
      else if shift + 7 >= 64 then Err(ArithOverflow)
      else
        var rest :- DecodeLebFrom(bytes[1..], shift + 7);
        assert Pow2(remaining) == 128 * Pow2(remaining - 7) by { Pow2Plus7(remaining - 7); }
        Ok((low + 128 * rest.0, 1 + rest.1))
  }

  function DecodeLeb(bytes: seq<byte>): (r: Result<(nat, nat)>)
    ensures r.Ok? ==> 1 <= r.value.1 <= |bytes| && r.value.0 < TWO_64
  {
    Pow2Values();
    DecodeLebFrom(bytes, 0)
  }

  /** The result of a scan that has read `i` bytes into `value` and still has to read `rest`. */
  ghost function Resume(value: nat, i: nat, shift: nat, rest: Result<(nat, nat)>): Result<(nat, nat)> {
    if rest.Err? then Err(rest.error)
    else Ok((value + Shl(rest.value.0, shift), i + rest.value.1))
  }

  /** `decode_u64_leb128`: the loop that ORs shifted groups together computes `DecodeLeb`. */
  method DecodeU64Leb128(bytes: seq<byte>) returns (r: Result<(nat, nat)>)
    ensures r == DecodeLeb(bytes)
  {
    hide Pow2, Or;
    assert Pow2(0) == 1 by { Pow2Zero(); }
    var value: nat := 0;
    var shift: nat := 0;
    for i := 0 to |bytes|
      invariant shift < 64 && value < Pow2(shift)
      invariant DecodeLeb(bytes) == Resume(value, i, shift, DecodeLebFrom(bytes[i..], shift))
    {
      var low: nat := bytes[i] % 128;
      var remaining := 64 - shift;
      assert bytes[i..][1..] == bytes[i + 1..];
      if remaining < 7 && low >= Pow2(remaining) {
        return Err(ArithOverflow);
      }
      OrDisjoint(value, low, shift);
      var next := Or(value, Shl(low, shift));
      if bytes[i] < 128 {
        return Ok((next, i + 1));
      }
      if shift + 7 >= 64 {
        return Err(ArithOverflow);
      }
      ResumeStep(bytes[i..], value, i, shift);
      NextGroupBound(value, low, shift);
      value, shift := next, shift + 7;
    }
    return Err(BufferTooShort);
  }

  lemma ResumeStep(bytes: seq<byte>, value: nat, i: nat, shift: nat)
    requires bytes != [] && bytes[0] >= 128 && shift + 7 < 64
    ensures Resume(value, i, shift, DecodeLebFrom(bytes, shift)) ==
            Resume(value + Shl(bytes[0] % 128, shift), i + 1, shift + 7, DecodeLebFrom(bytes[1..], shift + 7))
  {
    var rest := DecodeLebFrom(bytes[1..], shift + 7);
    if rest.Ok? {
      LebStep(bytes[0] % 128, rest.value.0, shift);
    }
  }

  lemma NextGroupBound(value: nat, low: nat, shift: nat)
    requires value < Pow2(shift) && low < 128
    ensures value + Shl(low, shift) < Pow2(shift + 7)
  {
    Pow2Values();
    ShlBound(low, 7, shift);
  }

  lemma {:induction false} ShlAdd(a: nat, b: nat, n: nat)
    ensures Shl(a + b, n) == Shl(a, n) + Shl(b, n)
  {
    if n > 0 {
      ShlAdd(a, b, n - 1);
    }
  }

  lemma {:induction false} ShlShl(a: nat, n: nat, m: nat)
    ensures Shl(Shl(a, m), n) == Shl(a, n + m)
  {
    if n > 0 {
      ShlShl(a, n - 1, m);
    }
  }

  lemma LebStep(low: nat, rest: nat, shift: nat)
    ensures Shl(low + 128 * rest, shift) == Shl(low, shift) + Shl(rest, shift + 7)
  {
    ShlAdd(low, 128 * rest, shift);
    ShlShl(rest, shift, 7);
    ShlMul(rest, 7);
    Pow2Plus7(0);
  }

  /** Decoding stops exactly after the encoding, whatever follows it. */
  lemma LebRoundTrip(v: u64, suffix: seq<byte>)
    ensures DecodeLeb(EncodeLeb(v) + suffix) == Ok((v, |EncodeLeb(v)|))
    ensures |EncodeLeb(v)| <= 10
  {
    Pow2Values();
    LebRoundTripFrom(v, 0, 10, suffix);
  }

  lemma {:induction false} LebRoundTripFrom(v: nat, shift: nat, groups: nat, suffix: seq<byte>)
    requires shift + 7 * groups == 70 && groups >= 1
    requires v < Pow2(64 - shift)
    ensures DecodeLebFrom(EncodeLeb(v) + suffix, shift) == Ok((v, |EncodeLeb(v)|))
    ensures |EncodeLeb(v)| <= groups
    decreases groups
  {
    hide Pow2;
    if v < 128 {
      assert (EncodeLeb(v) + suffix)[0] == v;
    } else {
      LastGroupSmall(v, shift, groups);
      if groups > 1 {
        Pow2Plus7(57 - shift);
        LebRoundTripFrom(v / 128, shift + 7, groups - 1, suffix);
        LebSecondGroup(v, suffix);
      }
    }
  }

  lemma LastGroupSmall(v: nat, shift: nat, groups: nat)
    requires shift + 7 * groups == 70 && groups >= 1 && v < Pow2(64 - shift)
    ensures groups == 1 ==> v < 2
  {
    assert Pow2(1) == 2;
  }

  lemma LebSecondGroup(v: nat, suffix: seq<byte>)
    requires v >= 128
    ensures var bytes := EncodeLeb(v) + suffix;
      bytes[0] == 128 + v % 128 && bytes[1..] == EncodeLeb(v / 128) + suffix
  {
  }

  lemma LebInjective(v: u64, w: u64)
    requires EncodeLeb(v) == EncodeLeb(w)
    ensures v == w
  {
    LebRoundTrip(v, []);
    LebRoundTrip(w, []);
    assert EncodeLeb(v) + [] == EncodeLeb(w) + [];
  }
}
