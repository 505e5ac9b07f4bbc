/** Packed bit buffers: Arrow's validity and boolean layout, least significant bit first. */
module BitPacking {
  import opened Wrappers
  import opened Bits

  function BitpackedLen(len: nat): nat {
    (len + 7) / 8
  }

  /** Bits `start + j ..` of `bits`, up to the end of their byte, as a number. */
  function PackByte(bits: seq<bool>, start: nat, j: nat): (b: nat)
    ensures j <= 8 ==> b < Pow2(8 - j)
    decreases 8 - j
  {
    if j >= 8 then 0
    else (if start + j < |bits| && bits[start + j] then 1 else 0) + 2 * PackByte(bits, start, j + 1)
  }

  function PackBits(bits: seq<bool>): (bytes: seq<byte>)
    ensures |bytes| == BitpackedLen(|bits|)
  {
    Pow2Values();
    seq(BitpackedLen(|bits|), k requires k >= 0 => PackByte(bits, 8 * k, 0))
  }

  lemma {:induction false} PackByteBit(bits: seq<bool>, start: nat, j: nat, i: nat)
    requires j <= 8
    ensures Bit(PackByte(bits, start, j), i) <==> j + i < 8 && start + j + i < |bits| && bits[start + j + i]
    decreases 8 - j
  {
    if j == 8 {
      ZeroBits(i);
    } else if i > 0 {
      PackByteBit(bits, start, j + 1, i - 1);
    }
  }

  lemma PackedBit(bits: seq<bool>, k: nat, i: nat)
    requires k < BitpackedLen(|bits|)
    ensures Bit(PackBits(bits)[k], i) <==> i < 8 && 8 * k + i < |bits| && bits[8 * k + i]
  {
    PackByteBit(bits, 8 * k, 0, i);
  }

  /** Two buffers with the same bits are the same buffer. */
  lemma BytesFromBits(a: seq<byte>, b: seq<byte>)
    requires |a| == |b|
    requires forall k: nat, i: nat :: k < |a| ==> Bit(a[k], i) == Bit(b[k], i)
    ensures a == b
  {
    forall k: nat | k < |a| ensures a[k] == b[k] {
      BitsDetermine(a[k], b[k]);
    }
  }

  /** `bytes[index / 8] |= 1 << (index % 8)` sets bit `index` and nothing else. */
  lemma SetPackedBit(bits: seq<bool>, index: nat)
    requires index < |bits|
    ensures var byteIndex := index / 8;
      && Or(PackBits(bits)[byteIndex], Pow2(index % 8)) < 256
      && PackBits(bits)[byteIndex := Or(PackBits(bits)[byteIndex], Pow2(index % 8))] == PackBits(bits[index := true])
  {
    var k, i := index / 8, index % 8;
    var before, after := PackBits(bits), PackBits(bits[index := true]);
    forall j: nat ensures Bit(Or(before[k], Pow2(i)), j) == Bit(after[k], j) {
      OrBit(before[k], Pow2(i), j);
      Pow2Bit(i, j);
      PackedBit(bits, k, j);
      PackedBit(bits[index := true], k, j);
    }
    BitsDetermine(Or(before[k], Pow2(i)), after[k]);
    forall m: nat, j: nat | m < |before| && m != k ensures Bit(before[m], j) == Bit(after[m], j) {
      PackedBit(bits, m, j);
      PackedBit(bits[index := true], m, j);
    }
    BytesFromBits(before[k := Or(before[k], Pow2(i))], after);
  }

  function Falses(n: nat): (bits: seq<bool>)
    ensures |bits| == n && forall i :: 0 <= i < n ==> !bits[i]
  {
    seq(n, _ => false)
  }

  lemma PackedFalses(n: nat)
    ensures PackBits(Falses(n)) == seq(BitpackedLen(n), _ => 0)
  {
    var zeros: seq<byte> := seq(BitpackedLen(n), _ => 0);
    forall k: nat, i: nat | k < |zeros| ensures Bit(PackBits(Falses(n))[k], i) == Bit(zeros[k], i) {
      PackedBit(Falses(n), k, i);
      ZeroBits(i);
    }
    BytesFromBits(PackBits(Falses(n)), zeros);
  }

  /** `set_packed_bit`. */
  method SetBitAt(bytes: seq<byte>, index: nat, ghost bits: seq<bool>) returns (r: seq<byte>)
    requires index < |bits| && bytes == PackBits(bits)
    ensures r == PackBits(bits[index := true])
  {
    SetPackedBit(bits, index);
    r := bytes[index / 8 := Or(bytes[index / 8], Pow2(index % 8))];
  }

  /** Set the bit behind the bits written so far, or leave it clear. */
  method WriteNext(bytes: seq<byte>, pos: nat, bit: bool, ghost done: seq<bool>, ghost len: nat) returns (r: seq<byte>)
    requires |done| == pos < len && bytes == PackBits(done + Falses(len - pos))
    ensures r == PackBits(done + [bit] + Falses(len - pos - 1))
  {
    PadOpen(done, len - pos);
    PadSet(done, Falses(len - pos - 1));
    hide PackBits, Falses;
    if bit {
      r := SetBitAt(bytes, pos, done + [false] + Falses(len - pos - 1));
    } else {
      r := bytes;
    }
  }

  // ---- the validity builder -----------------------------------------------------------------

  function CountFalse(bits: seq<bool>): nat {
    if bits == [] then 0 else CountFalse(bits[..|bits| - 1]) + (if bits[|bits| - 1] then 0 else 1)
  }

  datatype NullBuffer = NullBuffer(bytes: seq<byte>, len: nat, nullCount: nat)

  /** The null buffer of a column with these validity flags: none when nothing is null. */
  function NullsOf(valid: seq<bool>): Option<NullBuffer> {
    if CountFalse(valid) == 0 then None else Some(NullBuffer(PackBits(valid), |valid|, CountFalse(valid)))
  }

  lemma PadOpen(contents: seq<bool>, pad: nat)
    requires pad > 0
    ensures contents + Falses(pad) == contents + [false] + Falses(pad - 1)
  {
    assert Falses(pad) == [false] + Falses(pad - 1);
  }

  lemma PadSet(contents: seq<bool>, rest: seq<bool>)
    ensures (contents + [false] + rest)[|contents| := true] == contents + [true] + rest
  {
  }

  lemma CountSnoc(contents: seq<bool>, b: bool)
    ensures CountFalse(contents + [b]) == CountFalse(contents) + (if b then 0 else 1)
  {
    assert (contents + [b])[..|contents|] == contents;
  }

  class ArrowValidityBuilder {
    var bytes: seq<byte>
    var len: nat
    var pos: nat
    var nullCount: nat
    ghost var contents: seq<bool>

    ghost predicate Valid()
      reads this
    {
      && |contents| == pos <= len
      && bytes == PackBits(contents + Falses(len - pos))
      && nullCount == CountFalse(contents)
    }

    constructor (len: nat)
      ensures Valid() && this.len == len && contents == []
    {
      PackedFalses(len);
      hide PackBits, Falses;
      this.len := len;
      pos := 0;
      nullCount := 0;
      contents := [];
      bytes := seq(BitpackedLen(len), _ => 0);
      assert [] + Falses(len) == Falses(len);
    }

    /** `append`: one validity bit per row, and a null counted for every false bit. */
    method Append(isValid: bool)
      requires Valid() && pos < len
      modifies this
      ensures Valid() && len == old(len) && contents == old(contents) + [isValid]
    {
      CountSnoc(contents, isValid);
      hide PackBits, Falses, CountFalse;
      bytes := WriteNext(bytes, pos, isValid, contents, len);
      if !isValid {
        nullCount := nullCount + 1;
      }
      pos := pos + 1;
      contents := contents + [isValid];
    }

    /** `finish`: no buffer without nulls; otherwise the null count is the number of zero bits. */
    method Finish() returns (r: Option<NullBuffer>)
      requires Valid() && pos == len
      ensures r == NullsOf(contents)
    {
      assert contents + Falses(0) == contents;
      if nullCount == 0 {
        return None;
      }
      return Some(NullBuffer(bytes, len, nullCount));
    }
  }

  method NewBuilder(hasNulls: bool, len: nat) returns (builder: ArrowValidityBuilder?)
    ensures builder == null <==> !hasNulls
    ensures builder != null ==> fresh(builder) && builder.Valid() && builder.len == len && builder.contents == []
  {
    hide PackBits;
    builder := null;
    if hasNulls {
      builder := new ArrowValidityBuilder(len);
    }
  }

  /** Reading a null buffer back gives the validity flag of row `8 * k + j`. */
  lemma NullsReadBack(valid: seq<bool>, k: nat, j: nat)
    requires j < 8 && 8 * k + j < |valid|
    ensures NullsOf(valid).None? ==> valid[8 * k + j]
    ensures NullsOf(valid).Some? ==> (Bit(NullsOf(valid).value.bytes[k], j) <==> valid[8 * k + j])
  {
    PackedBit(valid, k, j);
    hide PackBits, Bit;
    if CountFalse(valid) == 0 {
      NoneFalse(valid, 8 * k + j);
    }
  }

  lemma {:induction false} NoneFalse(valid: seq<bool>, i: nat)
    requires i < |valid| && CountFalse(valid) == 0
    ensures valid[i]
  {
    if i < |valid| - 1 {
      NoneFalse(valid[..|valid| - 1], i);
    }
  }
}
