/** The page writer's own check of a null bitmap (`writer/scan.rs`), which every bitmap of a converted column passes. */
module PageWriter {
  import opened Wrappers
  import opened Bits
  import opened BitScan
  import opened BitPacking
  import opened ConvertedColumns
  import opened Paging
  import Validity
  import ZoneStats

  /** The bits of the last byte that stand for no row: `!((1 << valid_bits) - 1)`. */
  function PaddingMask(validBits: nat): nat
    requires validBits <= 8
  {
    Shl(Pow2(8 - validBits) - 1, validBits)
  }

  predicate TailClear(bitmap: seq<byte>, rowCount: nat) {
    rowCount % 8 != 0 && bitmap != [] ==> And(bitmap[|bitmap| - 1], PaddingMask(rowCount % 8)) == 0
  }

  /** The sum of `count_ones` over the bytes. */
  function OnesIn(bytes: seq<byte>): nat {
    if bytes == [] then 0 else OnesIn(bytes[..|bytes| - 1]) + CountOnes(bytes[|bytes| - 1])
  }

  /** What the writer makes of the null bitmap in front of a page. */
  function CheckBitmap(bitmap: seq<byte>, rowCount: nat, nullCount: nat): Result<()> {
    if !TailClear(bitmap, rowCount) then Err(PageCorrupt)
    else if OnesIn(bitmap) >= TWO_32 then Err(ArithOverflow)
    else if OnesIn(bitmap) != nullCount then Err(PageCorrupt)
    else Ok(())
  }

  lemma PaddingMaskIsComplement(validBits: nat)
    requires validBits <= 8
    ensures PaddingMask(validBits) == 255 - (Pow2(validBits) - 1)
  {
    hide Shl, Pow2;
    ShlMul(Pow2(8 - validBits) - 1, validBits);
    Pow2Add(8 - validBits, validBits);
    Pow2Values();
    PowEight();
    MaskProduct(Pow2(8 - validBits), Pow2(validBits));
  }

  lemma PowEight()
    ensures Pow2(8) == 256
  {
    assert Pow2(4) == 16;
    Pow2Add(4, 4);
  }

  lemma MaskProduct(p: nat, q: nat)
    requires p > 0
    ensures (p - 1) * q == p * q - q
  {
  }

  lemma PaddingMaskBit(validBits: nat, i: nat)
    requires validBits <= 8 && i < validBits
    ensures !Bit(PaddingMask(validBits), i)
  {
    hide Shl, Bit, Pow2;
    Validity.DigitBit(Pow2(8 - validBits) - 1, 0, validBits, i);
    ZeroBits(i);
  }

  /** Packed flags leave the padding bits clear. */
  lemma PackedTailClear(flags: seq<bool>)
    ensures TailClear(PackBits(flags), |flags|)
  {
    hide Bit, And, PackBits, PaddingMask;
    var bitmap, valid := PackBits(flags), |flags| % 8;
    if valid != 0 && bitmap != [] {
      var last := |bitmap| - 1;
      var tail := And(bitmap[last], PaddingMask(valid));
      if tail != 0 {
        var i := SomeBit(tail);
        AndBit(bitmap[last], PaddingMask(valid), i);
        PackedBit(flags, last, i);
        PaddingMaskBit(valid, i);
      }
    }
  }

  lemma {:induction false} OnesAreBits(bytes: seq<byte>, k: nat)
    requires k <= |bytes|
    ensures OnesIn(bytes[..k]) == Validity.CountTrue(Validity.NullBits(bytes, 8 * k))
  {
    hide Bit, CountOnes, Pow2;
    if k == 0 {
      assert bytes[..k] == [];
    } else {
      OnesAreBits(bytes, k - 1);
      assert bytes[..k][..k - 1] == bytes[..k - 1];
      Pow2Values();
      var byte := bytes[k - 1];
      CountOnesByte(byte);
      NextByteBits(bytes, k - 1);
      Validity.CountTrueAppend(Validity.NullBits(bytes, 8 * (k - 1)), Validity.WordBits(byte, 8));
    }
  }

  lemma CountOnesByte(b: byte)
    ensures CountOnes(b) == Validity.CountTrue(Validity.WordBits(b, 8))
  {
    Pow2Values();
    Validity.CountOnesBits(b, 8);
  }

  lemma NextByteBits(bytes: seq<byte>, k: nat)
    requires k < |bytes|
    ensures Validity.NullBits(bytes, 8 * k + 8) == Validity.NullBits(bytes, 8 * k) + Validity.WordBits(bytes[k], 8)
  {
    hide Bit;
    var all, done, next := Validity.NullBits(bytes, 8 * k + 8), Validity.NullBits(bytes, 8 * k),
      Validity.WordBits(bytes[k], 8);
    forall i | 0 <= i < 8 * k + 8 ensures all[i] == (done + next)[i] {
      if i >= 8 * k {
        assert i / 8 == k && i % 8 == i - 8 * k;
      }
    }
  }

  /** Packed flags have as many ones as there are true flags. */
  lemma PackedOnes(flags: seq<bool>)
    ensures OnesIn(PackBits(flags)) == Validity.CountTrue(flags)
  {
    hide Bit, PackBits, OnesIn;
    var bytes := PackBits(flags);
    var bits := Validity.NullBits(bytes, 8 * |bytes|);
    assert bytes[..|bytes|] == bytes;
    OnesAreBits(bytes, |bytes|);
    var padding := bits[|flags|..];
    forall i | 0 <= i < |bits| ensures bits[i] == (i < |flags| && flags[i]) {
      PackedBit(flags, i / 8, i % 8);
    }
    assert bits == flags + padding;
    Validity.CountTrueAppend(flags, padding);
    Validity.CountZero(padding);
  }

  lemma {:induction false} FlagsCount(c: Column, start: nat, len: nat)
    ensures Validity.CountTrue(NullFlags(c, start, len)) + |ZoneStats.NonNullRows(c, start, len)| == len
  {
    if len > 0 {
      FlagsCount(c, start, len - 1);
      var before, last := NullFlags(c, start, len - 1), IsNull(c, start + len - 1);
      assert NullFlags(c, start, len) == before + [last];
      Validity.CountTrueAppend(before, [last]);
      assert [last][1..] == [];
    }
  }

  /** The bitmap of a converted page passes the writer's check. */
  lemma BitmapPasses(c: Column, start: nat, len: u32)
    ensures |ZoneStats.NonNullRows(c, start, len)| <= len
    ensures CheckBitmap(PackBits(NullFlags(c, start, len)), len, len - |ZoneStats.NonNullRows(c, start, len)|) == Ok(())
  {
    hide PackBits, TailClear, OnesIn, NullFlags, ZoneStats.NonNullRows;
    PackedTailClear(NullFlags(c, start, len));
    PackedOnes(NullFlags(c, start, len));
    FlagsCount(c, start, len);
  }
}
