/** Which null bitmaps the page writer lets through, and what a page's null count and flags say. */
module NullBitmaps {
  import opened Wrappers
  import opened Bits
  import opened BitScan
  import opened BitPacking
  import opened ConvertedColumns
  import opened Paging
  import opened PageWriter
  import Validity
  import ZoneStats
  import PageRoundTrip

  // ---- the writer's check -------------------------------------------------------------------------------

  /** The mask has exactly the bits of the last byte that stand for no row. */
  lemma PaddingMaskBits(validBits: nat, i: nat)
    requires validBits <= 8
    ensures Bit(PaddingMask(validBits), i) <==> validBits <= i < 8
  {
    hide Shl, Bit, Pow2;
    Validity.DigitBit(Pow2(8 - validBits) - 1, 0, validBits, i);
    if i < validBits {
      ZeroBits(i);
    } else {
      LowMaskBit(8 - validBits, i - validBits);
    }
  }

  /** The check of the last byte: every padding bit is clear. */
  lemma TailClearExactly(bitmap: seq<byte>, rowCount: nat)
    requires |bitmap| == BitpackedLen(rowCount)
    ensures TailClear(bitmap, rowCount) <==>
      forall i :: rowCount <= i < 8 * |bitmap| ==> !Validity.NullBit(bitmap, i)
  {
    hide Bit, And, PaddingMask;
    var valid := rowCount % 8;
    if valid != 0 {
      var last := |bitmap| - 1;
      var tail := And(bitmap[last], PaddingMask(valid));
      if tail != 0 {
        var i := SomeBit(tail);
        AndBit(bitmap[last], PaddingMask(valid), i);
        PaddingMaskBits(valid, i);
        assert Validity.NullBit(bitmap, 8 * last + i);
      } else {
        forall i | rowCount <= i < 8 * |bitmap| ensures !Validity.NullBit(bitmap, i) {
          AndBit(bitmap[last], PaddingMask(valid), i - 8 * last);
          PaddingMaskBits(valid, i - 8 * last);
          ZeroBits(i - 8 * last);
        }
      }
    }
  }

  /** A bitmap with clear padding is the packing of its own flags. */
  lemma ClearIsPacked(bitmap: seq<byte>, rowCount: nat)
    requires |bitmap| == BitpackedLen(rowCount)
    requires forall i :: rowCount <= i < 8 * |bitmap| ==> !Validity.NullBit(bitmap, i)
    ensures PackBits(Validity.NullBits(bitmap, rowCount)) == bitmap
  {
    hide Bit, PackBits;
    var flags := Validity.NullBits(bitmap, rowCount);
    var packed := PackBits(flags);
    forall k: nat, i: nat | k < |packed| ensures Bit(packed[k], i) == Bit(bitmap[k], i) {
      if i < 8 {
        PackedBit(flags, k, i);
        assert Validity.NullBit(bitmap, 8 * k + i) == Bit(bitmap[k], i);
      } else {
        NoHighBit(packed[k], i);
        NoHighBit(bitmap[k], i);
      }
    }
    BytesFromBits(packed, bitmap);
  }

  lemma NoHighBit(b: byte, i: nat)
    requires i >= 8
    ensures !Bit(b, i)
  {
    Pow2Values();
    PowEight();
    HighBitsClear(b, 8, i);
  }

  /** The writer lets a bitmap through exactly when it is the packing of some null flags, one per row, of which as many
      are set as the page says. */
  lemma BitmapAcceptedExactly(bitmap: seq<byte>, rowCount: nat, nullCount: nat)
    requires |bitmap| == BitpackedLen(rowCount) && rowCount < TWO_32
    ensures CheckBitmap(bitmap, rowCount, nullCount).Ok? <==>
      exists flags: seq<bool> :: |flags| == rowCount && PackBits(flags) == bitmap
        && Validity.CountTrue(flags) == nullCount
  {
    hide PackBits, TailClear, OnesIn;
    TailClearExactly(bitmap, rowCount);
    var flags := Validity.NullBits(bitmap, rowCount);
    if TailClear(bitmap, rowCount) {
      ClearIsPacked(bitmap, rowCount);
      PackedOnes(flags);
      CountedAtMost(flags);
    }
    forall other: seq<bool> | |other| == rowCount && PackBits(other) == bitmap && Validity.CountTrue(other) == nullCount
      ensures CheckBitmap(bitmap, rowCount, nullCount).Ok?
    {
      PackedTailClear(other);
      PackedOnes(other);
      CountedAtMost(other);
    }
  }

  lemma {:induction false} CountedAtMost(flags: seq<bool>)
    ensures Validity.CountTrue(flags) <= |flags|
  {
    if flags != [] {
      CountedAtMost(flags[1..]);
    }
  }

  // ---- a page's null count and flags --------------------------------------------------------------------

  /** A page is marked as holding no null, or nothing but nulls, exactly when that is so; an empty range counts as
      holding no null. */
  lemma FlagsSayNulls(c: Column, start: nat, len: u32, spec: PageSpec)
    requires start + len <= RowCount(c.values) && CutPage(c, start, len) == Ok(spec)
    ensures spec.flags == PAGE_FLAG_ALL_NON_NULL <==> forall row: nat :: start <= row < start + len ==> !IsNull(c, row)
    ensures spec.flags == PAGE_FLAG_ALL_NULL <==>
      len > 0 && forall row: nat :: start <= row < start + len ==> IsNull(c, row)
  {
    hide EncodeRows, PackBits;
    ZoneStats.NonNullRowsExact(c, start, len);
    var present := ZoneStats.NonNullRows(c, start, len);
    hide ZoneStats.NonNullRows;
    if spec.nullCount == 0 {
      PageRoundTrip.AllNonNull(c, start, len);
      assert len > 0 ==> !IsNull(c, start);
    } else {
      if forall row: nat :: start <= row < start + len ==> !IsNull(c, row) {
        NoneMissing(c, start, len);
      }
      if present != [] {
        assert present[0] in present;
      }
    }
  }

  lemma {:induction false} NoneMissing(c: Column, start: nat, len: nat)
    requires forall row: nat :: start <= row < start + len ==> !IsNull(c, row)
    ensures |ZoneStats.NonNullRows(c, start, len)| == len
  {
    if len > 0 {
      NoneMissing(c, start, len - 1);
      assert !IsNull(c, start + len - 1);
    }
  }
}
