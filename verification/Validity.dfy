/** COVE null bitmaps (`validity.rs`): a set bit means null. */
module Validity {
  import opened Wrappers
  import opened Bits
  import opened BitScan
  import opened Wire

  datatype Bitmap = Bitmap(bytes: seq<byte>, rowCount: u64)

  /** `(byte >> bit) & 1 == 1`. */
  function NullBit(bytes: seq<byte>, row: nat): bool {
    row / 8 < |bytes| && Bit(bytes[row / 8], row % 8)
  }

  function IsNull(bitmap: Bitmap, row: nat): Result<bool> {
    if row >= bitmap.rowCount then Err(OffsetRange)
    else if row / 8 >= |bitmap.bytes| then Err(OffsetRange)
    else Ok(NullBit(bitmap.bytes, row))
  }

  function CountTrue(bits: seq<bool>): nat {
    if bits == [] then 0 else (if bits[0] then 1 else 0) + CountTrue(bits[1..])
  }

  lemma {:induction false} CountTrueAppend(a: seq<bool>, b: seq<bool>)
    ensures CountTrue(a + b) == CountTrue(a) + CountTrue(b)
  {
    if a == [] {
      assert a + b == b;
    } else {
      CountTrueAppend(a[1..], b);
      assert (a + b)[1..] == a[1..] + b;
    }
  }

  function WordBits(w: nat, n: nat): (bits: seq<bool>)
    ensures |bits| == n && forall i :: 0 <= i < n ==> bits[i] == Bit(w, i)
  {
    seq(n, i requires i >= 0 => Bit(w, i))
  }

  /** The population count of an `n`-bit word counts its set bits. */
  lemma {:induction false} CountOnesBits(w: nat, n: nat)
    requires w < Pow2(n)
    ensures CountOnes(w) == CountTrue(WordBits(w, n))
  {
    if n > 0 {
      CountOnesBits(w / 2, n - 1);
      assert WordBits(w, n)[1..] == WordBits(w / 2, n - 1);
    }
  }

  lemma {:induction false} DigitBit(a: nat, lo: nat, n: nat, i: nat)
    requires lo < Pow2(n)
    ensures Bit(Shl(a, n) + lo, i) == if i < n then Bit(lo, i) else Bit(a, i - n)
  {
    if n > 0 {
      var w := Shl(a, n) + lo;
      assert w / 2 == Shl(a, n - 1) + lo / 2 && w % 2 == lo % 2;
      if i > 0 {
        DigitBit(a, lo / 2, n - 1, i - 1);
      }
    }
  }

  /** Bit `i` of a little-endian word is bit `i % 8` of its byte `i / 8`. */
  lemma {:induction false} FromLEBit(bytes: seq<byte>, i: nat)
    ensures Bit(FromLE(bytes), i) == NullBit(bytes, i)
  {
    hide Bit, Shl, Pow2;
    if bytes == [] {
      ZeroBits(i);
    } else {
      var rest := FromLE(bytes[1..]);
      Pow2Values();
      assert Shl(rest, 8) == 256 * rest by { ShlMul(rest, 8); }
      DigitBit(rest, bytes[0], 8, i);
      if i >= 8 {
        FromLEBit(bytes[1..], i - 8);
        assert (i - 8) / 8 == i / 8 - 1 && (i - 8) % 8 == i % 8;
      }
    }
  }

  /** The first `n` null bits. */
  function NullBits(bytes: seq<byte>, n: nat): (bits: seq<bool>)
    ensures |bits| == n && forall i :: 0 <= i < n ==> bits[i] == NullBit(bytes, i)
  {
    seq(n, i requires i >= 0 => NullBit(bytes, i))
  }

  /** The number of rows that are null. */
  function NullRows(bitmap: Bitmap): nat {
    CountTrue(NullBits(bitmap.bytes, bitmap.rowCount))
  }

  /** How many bits `null_count` looks at: when the bytes fill whole words, the padding is included. */
  function CountedBits(rowCount: nat): nat {
    var needed := (rowCount + 7) / 8;
    if needed % 8 == 0 then 8 * needed else rowCount
  }

  lemma WordCount(bytes: seq<byte>, at: nat)
    requires at + 8 <= |bytes|
    ensures var w := FromLE(bytes[at..at + 8]);
      w < Pow2(64) && NullBits(bytes, 8 * at) + WordBits(w, 64) == NullBits(bytes, 8 * at + 64)
  {
    hide Bit, FromLE, Pow2;
    var word := bytes[at..at + 8];
    ToFromLE(word);
    Pow256Values();
    Pow2Values();
    forall i: nat | i < 64 ensures Bit(FromLE(word), i) == NullBit(bytes, 8 * at + i) {
      FromLEBit(word, i);
      assert (8 * at + i) / 8 == at + i / 8 && (8 * at + i) % 8 == i % 8;
    }
    hide NullBit;
  }

  lemma TailCount(bytes: seq<byte>, at: nat, len: nat, tailBits: nat)
    requires at + len <= |bytes| && tailBits <= 8 * len <= 56
    ensures var w := FromLE(bytes[at..at + len]);
      && And(w, Pow2(tailBits) - 1) < Pow2(tailBits)
      && NullBits(bytes, 8 * at) + WordBits(And(w, Pow2(tailBits) - 1), tailBits) == NullBits(bytes, 8 * at + tailBits)
  {
    hide Bit, FromLE, Pow2, And;
    var tail := bytes[at..at + len];
    var w := FromLE(tail);
    var masked := And(w, Pow2(tailBits) - 1);
    AndBound(w, Pow2(tailBits) - 1);
    forall i: nat | i < tailBits ensures Bit(masked, i) == NullBit(bytes, 8 * at + i) {
      AndBit(w, Pow2(tailBits) - 1, i);
      LowMaskBit(tailBits, i);
      FromLEBit(tail, i);
      assert (8 * at + i) / 8 == at + i / 8 && (8 * at + i) % 8 == i % 8;
    }
  }

  lemma NoBits(bytes: seq<byte>)
    ensures CountTrue(NullBits(bytes, 0)) == 0
  {
  }

  /** `null_count`, a population count over 8-byte words and a masked tail word. */
  method NullCount(bitmap: Bitmap) returns (r: Result<nat>)
    ensures r == NullCountOf(bitmap)
  {
    hide FromLE, CountOnes, And, NullBits, WordBits, CountTrue, Pow2;
    assert CountTrue(NullBits(bitmap.bytes, 0)) == 0 by { NoBits(bitmap.bytes); }
    if bitmap.rowCount + 7 >= TWO_64 {
      return Err(ArithOverflow);
    }
    var needed := (bitmap.rowCount + 7) / 8;
    var bytes := bitmap.bytes;
    if |bytes| < needed {
      return Err(BufferTooShort);
    }
    var fullWords := needed / 8;
    var count := 0;
    for k := 0 to fullWords
      invariant count == CountTrue(NullBits(bytes, 64 * k))
    {
      var word := FromLE(bytes[8 * k..8 * k + 8]);
      WordCount(bytes, 8 * k);
      CountOnesBits(word, 64);
      CountTrueAppend(NullBits(bytes, 64 * k), WordBits(word, 64));
      count := count + CountOnes(word);
    }
    if fullWords * 8 < needed {
      var tailBits := bitmap.rowCount - fullWords * 64;
      var word := FromLE(bytes[fullWords * 8..needed]);
      TailCount(bytes, fullWords * 8, needed - fullWords * 8, tailBits);
      word := And(word, Pow2(tailBits) - 1);
      CountOnesBits(word, tailBits);
      CountTrueAppend(NullBits(bytes, 64 * fullWords), WordBits(word, tailBits));
      count := count + CountOnes(word);
    }
    return Ok(count);
  }

  function NullCountOf(bitmap: Bitmap): Result<nat> {
    if bitmap.rowCount + 7 >= TWO_64 then Err(ArithOverflow)
    else if |bitmap.bytes| < (bitmap.rowCount + 7) / 8 then Err(BufferTooShort)
    else Ok(CountTrue(NullBits(bitmap.bytes, CountedBits(bitmap.rowCount))))
  }

  /** The padding bits that a full last word exposes. */
  predicate PaddingClear(bitmap: Bitmap) {
    forall i :: bitmap.rowCount <= i < CountedBits(bitmap.rowCount) ==> !NullBit(bitmap.bytes, i)
  }

  /** Padding is exposed only when 57 to 63 rows are left for the last word. */
  lemma ExposedPadding(rowCount: nat)
    ensures CountedBits(rowCount) >= rowCount
    ensures CountedBits(rowCount) > rowCount <==> 57 <= rowCount % 64 <= 63
  {
    var q, r := rowCount / 64, rowCount % 64;
    assert rowCount == 64 * q + r;
    assert (rowCount + 7) / 8 == 8 * q + (r + 7) / 8;
  }

  lemma PaddingView(bitmap: Bitmap, m: nat, padding: seq<bool>)
    requires bitmap.rowCount <= m == CountedBits(bitmap.rowCount)
    requires padding == NullBits(bitmap.bytes, m)[bitmap.rowCount..]
    ensures PaddingClear(bitmap) <==> forall k :: 0 <= k < |padding| ==> !padding[k]
  {
    hide NullBit, CountedBits;
    assert forall i :: bitmap.rowCount <= i < m ==> padding[i - bitmap.rowCount] == NullBit(bitmap.bytes, i);
  }

  /** The count is the number of null rows exactly when no exposed padding bit is set. */
  lemma NullCountExact(bitmap: Bitmap)
    requires NullCountOf(bitmap).Ok?
    ensures NullCountOf(bitmap).value == NullRows(bitmap) <==> PaddingClear(bitmap)
    ensures NullCountOf(bitmap).value >= NullRows(bitmap)
  {
    ExposedPadding(bitmap.rowCount);
    hide NullBit, CountTrue, CountedBits;
    var n, m := bitmap.rowCount, CountedBits(bitmap.rowCount);
    var padding := NullBits(bitmap.bytes, m)[n..];
    assert NullBits(bitmap.bytes, m) == NullBits(bitmap.bytes, n) + padding;
    CountTrueAppend(NullBits(bitmap.bytes, n), padding);
    CountZero(padding);
    PaddingView(bitmap, m, padding);
  }

  lemma {:induction false} CountZero(bits: seq<bool>)
    ensures CountTrue(bits) == 0 <==> forall k :: 0 <= k < |bits| ==> !bits[k]
  {
    if bits != [] {
      CountZero(bits[1..]);
      assert forall k :: 0 < k < |bits| ==> bits[k] == bits[1..][k - 1];
    }
  }

  lemma PaddingBits(bytes: seq<byte>, i: nat)
    requires bytes == [0, 0, 0, 0, 0, 0, 0, 0x80] && i < 64
    ensures NullBit(bytes, i) <==> i == 63
  {
    assert Pow2(7) == 0x80 by { Pow2Values(); }
    hide Bit, Pow2;
    ZeroBits(i % 8);
    Pow2Bit(7, i % 8);
  }

  lemma OnlyLastBit(bytes: seq<byte>, n: nat)
    requires n <= 64 && forall i :: 0 <= i < 64 ==> (NullBit(bytes, i) <==> i == 63)
    ensures CountTrue(NullBits(bytes, n)) == 0 <==> n < 64
  {
    hide NullBit;
    CountZero(NullBits(bytes, n));
    if n == 64 {
      assert NullBits(bytes, n)[63];
    }
  }

  /** A 60-row bitmap without a null row, counted as having one. */
  lemma PaddingCounted()
    ensures var bitmap := Bitmap([0, 0, 0, 0, 0, 0, 0, 0x80], 60);
      NullRows(bitmap) == 0 && NullCountOf(bitmap).Ok? && NullCountOf(bitmap).value > 0
  {
    var bytes: seq<byte> := [0, 0, 0, 0, 0, 0, 0, 0x80];
    hide NullBit, CountTrue, NullBits;
    forall i: nat | i < 64 ensures NullBit(bytes, i) <==> i == 63 {
      PaddingBits(bytes, i);
    }
    OnlyLastBit(bytes, 60);
    OnlyLastBit(bytes, 64);
  }
}
