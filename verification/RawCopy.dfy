/** The raw value copies of the variable-width exporter: machine words written over one another where
    the lengths are short, and the ASCII test fused into the copy. */
module RawCopy {
  import opened Wrappers
  import opened Bits
  import opened Wire
  import opened Utf8

  /** `dst` with `bytes` written at `at`. */
  function Spliced(dst: seq<byte>, at: nat, bytes: seq<byte>): (r: seq<byte>)
    requires at + |bytes| <= |dst|
    ensures |r| == |dst|
  {
    dst[..at] + bytes + dst[at + |bytes|..]
  }

  /** Bytes `k ..` of a run written behind its first `m` bytes, overlapping them or not, complete the run. */
  lemma SpliceTwice(dst: seq<byte>, at: nat, src: seq<byte>, from: nat, k: nat, m: nat, len: nat)
    requires k <= m <= len && at + len <= |dst| && from + len <= |src|
    ensures Spliced(Spliced(dst, at, src[from..from + m]), at + k, src[from + k..from + len])
            == Spliced(dst, at, src[from..from + len])
  {
    var once := Spliced(dst, at, src[from..from + m]);
    var twice := Spliced(once, at + k, src[from + k..from + len]);
    var whole := Spliced(dst, at, src[from..from + len]);
    forall i | 0 <= i < |dst| ensures twice[i] == whole[i] {
      if at <= i < at + k {
        assert once[i] == src[from + (i - at)];
      }
    }
  }

  lemma AsciiTwice(src: seq<byte>, from: nat, k: nat, m: nat, len: nat)
    requires k <= m <= len && from + len <= |src|
    ensures IsAscii(src[from..from + len]) <==> IsAscii(src[from..from + m]) && IsAscii(src[from + k..from + len])
  {
    var whole, head, tail := src[from..from + len], src[from..from + m], src[from + k..from + len];
    assert forall i :: 0 <= i < m ==> whole[i] == head[i];
    assert forall i :: k <= i < len ==> whole[i] == tail[i - k];
    assert forall i :: 0 <= i < len - k ==> tail[i] == whole[i + k];
  }

  // ---- the high-bit masks ---------------------------------------------------------------------

  /** `0x80` in each of `n` bytes. */
  function HighBits(n: nat): nat {
    if n == 0 then 0 else 0x80 + 256 * HighBits(n - 1)
  }

  lemma HighBitsValues()
    ensures HighBits(1) == 0x80 && HighBits(2) == 0x8080 && HighBits(4) == 0x8080_8080
    ensures HighBits(8) == 0x8080_8080_8080_8080
  {
    assert HighBits(2) == 0x8080;
    assert HighBits(3) == 0x80_8080;
    assert HighBits(4) == 0x8080_8080;
    assert HighBits(5) == 0x80_8080_8080;
    assert HighBits(6) == 0x8080_8080_8080;
    assert HighBits(7) == 0x80_8080_8080_8080;
  }

  lemma ByteMask(b: byte)
    ensures And(b, 0x80) == 0 <==> b < 0x80
  {
    hide And, Pow2;
    Pow2Values();
    ByteTopBit(b / 128, b % 128);
  }

  lemma ByteTopBit(top: nat, low: nat)
    requires top < 2 && low < Pow2(7)
    ensures And(128 * top + low, 0x80) == 128 * top
  {
    Pow2Values();
    assert And(top, 1) == top;
    assert And(low, 0) == 0;
    hide And, Shl, Pow2;
    ShlMul(top, 7);
    ShlMul(1, 7);
    AndDigits(7, top, low, 1, 0);
  }

  lemma AsciiCons(head: byte, rest: seq<byte>)
    ensures IsAscii([head] + rest) <==> head < 0x80 && IsAscii(rest)
  {
    var all := [head] + rest;
    assert all[0] == head;
    assert forall i :: 0 <= i < |rest| ==> rest[i] == all[i + 1];
    assert forall i :: 0 < i < |all| ==> all[i] == rest[i - 1];
  }

  lemma MaskStep(a: nat, head: byte, m: nat)
    ensures And(head + 256 * a, 0x80 + 256 * m) == 256 * And(a, m) + And(head, 0x80)
  {
    hide And, Shl, Pow2;
    Pow2Values();
    ShlMul(a, 8);
    ShlMul(m, 8);
    AndDigits(8, a, head, m, 0x80);
    ShlMul(And(a, m), 8);
  }

  /** A little-endian word has none of the mask's bits exactly when all its bytes are ASCII. */
  lemma {:induction false} MaskTest(bytes: seq<byte>)
    ensures And(FromLE(bytes), HighBits(|bytes|)) == 0 <==> IsAscii(bytes)
  {
    if bytes == [] {
      assert FromLE(bytes) == 0 && HighBits(0) == 0;
    } else {
      hide And, IsAscii;
      var head, rest := bytes[0], bytes[1..];
      MaskTest(rest);
      ByteMask(head);
      MaskStep(FromLE(rest), head, HighBits(|rest|));
      AsciiCons(head, rest);
      assert bytes == [head] + rest;
    }
  }

  /** `(a | b) & mask` is zero exactly when both words pass the mask. */
  lemma {:induction false} OrMask(a: nat, b: nat, mask: nat)
    ensures And(Or(a, b), mask) == 0 <==> And(a, mask) == 0 && And(b, mask) == 0
  {
    hide And, Or;
    if And(Or(a, b), mask) != 0 {
      var i := SomeBit(And(Or(a, b), mask));
      MaskedBit(a, b, mask, i);
    }
    if And(a, mask) != 0 {
      var i := SomeBit(And(a, mask));
      MaskedBit(a, b, mask, i);
    }
    if And(b, mask) != 0 {
      var i := SomeBit(And(b, mask));
      MaskedBit(a, b, mask, i);
    }
  }

  lemma MaskedBit(a: nat, b: nat, mask: nat, i: nat)
    ensures Bit(And(Or(a, b), mask), i) <==> Bit(And(a, mask), i) || Bit(And(b, mask), i)
    ensures Bit(And(a, mask), i) ==> And(a, mask) != 0
    ensures Bit(And(b, mask), i) ==> And(b, mask) != 0
    ensures Bit(And(Or(a, b), mask), i) ==> And(Or(a, b), mask) != 0
  {
    AndBit(Or(a, b), mask, i);
    OrBit(a, b, i);
    AndBit(a, mask, i);
    AndBit(b, mask, i);
    ZeroBits(i);
  }

  // ---- word and block copies ------------------------------------------------------------------

  /** An unaligned load of `width` bytes and the store of the same word. */
  method CopyWord(src: seq<byte>, from: nat, dst: array<byte>, at: nat, width: nat) returns (word: nat)
    requires from + width <= |src| && at + width <= dst.Length
    modifies dst
    ensures word == FromLE(src[from..from + width])
    ensures dst[..] == Spliced(old(dst[..]), at, src[from..from + width])
  {
    word := FromLE(src[from..from + width]);
    var bytes := ToLE(word, width);
    ToFromLE(src[from..from + width]);
    forall i | 0 <= i < width {
      dst[at + i] := bytes[i];
    }
  }

  method CopyNonoverlapping(src: seq<byte>, from: nat, dst: array<byte>, at: nat, len: nat)
    requires from + len <= |src| && at + len <= dst.Length
    modifies dst
    ensures dst[..] == Spliced(old(dst[..]), at, src[from..from + len])
  {
    forall i | 0 <= i < len {
      dst[at + i] := src[from + i];
    }
  }

  /** `copy_small_varbytes_value`: up to sixteen bytes with at most two word stores. */
  method CopySmallValue(src: seq<byte>, from: nat, dst: array<byte>, at: nat, len: nat)
    requires from + len <= |src| && at + len <= dst.Length
    modifies dst
    ensures dst[..] == Spliced(old(dst[..]), at, src[from..from + len])
  {
    hide Spliced;
    ghost var before := dst[..];
    NothingSpliced(before, at, src, from);
    if len == 0 {
    } else if len == 1 || len == 2 || len == 4 || len == 8 {
      var _ := CopyWord(src, from, dst, at, len);
    } else if len == 3 {
      var _ := CopyWord(src, from, dst, at, 2);
      var _ := CopyWord(src, from + 2, dst, at + 2, 1);
      SpliceTwice(before, at, src, from, 2, 2, 3);
    } else if len <= 7 {
      var _ := CopyWord(src, from, dst, at, 4);
      var _ := CopyWord(src, from + len - 4, dst, at + len - 4, 4);
      SpliceTwice(before, at, src, from, len - 4, 4, len);
    } else if len <= 16 {
      var _ := CopyWord(src, from, dst, at, 8);
      var _ := CopyWord(src, from + len - 8, dst, at + len - 8, 8);
      SpliceTwice(before, at, src, from, len - 8, 8, len);
    } else {
      CopyNonoverlapping(src, from, dst, at, len);
    }
  }

  /** `copy_varbytes_value` and `copy_fixed_varbytes_value`. */
  method CopyValue(src: seq<byte>, from: nat, dst: array<byte>, at: nat, len: nat)
    requires from + len <= |src| && at + len <= dst.Length
    modifies dst
    ensures dst[..] == Spliced(old(dst[..]), at, src[from..from + len])
  {
    if len <= 16 {
      CopySmallValue(src, from, dst, at, len);
    } else {
      CopyNonoverlapping(src, from, dst, at, len);
    }
  }

  // ---- copies with the fused ASCII test -------------------------------------------------------

  /** Two stores of `width` bytes, from the front and up to the end, with one mask over both words. */
  method CopyTwoWordsMask(src: seq<byte>, from: nat, dst: array<byte>, at: nat, width: nat, len: nat)
    returns (mask: nat)
    requires width <= len <= 2 * width && from + len <= |src| && at + len <= dst.Length
    modifies dst
    ensures dst[..] == Spliced(old(dst[..]), at, src[from..from + len])
    ensures mask == 0 <==> IsAscii(src[from..from + len])
  {
    hide And, Or, HighBits, IsAscii, FromLE, Spliced;
    ghost var before := dst[..];
    var first := CopyWord(src, from, dst, at, width);
    var last := CopyWord(src, from + len - width, dst, at + len - width, width);
    SpliceTwice(before, at, src, from, len - width, width, len);
    AsciiTwice(src, from, len - width, width, len);
    MaskTest(src[from..from + width]);
    MaskTest(src[from + len - width..from + len]);
    OrMask(first, last, HighBits(width));
    mask := And(Or(first, last), HighBits(width));
  }

  /** `copy_small_varbytes_value_ascii_mask`: the result is zero exactly on ASCII bytes. */
  method CopySmallValueMask(src: seq<byte>, from: nat, dst: array<byte>, at: nat, len: nat) returns (mask: nat)
    requires from + len <= |src| && at + len <= dst.Length
    modifies dst
    ensures dst[..] == Spliced(old(dst[..]), at, src[from..from + len])
    ensures mask == 0 <==> IsAscii(src[from..from + len])
    decreases len, if len > 16 then 2 else 0
  {
    hide Spliced, And, HighBits, FromLE;
    ghost var before := dst[..];
    if len == 0 {
      NothingSpliced(before, at, src, from);
      mask := 0;
    } else if len == 1 || len == 2 || len == 4 || len == 8 {
      var word := CopyWord(src, from, dst, at, len);
      MaskTest(src[from..from + len]);
      mask := And(word, HighBits(len));
    } else if len == 3 {
      var first := CopyWord(src, from, dst, at, 2);
      var last := CopyWord(src, from + 2, dst, at + 2, 1);
      SpliceTwice(before, at, src, from, 2, 2, 3);
      AsciiTwice(src, from, 2, 2, 3);
      hide IsAscii, Or;
      MaskTest(src[from..from + 2]);
      MaskTest(src[from + 2..from + 3]);
      OrZero(And(first, HighBits(2)), And(last, HighBits(1)));
      mask := Or(And(first, HighBits(2)), And(last, HighBits(1)));
    } else if len <= 7 {
      mask := CopyTwoWordsMask(src, from, dst, at, 4, len);
    } else if len <= 16 {
      mask := CopyTwoWordsMask(src, from, dst, at, 8, len);
    } else {
      mask := CopyValueMask(src, from, dst, at, len);
    }
  }

  /** `copy_varbytes_value_ascii_mask` and `copy_fixed_varbytes_value_ascii_mask`. */
  method CopyValueMask(src: seq<byte>, from: nat, dst: array<byte>, at: nat, len: nat) returns (mask: nat)
    requires from + len <= |src| && at + len <= dst.Length
    modifies dst
    ensures dst[..] == Spliced(old(dst[..]), at, src[from..from + len])
    ensures mask == 0 <==> IsAscii(src[from..from + len])
    decreases len, 1
  {
    if len <= 16 {
      mask := CopySmallValueMask(src, from, dst, at, len);
    } else if len <= 64 {
      mask := CopyWordwise(src, from, dst, at, len);
    } else {
      CopyNonoverlapping(src, from, dst, at, len);
      mask := AsciiHighBitMask(src, from, len);
    }
  }

  /** Eight bytes at a time, then the tail. */
  method CopyWordwise(src: seq<byte>, from: nat, dst: array<byte>, at: nat, len: nat) returns (mask: nat)
    requires 16 < len && from + len <= |src| && at + len <= dst.Length
    modifies dst
    ensures dst[..] == Spliced(old(dst[..]), at, src[from..from + len])
    ensures mask == 0 <==> IsAscii(src[from..from + len])
    decreases len, 0
  {
    hide And, Or, HighBits, FromLE, Spliced;
    ghost var before := dst[..];
    mask := 0;
    var offset := 0;
    NothingSpliced(before, at, src, from);
    while offset + 8 <= len
      invariant offset <= len && (offset == 0 || offset >= 8)
      invariant dst[..] == Spliced(before, at, src[from..from + offset])
      invariant mask == 0 <==> IsAscii(src[from..from + offset])
    {
      hide IsAscii;
      var word := CopyWord(src, from + offset, dst, at + offset, 8);
      SpliceTwice(before, at, src, from, offset, offset, offset + 8);
      AsciiTwice(src, from, offset, offset, offset + 8);
      MaskTest(src[from + offset..from + offset + 8]);
      OrZero(mask, And(word, HighBits(8)));
      mask := Or(mask, And(word, HighBits(8)));
      offset := offset + 8;
    }
    if offset < len {
      hide IsAscii;
      var tail := CopySmallValueMask(src, from + offset, dst, at + offset, len - offset);
      SpliceTwice(before, at, src, from, offset, offset, len);
      AsciiTwice(src, from, offset, offset, len);
      OrZero(mask, tail);
      mask := Or(mask, tail);
    }
  }

  lemma NothingSpliced(dst: seq<byte>, at: nat, src: seq<byte>, from: nat)
    requires at <= |dst| && from <= |src|
    ensures Spliced(dst, at, src[from..from]) == dst
  {
    assert src[from..from] == [];
  }

  /** `ascii_high_bit_mask`. */
  method AsciiHighBitMask(src: seq<byte>, from: nat, len: nat) returns (mask: nat)
    requires from + len <= |src|
    ensures mask == 0 <==> IsAscii(src[from..from + len])
  {
    hide And, Or, HighBits, FromLE;
    mask := 0;
    var offset := 0;
    while offset + 8 <= len
      invariant offset <= len
      invariant mask == 0 <==> IsAscii(src[from..from + offset])
    {
      hide IsAscii;
      AsciiTwice(src, from, offset, offset, offset + 8);
      MaskTest(src[from + offset..from + offset + 8]);
      var word := FromLE(src[from + offset..from + offset + 8]);
      OrZero(mask, And(word, HighBits(8)));
      mask := Or(mask, And(word, HighBits(8)));
      offset := offset + 8;
    }
    while offset < len
      invariant offset <= len
      invariant mask == 0 <==> IsAscii(src[from..from + offset])
    {
      AsciiTwice(src, from, offset, offset, offset + 1);
      assert src[from + offset..from + offset + 1] == [src[from + offset]];
      ByteMask(src[from + offset]);
      OrZero(mask, And(src[from + offset], 0x80));
      mask := Or(mask, And(src[from + offset], 0x80));
      offset := offset + 1;
    }
  }
}
