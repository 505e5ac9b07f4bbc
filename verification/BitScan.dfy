/** Walking the set bits of a word by clearing the lowest one, and the counts that go with it. */
module BitScan {
  import opened Sequences
  import opened Bits

  /** `trailing_zeros` of a nonzero word. */
  function TrailingZeros(w: nat): (n: nat)
    requires w > 0
  {
    if w % 2 == 1 then 0 else 1 + TrailingZeros(w / 2)
  }

  /** The index of the highest set bit: `63 - leading_zeros` for a 64-bit word. */
  function TopBit(w: nat): (n: nat)
    requires w > 0
  {
    if w == 1 then 0 else 1 + TopBit(w / 2)
  }

  function CountOnes(w: nat): nat {
    if w == 0 then 0 else CountOnes(w / 2) + w % 2
  }

  lemma {:induction false} LowestBit(w: nat, i: nat)
    requires w > 0
    ensures Bit(w, TrailingZeros(w))
    ensures Bit(w, i) ==> i >= TrailingZeros(w)
  {
    if w % 2 == 0 {
      LowestBit(w / 2, if i > 0 then i - 1 else 0);
    }
  }

  lemma {:induction false} HighestBit(w: nat, i: nat)
    requires w > 0
    ensures Bit(w, TopBit(w))
    ensures Bit(w, i) ==> i <= TopBit(w)
  {
    if w == 1 {
      if i > 0 {
        ZeroBits(i - 1);
      }
    } else {
      HighestBit(w / 2, if i > 0 then i - 1 else 0);
    }
  }

  /** `w & (w - 1)` clears exactly the lowest set bit. */
  lemma {:induction false} ClearLowest(w: nat, i: nat)
    requires w > 0
    ensures And(w, w - 1) < w
    ensures Bit(And(w, w - 1), i) <==> Bit(w, i) && i != TrailingZeros(w)
    ensures CountOnes(And(w, w - 1)) + 1 == CountOnes(w)
  {
    AndStep(w, w - 1);
    if w % 2 == 1 {
      assert (w - 1) / 2 == w / 2;
      AndSelf(w / 2);
    } else {
      assert (w - 1) / 2 == w / 2 - 1 && (w - 1) % 2 == 1;
      ClearLowest(w / 2, if i > 0 then i - 1 else 0);
    }
  }

  lemma {:induction false} AndSelf(w: nat)
    ensures And(w, w) == w
  {
    if w > 0 {
      AndSelf(w / 2);
    }
  }

  /** The set bits of a word in the order the loop visits them. */
  function SetBits(w: nat): seq<nat> {
    if w == 0 then [] else
      ClearLowest(w, 0);
      [TrailingZeros(w)] + SetBits(And(w, w - 1))
  }

  /** One step of the walk: the lowest bit, then what is left. */
  lemma SetBitsStep(w: nat) returns (rest: nat)
    requires w > 0
    ensures rest == And(w, w - 1) < w && CountOnes(rest) + 1 == CountOnes(w)
    ensures SetBits(w) == [TrailingZeros(w)] + SetBits(rest)
    ensures forall i: nat :: Bit(rest, i) <==> Bit(w, i) && i != TrailingZeros(w)
  {
    rest := And(w, w - 1);
    ClearLowest(w, 0);
    forall i: nat ensures Bit(rest, i) <==> Bit(w, i) && i != TrailingZeros(w) {
      ClearLowest(w, i);
    }
  }

  /** The loop visits every set bit once, in ascending order. */
  lemma {:induction false} SetBitsExact(w: nat)
    ensures StrictlyAscending(SetBits(w))
    ensures forall i: nat :: i in SetBits(w) <==> Bit(w, i)
    ensures |SetBits(w)| == CountOnes(w)
    decreases w
  {
    if w == 0 {
      forall i: nat ensures !Bit(w, i) {
        ZeroBits(i);
      }
    } else {
      var rest := SetBitsStep(w);
      hide And, Bit, SetBits, CountOnes, TrailingZeros;
      SetBitsExact(rest);
      LowestBit(w, 0);
      forall k | 0 <= k < |SetBits(rest)| ensures TrailingZeros(w) < SetBits(rest)[k] {
        assert SetBits(rest)[k] in SetBits(rest);
        LowestBit(w, SetBits(rest)[k]);
      }
    }
  }

  /** `mask_selection_tail`: bits at or beyond `len` are cleared in the last word. */
  function MaskSelectionTail(word: nat, len: nat): nat {
    var tailBits := len % 64;
    if tailBits == 0 then word else And(word, Pow2(tailBits) - 1)
  }

  lemma MaskedBits(word: nat, len: nat, i: nat)
    requires word < Pow2(64)
    ensures Bit(MaskSelectionTail(word, len), i) <==> Bit(word, i) && (i < if len % 64 == 0 then 64 else len % 64)
  {
    var t := len % 64;
    if t == 0 {
      if i >= 64 {
        HighBitsClear(word, 64, i);
      }
    } else {
      AndBit(word, Pow2(t) - 1, i);
      LowMaskBit(t, i);
    }
  }

  lemma {:induction false} LowMaskBit(n: nat, i: nat)
    ensures Bit(Pow2(n) - 1, i) <==> i < n
  {
    if n == 0 {
      ZeroBits(i);
    } else if i > 0 {
      LowMaskBit(n - 1, i - 1);
      assert (Pow2(n) - 1) / 2 == Pow2(n - 1) - 1;
    }
  }
}
