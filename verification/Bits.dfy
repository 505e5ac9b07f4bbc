/** Machine-word bit operations on naturals. A `u8`, `u16`, `u32` or `u64` is a natural below the
    matching power of two; `And` and `Or` are the bitwise operations, defined bit by bit. */
module Bits {

  function Pow2(n: nat): (p: nat)
    ensures p >= 1
  {
    if n == 0 then 1 else 2 * Pow2(n - 1)
  }

  lemma {:induction false} Pow2Add(a: nat, b: nat)
    ensures Pow2(a + b) == Pow2(a) * Pow2(b)
  {
    if a > 0 {
      Pow2Add(a - 1, b);
    }
  }

  lemma Pow2Plus7(n: nat)
    ensures Pow2(n + 7) == 128 * Pow2(n)
  {
    assert Pow2(n + 2) == 4 * Pow2(n);
    assert Pow2(n + 4) == 4 * Pow2(n + 2);
    assert Pow2(n + 6) == 4 * Pow2(n + 4);
  }

  lemma Pow2Zero()
    ensures Pow2(0) == 1
  {
  }

  lemma Pow2Values()
    ensures Pow2(7) == 128 && Pow2(8) == 256 && Pow2(16) == 0x1_0000
    ensures Pow2(32) == 0x1_0000_0000 && Pow2(64) == 0x1_0000_0000_0000_0000
  {
    assert Pow2(8) == 256;
    Pow2Add(8, 8);
    Pow2Add(16, 16);
    Pow2Add(32, 32);
  }

  function Bit(w: nat, i: nat): bool {
    if i == 0 then w % 2 == 1 else Bit(w / 2, i - 1)
  }

  function And(a: nat, b: nat): nat {
    if a == 0 || b == 0 then 0
    else 2 * And(a / 2, b / 2) + (if a % 2 == 1 && b % 2 == 1 then 1 else 0)
  }

  function Or(a: nat, b: nat): nat
    decreases a + b
  {
    if a == 0 then b else if b == 0 then a
    else 2 * Or(a / 2, b / 2) + (if a % 2 == 1 || b % 2 == 1 then 1 else 0)
  }

  lemma ZeroBits(i: nat)
    ensures !Bit(0, i)
  {
  }

  lemma {:induction false} AndBit(a: nat, b: nat, i: nat)
    ensures Bit(And(a, b), i) <==> Bit(a, i) && Bit(b, i)
  {
    if a == 0 || b == 0 {
      ZeroBits(i);
    } else if i > 0 {
      AndBit(a / 2, b / 2, i - 1);
      assert And(a, b) / 2 == And(a / 2, b / 2);
    }
  }

  lemma {:induction false} OrBit(a: nat, b: nat, i: nat)
    ensures Bit(Or(a, b), i) <==> Bit(a, i) || Bit(b, i)
  {
    if a == 0 || b == 0 {
      ZeroBits(i);
    } else if i > 0 {
      OrBit(a / 2, b / 2, i - 1);
      assert Or(a, b) / 2 == Or(a / 2, b / 2);
    }
  }

  lemma OrZero(a: nat, b: nat)
    ensures Or(a, b) == 0 <==> a == 0 && b == 0
  {
  }

  /** A single bit is set exactly at its own position. */
  lemma {:induction false} Pow2Bit(n: nat, i: nat)
    ensures Bit(Pow2(n), i) <==> i == n
  {
    if i == 0 {
    } else if n == 0 {
      ZeroBits(i - 1);
    } else {
      Pow2Bit(n - 1, i - 1);
    }
  }

  /** Bits at or above the width of a word are clear. */
  lemma {:induction false} HighBitsClear(w: nat, n: nat, i: nat)
    requires w < Pow2(n) && i >= n
    ensures !Bit(w, i)
  {
    if n == 0 {
      ZeroBits(i);
    } else {
      HighBitsClear(w / 2, n - 1, i - 1);
    }
  }

  /** A nonzero word has a set bit. */
  lemma {:induction false} SomeBit(w: nat) returns (i: nat)
    requires w > 0
    ensures Bit(w, i)
  {
    if w % 2 == 1 {
      i := 0;
    } else {
      i := SomeBit(w / 2);
      i := i + 1;
    }
  }

  /** Words with the same bits are equal. */
  lemma {:induction false} BitsDetermine(a: nat, b: nat)
    requires forall i: nat :: Bit(a, i) == Bit(b, i)
    ensures a == b
  {
    if a == 0 && b > 0 {
      var i := SomeBit(b);
      ZeroBits(i);
    } else if a > 0 && b == 0 {
      var i := SomeBit(a);
      ZeroBits(i);
    } else if a > 0 {
      assert Bit(a, 0) == Bit(b, 0);
      forall i: nat ensures Bit(a / 2, i) == Bit(b / 2, i) {
        assert Bit(a, i + 1) == Bit(b, i + 1);
      }
      BitsDetermine(a / 2, b / 2);
    }
  }

  /** `a << n`, without the truncation to a word. */
  function Shl(a: nat, n: nat): nat {
    if n == 0 then a else 2 * Shl(a, n - 1)
  }

  lemma {:induction false} ShlMul(a: nat, n: nat)
    ensures Shl(a, n) == a * Pow2(n)
  {
    if n > 0 {
      ShlMul(a, n - 1);
    }
  }

  lemma {:induction false} ShlBound(a: nat, k: nat, n: nat)
    requires a < Pow2(k)
    ensures Shl(a, n) + Pow2(n) <= Pow2(n + k)
  {
    if n > 0 {
      ShlBound(a, k, n - 1);
    }
  }

  /** `a | (b << n)` is addition when `a` fits below bit `n`. */
  lemma {:induction false} OrDisjoint(a: nat, b: nat, n: nat)
    requires a < Pow2(n)
    ensures Or(a, Shl(b, n)) == a + Shl(b, n)
  {
    if n > 0 {
      OrDisjoint(a / 2, b, n - 1);
    }
  }

  lemma {:induction false} AndBound(a: nat, b: nat)
    ensures And(a, b) <= a && And(a, b) <= b
  {
    if a != 0 && b != 0 {
      AndBound(a / 2, b / 2);
    }
  }

  /** `And` works digit by digit, for digits of `n` bits. */
  lemma {:induction false} AndDigits(n: nat, a: nat, lo: nat, b: nat, lo': nat)
    requires lo < Pow2(n) && lo' < Pow2(n)
    ensures And(Shl(a, n) + lo, Shl(b, n) + lo') == Shl(And(a, b), n) + And(lo, lo')
  {
    if n > 0 {
      AndDigits(n - 1, a, lo / 2, b, lo' / 2);
      var x, y := Shl(a, n) + lo, Shl(b, n) + lo';
      assert x / 2 == Shl(a, n - 1) + lo / 2 && x % 2 == lo % 2;
      assert y / 2 == Shl(b, n - 1) + lo' / 2 && y % 2 == lo' % 2;
      AndStep(x, y);
      AndStep(lo, lo');
    }
  }

  lemma AndStep(x: nat, y: nat)
    ensures And(x, y) == 2 * And(x / 2, y / 2) + (if x % 2 == 1 && y % 2 == 1 then 1 else 0)
  {
  }

  /** `word & ((1 << n) - 1)` keeps the low `n` bits. */
  lemma {:induction false} AndLowMask(w: nat, n: nat)
    ensures And(w, Pow2(n) - 1) == w % Pow2(n)
  {
    if n == 0 {
      assert Pow2(0) - 1 == 0;
    } else {
      AndLowMask(w / 2, n - 1);
      AndStep(w, Pow2(n) - 1);
      var p := Pow2(n - 1);
      assert (2 * p - 1) / 2 == p - 1 && (2 * p - 1) % 2 == 1;
      assert And(w, Pow2(n) - 1) == 2 * ((w / 2) % p) + w % 2;
      ModHalves(w, p);
    }
  }

  lemma ModHalves(w: nat, p: nat)
    requires p > 0
    ensures w % (2 * p) == 2 * ((w / 2) % p) + w % 2
  {
    var q, r := (w / 2) / p, (w / 2) % p;
    assert w == 2 * (w / 2) + w % 2;
    assert w / 2 == q * p + r;
    var t := 2 * r + w % 2;
    assert w == q * (2 * p) + t by {
      assert q * (2 * p) == 2 * (q * p);
    }
    ModUnique(w, 2 * p, q, t);
  }

  lemma ModUnique(w: nat, m: nat, q: nat, t: nat)
    requires m > 0 && w == q * m + t && t < m
    ensures w % m == t && w / m == q
  {
    var q', t' := w / m, w % m;
    assert w == q' * m + t';
    if q' > q {
      MulGap(q', q, m);
    } else if q' < q {
      MulGap(q, q', m);
    }
  }

  lemma MulGap(a: nat, b: nat, m: nat)
    requires a > b
    ensures a * m >= b * m + m
  {
    var d := a - b - 1;
    assert a == b + 1 + d;
    assert a * m == (b + 1) * m + d * m == b * m + m + d * m;
    assert d * m >= 0;
  }
}
