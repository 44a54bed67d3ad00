/**
 Sixty-four-bit unsigned words and the operators that the block code applies to
 them.  A word is a number below 2^64; its bits are its binary digits, bit zero
 being the least significant one.
 */
module WordBits {

  type Word = w: nat | w < 0x1_0000_0000_0000_0000

  const ALL_ONES: Word := 0xFFFF_FFFF_FFFF_FFFF

  function Pow2(n: nat): (r: nat)
    ensures r > 0
  {
    if n == 0 then 1 else 2 * Pow2(n - 1)
  }

  /** Bit `i` of a number. */
  predicate Bit(w: nat, i: nat) {
    if i == 0 then w % 2 == 1 else Bit(w / 2, i - 1)
  }

  /** `1 << k`. */
  function One(k: nat): Word
    requires k < 64
  {
    Pow2Of64();
    Pow2Mono(k, 64);
    Pow2(k)
  }

  /** Digit-wise disjunction. */
  function OrDigits(a: nat, b: nat): nat {
    if a == 0 && b == 0 then 0
    else (if a % 2 == 1 || b % 2 == 1 then 1 else 0) + 2 * OrDigits(a / 2, b / 2)
  }

  /** `a | b`. */
  function Or(a: Word, b: Word): Word {
    Pow2Of64();
    OrWidth(a, b, 64);
    OrDigits(a, b)
  }

  /** `a & b`, digit by digit. */
  function And(a: nat, b: nat): (r: nat)
    ensures r <= a && r <= b
  {
    if a == 0 || b == 0 then 0
    else (if a % 2 == 1 && b % 2 == 1 then 1 else 0) + 2 * And(a / 2, b / 2)
  }

  /** `~w`. */
  function Not(w: Word): Word {
    ALL_ONES - w
  }

  /** `w >> k`. */
  function Shr(w: nat, k: nat): (r: nat)
    ensures r <= w
  {
    if k == 0 then w else Shr(w / 2, k - 1)
  }

  /** Number of trailing zero bits of a non-zero word. */
  function Ctz(w: nat): nat
    requires w > 0
  {
    if w % 2 == 1 then 0 else 1 + Ctz(w / 2)
  }

  // ---------- Powers of two ----------

  lemma {:induction false} Pow2Add(m: nat, n: nat)
    ensures Pow2(m + n) == Pow2(m) * Pow2(n)
  {
    if m != 0 {
      Pow2Add(m - 1, n);
      assert Pow2(m + n) == 2 * Pow2(m - 1 + n);
    }
  }

  lemma Pow2Mono(m: nat, n: nat)
    requires m < n
    ensures Pow2(m) < Pow2(n)
  {
  }

  lemma Pow2Square(n: nat, v: nat)
    requires Pow2(n) == v
    ensures Pow2(n + n) == v * v
  {
    Pow2Add(n, n);
  }

  lemma Pow2Of64()
    ensures Pow2(64) == ALL_ONES + 1
  {
    assert Pow2(4) == 16;
    Pow2Square(4, 16);
    Pow2Square(8, 0x100);
    Pow2Square(16, 0x1_0000);
    Pow2Square(32, 0x1_0000_0000);
  }

  // ---------- Bits of the results ----------

  lemma {:induction false} ZeroBit(i: nat)
    ensures !Bit(0, i)
  {
    if i != 0 {
      ZeroBit(i - 1);
    }
  }

  lemma {:induction false} OrDigitsBit(a: nat, b: nat, i: nat)
    ensures Bit(OrDigits(a, b), i) <==> Bit(a, i) || Bit(b, i)
  {
    if a == 0 && b == 0 {
      ZeroBit(i);
    } else if i != 0 {
      OrDigitsBit(a / 2, b / 2, i - 1);
    }
  }

  lemma {:induction false} OrWidth(a: nat, b: nat, n: nat)
    requires a < Pow2(n) && b < Pow2(n)
    ensures OrDigits(a, b) < Pow2(n)
  {
    if n != 0 && !(a == 0 && b == 0) {
      OrWidth(a / 2, b / 2, n - 1);
    }
  }

  lemma {:induction false} AndBit(a: nat, b: nat, i: nat)
    ensures Bit(And(a, b), i) <==> Bit(a, i) && Bit(b, i)
  {
    if a == 0 || b == 0 {
      ZeroBit(i);
    } else if i != 0 {
      AndBit(a / 2, b / 2, i - 1);
    }
  }

  lemma {:induction false} ComplementBit(w: nat, n: nat, i: nat)
    requires w < Pow2(n) && i < n
    ensures Bit(Pow2(n) - 1 - w, i) <==> !Bit(w, i)
  {
    if i != 0 {
      assert (Pow2(n) - 1 - w) / 2 == Pow2(n - 1) - 1 - w / 2;
      ComplementBit(w / 2, n - 1, i - 1);
    }
  }

  lemma NotBit(w: Word, i: nat)
    requires i < 64
    ensures Bit(Not(w), i) <==> !Bit(w, i)
  {
    Pow2Of64();
    ComplementBit(w, 64, i);
  }

  lemma {:induction false} ShrBit(w: nat, k: nat, i: nat)
    ensures Bit(Shr(w, k), i) <==> Bit(w, i + k)
  {
    if k != 0 {
      ShrBit(w / 2, k - 1, i);
    }
  }

  lemma {:induction false} LowMaskBit(k: nat, i: nat)
    ensures Bit(Pow2(k) - 1, i) <==> i < k
  {
    if k == 0 {
      ZeroBit(i);
    } else if i != 0 {
      assert (Pow2(k) - 1) / 2 == Pow2(k - 1) - 1;
      LowMaskBit(k - 1, i - 1);
    }
  }

  lemma {:induction false} Pow2Bit(k: nat, i: nat)
    ensures Bit(Pow2(k), i) <==> i == k
  {
    if k == 0 {
      if i != 0 {
        ZeroBit(i - 1);
      }
    } else if i != 0 {
      Pow2Bit(k - 1, i - 1);
    }
  }

  lemma {:induction false} HighBitsClear(w: nat, n: nat, i: nat)
    requires w < Pow2(n) && i >= n
    ensures !Bit(w, i)
  {
    if n == 0 {
      ZeroBit(i);
    } else {
      HighBitsClear(w / 2, n - 1, i - 1);
    }
  }

  lemma WordBitsAbove63Clear(w: Word, i: nat)
    requires i >= 64
    ensures !Bit(w, i)
  {
    Pow2Of64();
    HighBitsClear(w, 64, i);
  }

  /** The trailing-zero count is the position of the lowest set bit. */
  lemma {:induction false} CtzIsFirstBit(w: nat)
    requires w > 0
    ensures Bit(w, Ctz(w))
    ensures forall i: nat | i < Ctz(w) :: !Bit(w, i)
  {
    if w % 2 == 0 {
      CtzIsFirstBit(w / 2);
    }
  }

  lemma AllOnesBit(i: nat)
    requires i < 64
    ensures Bit(ALL_ONES, i)
  {
    Pow2Of64();
    LowMaskBit(64, i);
  }

  /** `w & (1 << i)` tests bit `i`. */
  lemma TestBit(w: nat, i: nat)
    ensures And(w, Pow2(i)) != 0 <==> Bit(w, i)
  {
  }
}
