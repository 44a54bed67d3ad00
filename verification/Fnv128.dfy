/** The portable 128-bit FNV-1a hash: multiplication by 32-bit limbs. */
module Fnv128 {
  import opened StreamBytes
  import opened WordBits
  import opened Arith

  const W: nat := 0x1_0000_0000
  const D: nat := 0x1_0000_0000_0000_0000
  const Q: nat := 0x1_0000_0000_0000_0000_0000_0000_0000_0000

  /** The number with these 32-bit limbs. */
  function FromLimbs(a96: nat, a64: nat, a32: nat, a00: nat): nat {
    (a96 * W + a64) * D + (a32 * W + a00)
  }

  function Prod(a: nat, b: nat): nat {
    a * b
  }

  function C96(a96: nat, a64: nat, a32: nat, a00: nat, b96: nat, b64: nat, b32: nat, b00: nat): nat {
    Prod(a96, b00) + Prod(a64, b32) + Prod(a32, b64) + Prod(a00, b96)
  }

  function C64(a64: nat, a32: nat, a00: nat, b64: nat, b32: nat, b00: nat): nat {
    Prod(a64, b00) + Prod(a32, b32) + Prod(a00, b64)
  }

  /** Limbs that disappear off the high side. */
  ghost function High(a96: nat, a64: nat, a32: nat, b96: nat, b64: nat, b32: nat): nat {
    (a96 * b96) * D + (a96 * b64 + a64 * b96) * W + (a96 * b32 + a64 * b64 + a32 * b96)
  }

  lemma Distribute(x: nat, y: nat, z: nat, w: nat)
    ensures (x + y) * (z + w) == x * z + x * w + y * z + y * w
  {
  }

  lemma Scale(x: nat, y: nat, m: nat, n: nat)
    ensures (x * m) * (y * n) == (x * y) * (m * n)
  {
  }

  /** Two limbs times two limbs. */
  lemma TwoLimbs(a1: nat, a0: nat, b1: nat, b0: nat)
    ensures (a1 * W + a0) * (b1 * W + b0) == (a1 * b1) * D + (a1 * b0 + a0 * b1) * W + a0 * b0
  {
  }

  lemma Expand(a96: nat, a64: nat, a32: nat, a00: nat, b96: nat, b64: nat, b32: nat, b00: nat)
    ensures FromLimbs(a96, a64, a32, a00) * FromLimbs(b96, b64, b32, b00)
         == High(a96, a64, a32, b96, b64, b32) * Q
            + (C96(a96, a64, a32, a00, b96, b64, b32, b00) * W + C64(a64, a32, a00, b64, b32, b00)) * D
            + (a32 * b00 + a00 * b32) * W + a00 * b00
  {
    var ah, al, bh, bl := a96 * W + a64, a32 * W + a00, b96 * W + b64, b32 * W + b00;
    Distribute(ah * D, al, bh * D, bl);
    Scale(ah, bh, D, D);
    Scale(ah, bl, D, 1);
    Scale(al, bh, 1, D);
    TwoLimbs(a96, a64, b96, b64);
    TwoLimbs(a96, a64, b32, b00);
    TwoLimbs(a32, a00, b96, b64);
    TwoLimbs(a32, a00, b32, b00);
  }

  /** A 128-bit number in two words. */
  datatype U128 = U128(hi: Word, lo: Word) {
    function Value(): nat { hi * D + lo }
  }

  /** Whether the sum of the two middle products has a carry, which the code drops. */
  predicate MiddleCarry(v: U128, f: U128) {
    var a32, a00, b32, b00 := v.lo / W, v.lo % W, f.lo / W, f.lo % W;
    Prod(a32, b00) % W + Prod(a00, b32) % W >= W
  }

  lemma LimbProduct(a: nat, b: nat)
    requires a < W && b < W
    ensures a * b < D
  {
    TimesMono(a, W - 1, b);
  }

  lemma ModOfSum(x: nat, y: nat)
    ensures (x % D + y) % D == (x + y) % D
  {
  }

  lemma ShiftedLow(t: nat)
    ensures (t * W) % D == (t % W) * W
  {
  }

  /** A multiple of a word's remainder is, modulo 2^64, the multiple of the word. */
  lemma ModOfShift(x: nat)
    ensures ((x % D) * W) % D == (x * W) % D
  {
    ShiftedLow(x % D);
    ShiftedLow(x);
    assert (x % D) % W == x % W;
  }

  /** The high word is the sum of its parts modulo 2^64, however often it is cut down on the way. */
  lemma HighWord(c96: nat, c64: nat, x1: nat, x2: nat, k: nat, h0: nat, h1: nat, h2: nat, h3: nat)
    requires h0 == (((c96 % D) * W) % D + c64 % D) % D
    requires h1 == (h0 + x1) % D && h2 == (h1 + x2) % D && h3 == (h2 + k) % D
    ensures h3 == (c96 * W + c64 + x1 + x2 + k) % D
  {
    ModOfShift(c96);
    ModOfSum(c96 * W, c64 % D);
    ModOfSum(c64, c96 * W);
    ModOfSum(c96 * W + c64, x1);
    ModOfSum(c96 * W + c64 + x1, x2);
    ModOfSum(c96 * W + c64 + x1 + x2, k);
  }

  /** The low word before the last product. */
  lemma MiddleWord(t1: nat, t2: nat, l1: nat, l2: nat)
    requires l1 == (0 + (t1 * W) % D) % D && l2 == (l1 + (t2 * W) % D) % D
    ensures l2 == ((t1 % W + t2 % W) * W) % D
  {
    ShiftedLow(t1);
    ShiftedLow(t2);
  }

  /** The low word, its carry, and the carry that is dropped. */
  lemma LowWord(s: nat, t3: nat, lo: nat, lolo: nat, k: nat)
    requires s < 2 * W && t3 < D
    requires lo == (s * W) % D && lolo == (lo + t3) % D && k == (if lolo < lo then 1 else 0)
    ensures s * W + t3 == lolo + k * D + (if s >= W then D else 0)
  {
  }

  /** What the limbs add up to, for any products. */
  lemma AddUp(high: nat, c96: nat, c64: nat, t1: nat, t2: nat, t3: nat, k: nat, hi: nat, lolo: nat, lost: nat)
    requires hi == (c96 * W + c64 + t1 / W + t2 / W + k) % D && lolo < D
    requires (t1 % W + t2 % W) * W + t3 == lolo + k * D + lost
    ensures var m := high + (c96 * W + c64 + t1 / W + t2 / W + k) / D;
            high * Q + (c96 * W + c64) * D + (t1 + t2) * W + t3 == m * Q + (hi * D + lolo) + lost
  {
  }

  /** Adds the columns into two words, step by step. */
  method AddWords(c96: nat, c64: nat, t1: nat, t2: nat, t3: nat) returns (hi: Word, lo: Word)
    ensures hi == HighOf(c96, c64, t1, t2, t3) && lo == LowOf(t1, t2, t3)
  {
    hi, lo := (((c96 % D) * W) % D + c64 % D) % D, 0;
    hi := (hi + t1 / W) % D;
    lo := (lo + (t1 * W) % D) % D;
    hi := (hi + t2 / W) % D;
    lo := (lo + (t2 * W) % D) % D;
    var lolo := (lo + t3) % D;
    if lolo < lo {
      hi := (hi + 1) % D;
    }
    lo := lolo;
  }

  /** The two words of a product. */
  method Product(v: U128, f: U128) returns (r: U128)
    ensures Prod(v.Value(), f.Value()) % Q == (r.Value() + if MiddleCarry(v, f) then D else 0) % Q
    ensures r.Value() == Prod(v.Value(), f.Value()) % Q <==> !MiddleCarry(v, f)
  {
    var a96, a64, a32, a00 := v.hi / W, v.hi % W, v.lo / W, v.lo % W;
    var b96, b64, b32, b00 := f.hi / W, f.hi % W, f.lo / W, f.lo % W;
    var c96, c64 := C96(a96, a64, a32, a00, b96, b64, b32, b00), C64(a64, a32, a00, b64, b32, b00);
    var hi, lo := AddWords(c96, c64, Prod(a32, b00), Prod(a00, b32), Prod(a00, b00));
    r := U128(hi, lo);
    ghost var limbs := Limbs(a96, a64, a32, a00, b96, b64, b32, b00);
    SplitWords(v, a96, a64, a32, a00);
    SplitWords(f, b96, b64, b32, b00);
    WordsExact(limbs);
    ExactWhen(r, Prod(v.Value(), f.Value()), MiddleCarry(v, f));
  }

  class Uint128 {
    var hi: Word
    var lo: Word

    function Get(): U128
      reads this
    {
      U128(hi, lo)
    }

    constructor (hi: Word, lo: Word)
      ensures Get() == U128(hi, lo)
    {
      this.hi, this.lo := hi, lo;
    }

    /**
     Multiplies in place.  The result is the product modulo 2^128 exactly when the middle
     products do not carry; otherwise it is too small by 2^64.
     */
    method Times(f: U128)
      modifies this
      ensures Prod(old(Get().Value()), f.Value()) % Q
           == (Get().Value() + if MiddleCarry(old(Get()), f) then D else 0) % Q
      ensures Get().Value() == Prod(old(Get().Value()), f.Value()) % Q <==> !MiddleCarry(old(Get()), f)
    {
      var v := Get();
      var words := Product(v, f);
      hi, lo := words.hi, words.lo;
    }

    /** Hashes some more bytes. */
    method Fnv1aInc(data: seq<byte>)
      modifies this
      ensures Get().Value() == FnvFrom(old(Get().Value()), data)
    {
      ghost var start := Get().Value();
      var i := 0;
      while i < |data|
        invariant i <= |data| && Get().Value() == FnvFrom(start, data[..i])
      {
        ghost var before := Get();
        XorLow(before, data[i], Xor(lo, data[i] as nat));
        lo := Xor(lo, data[i] as nat);
        ghost var v := Get();
        NoCarry(v, PRIME_128);
        Times(PRIME_128);
        FnvStep(start, data, i, before, v, Get());
        i := i + 1;
      }
      assert data[..i] == data;
    }
  }

  datatype Limbs = Limbs(a96: nat, a64: nat, a32: nat, a00: nat, b96: nat, b64: nat, b32: nat, b00: nat) {
    ghost predicate Valid() {
      a96 < W && a64 < W && a32 < W && a00 < W && b96 < W && b64 < W && b32 < W && b00 < W
    }
    ghost function Left(): nat { FromLimbs(a96, a64, a32, a00) }
    ghost function Right(): nat { FromLimbs(b96, b64, b32, b00) }
    ghost function Top(): nat { C96(a96, a64, a32, a00, b96, b64, b32, b00) }
    ghost function Upper(): nat { C64(a64, a32, a00, b64, b32, b00) }
  }

  lemma SplitWords(v: U128, a96: nat, a64: nat, a32: nat, a00: nat)
    requires a96 == v.hi / W && a64 == v.hi % W && a32 == v.lo / W && a00 == v.lo % W
    ensures a96 < W && a64 < W && a32 < W && a00 < W && FromLimbs(a96, a64, a32, a00) == v.Value()
  {
  }

  lemma CarryAdded(h2: nat, k: nat, h3: nat)
    requires h2 < D && k <= 1 && h3 == if k == 1 then (h2 + 1) % D else h2
    ensures h3 == (h2 + k) % D
  {
  }

  /** The low word before and after the last product is added. */
  function MiddleOf(t1: nat, t2: nat): nat {
    ((0 + (t1 * W) % D) % D + (t2 * W) % D) % D
  }

  function LowOf(t1: nat, t2: nat, t3: nat): nat {
    (MiddleOf(t1, t2) + t3) % D
  }

  /** The high word, cut down after every step. */
  function HighOf(top: nat, upper: nat, t1: nat, t2: nat, t3: nat): nat {
    var h0 := (((top % D) * W) % D + upper % D) % D;
    var h2 := ((h0 + t1 / W) % D + t2 / W) % D;
    if LowOf(t1, t2, t3) < MiddleOf(t1, t2) then (h2 + 1) % D else h2
  }

  /** The words add up to the columns of the product, less what is dropped. */
  lemma WordsAddUp(high: nat, top: nat, upper: nat, t1: nat, t2: nat, t3: nat, h3: nat, l3: nat)
    requires t3 < D && h3 == HighOf(top, upper, t1, t2, t3) && l3 == LowOf(t1, t2, t3)
    ensures (high * Q + (top * W + upper) * D + (t1 + t2) * W + t3) % Q
         == (h3 * D + l3 + if t1 % W + t2 % W >= W then D else 0) % Q
  {
    var h0 := (((top % D) * W) % D + upper % D) % D;
    var h1 := (h0 + t1 / W) % D;
    var h2 := (h1 + t2 / W) % D;
    var l1 := (0 + (t1 * W) % D) % D;
    var l2 := (l1 + (t2 * W) % D) % D;
    var k := if l3 < l2 then 1 else 0;
    var lost := if t1 % W + t2 % W >= W then D else 0;
    var x1, x2, s := t1 / W, t2 / W, t1 % W + t2 % W;
    CarryAdded(h2, k, h3);
    HighWord(top, upper, x1, x2, k, h0, h1, h2, h3);
    MiddleWord(t1, t2, l1, l2);
    LowWord(s, t3, l2, l3, k);
    AddUp(high, top, upper, t1, t2, t3, k, h3, l3, lost);
    var m, r := high + (top * W + upper + t1 / W + t2 / W + k) / D, h3 * D + l3 + lost;
    ModShiftQ(m, r);
  }

  /** The words that the code computes are the product modulo 2^128, less what is dropped. */
  lemma WordsExact(l: Limbs)
    requires l.Valid()
    ensures var t1, t2, t3 := Prod(l.a32, l.b00), Prod(l.a00, l.b32), Prod(l.a00, l.b00);
            Prod(l.Left(), l.Right()) % Q ==
            (HighOf(l.Top(), l.Upper(), t1, t2, t3) * D + LowOf(t1, t2, t3) + if t1 % W + t2 % W >= W then D else 0) % Q
  {
    var t1, t2, t3 := Prod(l.a32, l.b00), Prod(l.a00, l.b32), Prod(l.a00, l.b00);
    LimbProduct(l.a00, l.b00);
    Expand(l.a96, l.a64, l.a32, l.a00, l.b96, l.b64, l.b32, l.b00);
    var high, top, upper := High(l.a96, l.a64, l.a32, l.b96, l.b64, l.b32), l.Top(), l.Upper();
    var h3, l3 := HighOf(top, upper, t1, t2, t3), LowOf(t1, t2, t3);
    WordsAddUp(high, top, upper, t1, t2, t3, h3, l3);
  }

  lemma ModShiftQ(q: nat, r: nat)
    ensures (q * Q + r) % Q == r % Q
  {
  }

  lemma ExactWhen(r: U128, product: nat, carry: bool)
    requires product % Q == (r.Value() + if carry then D else 0) % Q
    ensures r.Value() == product % Q <==> !carry
  {
  }

  /** A factor whose low word has one limb never makes the middle products carry. */
  lemma NoCarry(v: U128, f: U128)
    requires f.lo < W
    ensures !MiddleCarry(v, f)
  {
  }

  /** Other factors may. */
  lemma CarryHappens()
    ensures MiddleCarry(U128(0, W + 1), U128(0, W + (W - 1)))
  {
  }

  // ---------- The hash ----------

  /** Bitwise exclusive or. */
  function Xor(x: nat, y: nat): nat
    decreases y
  {
    if y == 0 then x else (x + y) % 2 + 2 * Xor(x / 2, y / 2)
  }

  /** A bit of the exclusive or is set exactly when the bits differ. */
  lemma {:induction false} XorBit(x: nat, y: nat, i: nat)
    ensures Bit(Xor(x, y), i) <==> Bit(x, i) != Bit(y, i)
    decreases i
  {
    if y == 0 {
      ZeroBit(i);
    } else {
      var z, x', y', bit := Xor(x, y), x / 2, y / 2, (x + y) % 2;
      var more := Xor(x', y');
      XorHalf(x, y, x', y', bit, more);
      Halved(z, more, bit);
      if i > 0 {
        XorBit(x', y', i - 1);
      } else {
        Parity(x, y);
      }
    }
  }

  lemma Parity(x: nat, y: nat)
    ensures (x + y) % 2 == 1 <==> (x % 2 == 1) != (y % 2 == 1)
  {
  }

  /** The low `n` bits of `above` are zero. */
  ghost predicate Above(above: nat, n: nat) {
    n == 0 || (above % 2 == 0 && Above(above / 2, n - 1))
  }

  lemma {:induction false} MultipleAbove(q: nat, n: nat, p: nat)
    requires p == Pow2(n)
    ensures Above(q * p, n)
  {
    if n > 0 {
      var half, m := Pow2(n - 1), n - 1;
      Halves(q, half, p);
      MultipleAbove(q, m, half);
    }
  }

  lemma Halves(q: nat, half: nat, p: nat)
    requires p == 2 * half
    ensures (q * p) % 2 == 0 && (q * p) / 2 == q * half
  {
    assert q * p == 2 * (q * half);
  }

  /** Bits beyond those of `y` are left alone. */
  lemma {:induction false} XorAbove(above: nat, x: nat, y: nat, n: nat)
    requires Above(above, n) && y < Pow2(n)
    ensures Xor(above + x, y) == above + Xor(x, y)
  {
    if y > 0 {
      var a', x', y' := above / 2, x / 2, y / 2;
      XorAbove(a', x', y', n - 1);
      Shifted(x, above, a', y);
      var bit, u, v := (x + y) % 2, Xor(x', y'), Xor(a' + x', y');
      XorHalf(x, y, x', y', bit, u);
      XorHalf(above + x, y, a' + x', y', bit, v);
    }
  }

  lemma Shifted(x: nat, above: nat, a': nat, y: nat)
    requires above == 2 * a'
    ensures (above + x) / 2 == a' + x / 2 && (above + x + y) % 2 == (x + y) % 2
  {
    Halved(above + x, a' + x / 2, x % 2);
    Halved(above + x + y, a' + (x + y) / 2, (x + y) % 2);
  }

  lemma Halved(z: nat, half: nat, bit: nat)
    requires z == 2 * half + bit && bit < 2
    ensures z / 2 == half && z % 2 == bit
  {
  }

  lemma XorHalf(x: nat, y: nat, x': nat, y': nat, bit: nat, more: nat)
    requires y > 0 && x' == x / 2 && y' == y / 2 && bit == (x + y) % 2 && more == Xor(x', y')
    ensures Xor(x, y) == bit + 2 * more
  {
  }

  lemma {:induction false} XorBelow(x: nat, y: nat, n: nat)
    requires x < Pow2(n) && y < Pow2(n)
    ensures Xor(x, y) < Pow2(n)
  {
    if y > 0 {
      XorBelow(x / 2, y / 2, n - 1);
    }
  }

  const PRIME_128 := U128(16777216, 315)
  const BASIS_128 := U128(7809847782465536322, 7113472399480571277)

  /** FNV-1a over 128-bit numbers, continuing from `hash`. */
  ghost function FnvFrom(hash: nat, data: seq<byte>): nat {
    if data == [] then hash
    else Prod(Xor(FnvFrom(hash, data[..|data| - 1]), data[|data| - 1] as nat), 309485009821345068724781371) % Q
  }

  /** Offset basis and prime of the 128-bit hash. */
  ghost function Fnv1a(data: seq<byte>): nat {
    FnvFrom(144066263297769815596495629667062367629, data)
  }

  lemma {:induction false} FnvConcat(hash: nat, a: seq<byte>, b: seq<byte>)
    ensures FnvFrom(hash, a + b) == FnvFrom(FnvFrom(hash, a), b)
  {
    if b == [] {
      assert a + b == a;
    } else {
      assert (a + b)[..|a + b| - 1] == a + b[..|b| - 1];
      FnvConcat(hash, a, b[..|b| - 1]);
    }
  }

  /** Exclusive or with a byte stays in the low word. */
  lemma XorLow(v: U128, b: byte, lo: nat)
    requires lo == Xor(v.lo, b as nat)
    ensures lo < D && v.hi * D + lo == Xor(v.Value(), b as nat)
  {
    Pow2Of64();
    MultipleAbove(v.hi, 64, D);
    XorAbove(v.hi * D, v.lo, b as nat, 64);
    XorBelow(v.lo, b as nat, 64);
  }

  /** One byte, with the basis of the definition. */
  lemma FnvStep(start: nat, data: seq<byte>, i: nat, before: U128, v: U128, after: U128)
    requires i < |data| && before.Value() == FnvFrom(start, data[..i])
    requires v.hi == before.hi && v.lo == Xor(before.lo, data[i] as nat)
    requires after.Value() == Prod(v.Value(), PRIME_128.Value()) % Q
    ensures after.Value() == FnvFrom(start, data[..i + 1])
  {
    XorLow(before, data[i], v.lo);
    assert data[..i + 1][..i] == data[..i];
  }

  /** The hash of three buffers is the hash of their concatenation. */
  method Fnv1a128Of3(data1: seq<byte>, data2: seq<byte>, data3: seq<byte>) returns (r: U128)
    ensures r.Value() == Fnv1a(data1 + data2 + data3)
  {
    var hash := new Uint128(BASIS_128.hi, BASIS_128.lo);
    hash.Fnv1aInc(data1);
    hash.Fnv1aInc(data2);
    hash.Fnv1aInc(data3);
    ghost var basis, data12 := BASIS_128.Value(), data1 + data2;
    FnvConcat(basis, data1, data2);
    FnvConcat(basis, data12, data3);
    r := hash.Get();
  }
}
