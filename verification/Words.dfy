/** 64-bit words as sets of bit positions. Shifts by a variable amount are repeated shifts by one. */
module Words {

  const ONES: bv64 := 0xFFFF_FFFF_FFFF_FFFF

  function Half(w: bv64): bv64 { w >> 1 }

  predicate Odd(w: bv64) { w & 1 == 1 }

  /** Bit `i` of `w`; false from bit 64 on. */
  predicate Bit(w: bv64, i: nat) {
    if i == 0 then Odd(w) else Bit(Half(w), i - 1)
  }

  /** `w << n` */
  function Shl(w: bv64, n: nat): bv64 {
    if n == 0 then w else Shl(w, n - 1) << 1
  }

  /** `w >> n` */
  function Shr(w: bv64, n: nat): bv64 {
    if n == 0 then w else Shr(w, n - 1) >> 1
  }

  /** The mask of the `n` lowest bits. */
  function Low(n: nat): bv64
    requires n <= 64
    decreases 64 - n
  {
    if n == 64 then ONES else Low(n + 1) >> 1
  }

  lemma LowZero()
    ensures Low(0) == 0
  {
    assert Low(56) == 0x00FF_FFFF_FFFF_FFFF;
    assert Low(48) == 0x0000_FFFF_FFFF_FFFF;
    assert Low(40) == 0x0000_00FF_FFFF_FFFF;
    assert Low(32) == 0x0000_0000_FFFF_FFFF;
    assert Low(24) == 0x0000_0000_00FF_FFFF;
    assert Low(16) == 0x0000_0000_0000_FFFF;
    assert Low(8) == 0x0000_0000_0000_00FF;
  }

  lemma {:induction false} BitZero(i: nat)
    ensures !Bit(0, i)
  {
    if i > 0 { BitZero(i - 1); }
  }

  /** A word below `2^n` has no bit from `n` on. */
  lemma {:induction false} BitBeyond(w: bv64, n: nat, i: nat)
    requires n <= 64 && AtMost(w, Low(n)) && n <= i
    ensures !Bit(w, i)
    decreases i
  {
    if n == 0 {
      LowZero();
      BitZero(i);
    } else {
      hide Half, Odd, AtMost, Low;
      LowHalf(n);
      HalfMonotone(w, Low(n));
      BitBeyond(Half(w), n - 1, i - 1);
    }
  }

  predicate AtMost(a: bv64, b: bv64) { a <= b }

  lemma HalfMonotone(a: bv64, b: bv64)
    requires AtMost(a, b)
    ensures AtMost(Half(a), Half(b))
  {
  }

  lemma BitRange(w: bv64, i: nat)
    requires Bit(w, i)
    ensures i < 64
  {
    if i >= 64 { BitBeyond(w, 64, i); }
  }

  lemma {:induction false} BitOnes(i: nat)
    requires i < 64
    ensures Bit(ONES, i)
  {
    BitLow(64, i);
  }

  lemma {:induction false} BitLow(n: nat, i: nat)
    requires i < n <= 64
    ensures Bit(Low(n), i)
    decreases i
  {
    LowOdd(n);
    if i > 0 {
      LowHalf(n);
      BitLow(n - 1, i - 1);
    }
  }

  lemma LowHalf(n: nat)
    requires 0 < n <= 64
    ensures Half(Low(n)) == Low(n - 1)
  {
  }

  lemma LowOdd(n: nat)
    requires 0 < n <= 64
    ensures Low(n) & 1 == 1
  {
    LowOne();
    LowMonotone(1, n);
    LowForm(n);
    OddForm(Low(n));
  }

  lemma LowOne()
    ensures Low(1) == 1
  {
    assert Low(56) == 0x00FF_FFFF_FFFF_FFFF;
    assert Low(48) == 0x0000_FFFF_FFFF_FFFF;
    assert Low(40) == 0x0000_00FF_FFFF_FFFF;
    assert Low(32) == 0x0000_0000_FFFF_FFFF;
    assert Low(24) == 0x0000_0000_00FF_FFFF;
    assert Low(16) == 0x0000_0000_0000_FFFF;
    assert Low(8) == 0x0000_0000_0000_00FF;
  }

  lemma {:induction false} LowMonotone(m: nat, n: nat)
    requires m <= n <= 64
    ensures Low(m) <= Low(n)
    decreases n - m
  {
    if m < n { LowMonotone(m + 1, n); }
  }

  /** A mask of low bits has no bit in common with its successor. */
  lemma {:induction false} LowForm(n: nat)
    requires n <= 64
    ensures Low(n) & (Low(n) + 1) == 0
    decreases 64 - n
  {
    if n < 64 {
      LowForm(n + 1);
      HalfForm(Low(n + 1));
    }
  }

  lemma HalfForm(w: bv64)
    requires w & (w + 1) == 0
    ensures (w >> 1) & ((w >> 1) + 1) == 0
  {
  }

  lemma OddForm(w: bv64)
    requires w & (w + 1) == 0 && w >= 1
    ensures w & 1 == 1
  {
  }

  // ---------- bitwise operations, bit by bit ----------

  function And(a: bv64, b: bv64): bv64 { a & b }

  function Or(a: bv64, b: bv64): bv64 { a | b }

  function Flip(a: bv64, b: bv64): bv64 { a ^ b }

  function Not(a: bv64): bv64 { !a }

  lemma HalfAnd(a: bv64, b: bv64)
    ensures Half(And(a, b)) == And(Half(a), Half(b)) && (Odd(And(a, b)) <==> Odd(a) && Odd(b))
  {
  }

  lemma HalfOr(a: bv64, b: bv64)
    ensures Half(Or(a, b)) == Or(Half(a), Half(b)) && (Odd(Or(a, b)) <==> Odd(a) || Odd(b))
  {
  }

  lemma HalfFlip(a: bv64, b: bv64)
    ensures Half(Flip(a, b)) == Flip(Half(a), Half(b)) && (Odd(Flip(a, b)) <==> (Odd(a) != Odd(b)))
  {
  }

  /** Bit `i` of the bitwise combinations of two words. */
  lemma {:induction false} BitOps(a: bv64, b: bv64, i: nat)
    ensures Bit(And(a, b), i) <==> Bit(a, i) && Bit(b, i)
    ensures Bit(Or(a, b), i) <==> Bit(a, i) || Bit(b, i)
    ensures Bit(Flip(a, b), i) <==> (Bit(a, i) != Bit(b, i))
    decreases i
  {
    hide Half, Odd, And, Or, Flip;
    HalfAnd(a, b);
    HalfOr(a, b);
    HalfFlip(a, b);
    if i > 0 {
      BitOps(Half(a), Half(b), i - 1);
    }
  }

  lemma BitNot(a: bv64, i: nat)
    requires i < 64
    ensures Bit(Not(a), i) <==> !Bit(a, i)
  {
    hide Bit;
    NotIsFlip(a);
    BitOps(a, ONES, i);
    BitOnes(i);
  }

  lemma NotIsFlip(a: bv64)
    ensures Not(a) == Flip(a, ONES)
  {
  }

  lemma {:induction false} BitShr(w: bv64, n: nat, i: nat)
    ensures Bit(Shr(w, n), i) <==> Bit(w, i + n)
    decreases n
  {
    if n > 0 {
      assert Bit(Shr(w, n), i) == Bit(Shr(w, n - 1), i + 1);
      BitShr(w, n - 1, i + 1);
    }
  }

  lemma BitShlOne(w: bv64, i: nat)
    requires i < 64
    ensures Bit(w << 1, i) <==> i > 0 && Bit(w, i - 1)
  {
    DoubleHalf(w);
    if i > 0 {
      hide Half, Odd, And;
      BitOps(w, Low(63), i - 1);
      BitLow(63, i - 1);
    }
  }

  lemma DoubleHalf(w: bv64)
    ensures Half(w << 1) == And(w, Low(63)) && !Odd(w << 1)
  {
    assert Low(63) == 0x7FFF_FFFF_FFFF_FFFF;
  }

  lemma {:induction false} BitShl(w: bv64, n: nat, i: nat)
    requires i < 64
    ensures Bit(Shl(w, n), i) <==> i >= n && Bit(w, i - n)
    decreases n
  {
    if n > 0 {
      BitShlOne(Shl(w, n - 1), i);
      if i > 0 { BitShl(w, n - 1, i - 1); }
    }
  }

  // ---------- the lowest and the highest bit ----------

  lemma HalfLess(w: bv64)
    requires w != 0
    ensures Half(w) < w
    ensures !Odd(w) ==> Half(w) != 0
    ensures Half(w) == 0 ==> Odd(w)
  {
  }

  /** `__builtin_ctzll` */
  function Ctz(w: bv64): nat
    requires w != 0
    decreases w
  {
    HalfLess(w);
    if Odd(w) then 0 else 1 + Ctz(Half(w))
  }

  lemma CtzBit(w: bv64)
    requires w != 0
    ensures Ctz(w) < 64 && Bit(w, Ctz(w))
    ensures forall i :: 0 <= i < Ctz(w) ==> !Bit(w, i)
  {
    hide Bit;
    CtzIsBit(w);
    BitRange(w, Ctz(w));
    forall i | 0 <= i < Ctz(w) ensures !Bit(w, i) { CtzIsFirst(w, i); }
  }

  lemma {:induction false} CtzIsBit(w: bv64)
    requires w != 0
    ensures Bit(w, Ctz(w))
    decreases Ctz(w)
  {
    hide Half, Odd;
    HalfLess(w);
    if !Odd(w) { CtzIsBit(Half(w)); }
  }

  lemma {:induction false} CtzIsFirst(w: bv64, i: nat)
    requires w != 0 && i < Ctz(w)
    ensures !Bit(w, i)
    decreases i
  {
    hide Half, Odd;
    HalfLess(w);
    if i > 0 { CtzIsFirst(Half(w), i - 1); }
  }

  /** The index of the highest bit: `63 - __builtin_clzll`. */
  function Highest(w: bv64): nat
    requires w != 0
    decreases w
  {
    HalfLess(w);
    if Half(w) == 0 then 0 else 1 + Highest(Half(w))
  }

  lemma {:induction false} HighestIsBit(w: bv64)
    requires w != 0
    ensures Bit(w, Highest(w))
    decreases Highest(w)
  {
    hide Half, Odd;
    HalfLess(w);
    if Half(w) != 0 { HighestIsBit(Half(w)); }
  }

  lemma {:induction false} HighestIsLast(w: bv64, i: nat)
    requires w != 0 && Bit(w, i)
    ensures i <= Highest(w)
    decreases i
  {
    hide Half, Odd;
    HalfLess(w);
    if i > 0 {
      BitZero(i - 1);
      HighestIsLast(Half(w), i - 1);
    }
  }

  /** Words with the same bits are the same word. */
  lemma SameBits(a: bv64, b: bv64)
    requires forall i :: 0 <= i < 64 ==> (Bit(a, i) <==> Bit(b, i))
    ensures a == b
  {
    hide Bit;
    FlipZero(a, b);
    if Flip(a, b) != 0 {
      CtzBit(Flip(a, b));
      BitOps(a, b, Ctz(Flip(a, b)));
    }
  }

  lemma FlipZero(a: bv64, b: bv64)
    ensures Flip(a, b) == 0 ==> a == b
  {
  }

  // ---------- filling below and clearing trailing ones ----------

  /** `w | (w - 1)` */
  function Fill(w: bv64): bv64 { w | (w - 1) }

  /** It fills the zeros below the lowest bit. */
  lemma {:induction false} BitFill(w: bv64, i: nat)
    requires w != 0
    ensures Bit(Fill(w), i) <==> Bit(w, i) || i < Ctz(w)
    decreases i
  {
    hide Half, Odd, Fill;
    HalfLess(w);
    FillHalf(w);
    if !Odd(w) && i > 0 { BitFill(Half(w), i - 1); }
  }

  lemma FillHalf(w: bv64)
    requires w != 0
    ensures if Odd(w) then Fill(w) == w else Odd(Fill(w)) && Half(Fill(w)) == Fill(Half(w))
  {
  }

  /** The lowest zero bit of `w`, or 64. */
  function FirstZero(w: bv64): nat
    decreases w
  {
    if !Odd(w) then 0 else OddHalfLess(w); 1 + FirstZero(Half(w))
  }

  lemma OddHalfLess(w: bv64)
    requires Odd(w)
    ensures Half(w) < w
  {
  }

  lemma {:induction false} FirstZeroBelow(w: bv64, i: nat)
    requires i < FirstZero(w)
    ensures Bit(w, i)
    decreases i
  {
    hide Half, Odd;
    if i > 0 { FirstZeroBelow(Half(w), i - 1); }
  }

  lemma {:induction false} FirstZeroClear(w: bv64)
    ensures !Bit(w, FirstZero(w))
    decreases w
  {
    hide Half, Odd;
    if Odd(w) {
      OddHalfLess(w);
      FirstZeroClear(Half(w));
    }
  }

  /** `__builtin_ctzll(~w)` finds the lowest zero of `w`. */
  lemma CtzNot(w: bv64)
    requires Not(w) != 0
    ensures Ctz(Not(w)) == FirstZero(w) < 64
  {
    hide Bit, Ctz, FirstZero, Not;
    CtzBit(Not(w));
    BitNot(w, Ctz(Not(w)));
    if FirstZero(w) > Ctz(Not(w)) { FirstZeroBelow(w, Ctz(Not(w))); }
    if FirstZero(w) < Ctz(Not(w)) {
      FirstZeroClear(w);
      BitNot(w, FirstZero(w));
    }
  }

  /** `w & (w + 1)` */
  function ClearOnes(w: bv64): bv64 { w & (w + 1) }

  /** It clears the ones below the lowest zero. */
  lemma {:induction false} BitClear(w: bv64, i: nat)
    ensures Bit(ClearOnes(w), i) <==> Bit(w, i) && i > FirstZero(w)
    decreases i
  {
    hide Half, Odd, ClearOnes;
    ClearHalf(w);
    if Odd(w) && i > 0 { BitClear(Half(w), i - 1); }
  }

  lemma ClearHalf(w: bv64)
    ensures if Odd(w) then !Odd(ClearOnes(w)) && Half(ClearOnes(w)) == ClearOnes(Half(w)) else ClearOnes(w) == w
  {
  }
}
