/** Words with one bit, words of low ones, and the lowest set bit. */
module WordMasks {
  import opened Words

  lemma {:induction false} BitOne(i: nat)
    ensures Bit(1, i) <==> i == 0
  {
    OneHalf();
    if i > 0 { BitZero(i - 1); }
  }

  lemma OneHalf()
    ensures Odd(1) && Half(1) == 0
  {
  }

  /** `UINT64_C(1) << n` has bit `n` only. */
  lemma BitSingle(n: nat, i: nat)
    requires i < 64
    ensures Bit(Shl(1, n), i) <==> i == n
  {
    hide Bit, Shl;
    BitShl(1, n, i);
    if i >= n { BitOne(i - n); }
  }

  /** `(load ^ newload) >> index`: whether the bit was toggled. */
  function Toggled(load: bv64, newload: bv64, index: nat): bv64 {
    Shr(Flip(load, newload), index)
  }

  lemma BitChanges(w: bv64, n: nat, i: nat)
    requires n < 64 && i < 64
    ensures Bit(Or(w, Shl(1, n)), i) <==> Bit(w, i) || i == n
    ensures Bit(And(w, Not(Shl(1, n))), i) <==> Bit(w, i) && i != n
    ensures Bit(Flip(w, Shl(1, n)), i) <==> (Bit(w, i) != (i == n))
  {
    hide Bit, Or, And, Flip, Not, Shl;
    BitSingle(n, i);
    BitOps(w, Shl(1, n), i);
    BitOps(w, Not(Shl(1, n)), i);
    BitNot(Shl(1, n), i);
  }

  /** The shifted difference of a word and its update is 1 exactly when the bit changes. */
  lemma ToggledCount(w: bv64, v: bv64, n: nat)
    requires n < 64
    requires forall i :: 0 <= i < 64 && i != n ==> (Bit(v, i) <==> Bit(w, i))
    ensures Toggled(w, v, n) == if Bit(w, n) == Bit(v, n) then 0 else 1
  {
    hide Bit, Flip, Shr;
    var r: bv64 := if Bit(w, n) == Bit(v, n) then 0 else 1;
    forall i | 0 <= i < 64 ensures Bit(Toggled(w, v, n), i) <==> i == 0 && Bit(w, n) != Bit(v, n) {
      ToggledBit(w, v, n, i);
      if i + n < 64 && i != 0 { assert Bit(v, i + n) <==> Bit(w, i + n); }
    }
    forall i | 0 <= i < 64 ensures Bit(r, i) <==> i == 0 && Bit(w, n) != Bit(v, n) {
      BitZero(i);
      BitOne(i);
    }
    SameBits(Toggled(w, v, n), r);
  }

  lemma ToggledBit(w: bv64, v: bv64, n: nat, i: nat)
    ensures Bit(Toggled(w, v, n), i) <==> i + n < 64 && Bit(w, i + n) != Bit(v, i + n)
  {
    hide Bit, Flip, Shr, And, Or;
    BitShr(Flip(w, v), n, i);
    BitOps(w, v, i + n);
    if i + n >= 64 {
      NoBitBeyond(w, i + n);
      NoBitBeyond(v, i + n);
    }
  }

  lemma NoBitBeyond(w: bv64, i: nat)
    requires i >= 64
    ensures !Bit(w, i)
  {
    hide Bit;
    if Bit(w, i) { BitRange(w, i); }
  }

  /** `(UINT64_C(1) << n) - 1` */
  function LowMask(n: nat): bv64 { MinusOne(Shl(1, n)) }

  function MinusOne(w: bv64): bv64 { w - 1 }

  lemma LowMaskZero()
    ensures LowMask(0) == 0
  {
  }

  lemma LowMaskGrow(n: nat)
    requires n > 0
    ensures LowMask(n) == Or(LowMask(n - 1) << 1, 1)
  {
  }

  lemma ShlGrow(w: bv64, n: nat)
    requires n > 0
    ensures Shl(w, n) == Shl(w, n - 1) << 1
  {
  }

  lemma {:induction false} BitLowMask(n: nat, i: nat)
    requires n <= 64 && i < 64
    ensures Bit(LowMask(n), i) <==> i < n
    decreases n
  {
    hide Bit, LowMask, Or, And, Flip;
    if n == 0 {
      LowMaskZero();
      BitZero(i);
    } else {
      var m := LowMask(n - 1);
      LowMaskGrow(n);
      BitOps(m << 1, 1, i);
      BitShlOne(m, i);
      BitOne(i);
      if i > 0 { BitLowMask(n - 1, i - 1); }
    }
  }

  /** `w & (~w + 1)` */
  function Lowest(w: bv64): bv64 { And(w, Not(w) + 1) }

  /** `w ^ (w & (~w + 1))` clears the lowest bit. */
  lemma {:induction false} BitClearLowest(w: bv64, i: nat)
    requires w != 0
    ensures Bit(Flip(w, Lowest(w)), i) <==> Bit(w, i) && i != Ctz(w)
    decreases i
  {
    hide Half, Odd, Lowest, Flip;
    HalfLess(w);
    ClearLowestHalf(w);
    if !Odd(w) && i > 0 { BitClearLowest(Half(w), i - 1); }
  }

  lemma ClearLowestHalf(w: bv64)
    requires w != 0
    ensures if Odd(w) then !Odd(Flip(w, Lowest(w))) && Half(Flip(w, Lowest(w))) == Half(w)
      else !Odd(Flip(w, Lowest(w))) && Half(Flip(w, Lowest(w))) == Flip(Half(w), Lowest(Half(w)))
  {
  }
}
