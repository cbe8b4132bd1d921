/** Bitsets: sequences of 64-bit words as sets, and the masks of ranges. */
module Bitsets {
  import opened IntSets
  import opened Words

  ghost predicate Member(words: seq<bv64>, x: int) {
    0 <= x < 64 * |words| && Bit(words[x / 64], x % 64)
  }

  /** The set that a bitset stands for. */
  ghost function BitSet(words: seq<bv64>): set<int> {
    set x: int | 0 <= x < 64 * |words| && Member(words, x)
  }

  lemma MemberAt(words: seq<bv64>, j: nat, i: nat)
    requires j < |words| && i < 64
    ensures Member(words, 64 * j + i) <==> Bit(words[j], i)
  {
    assert (64 * j + i) / 64 == j && (64 * j + i) % 64 == i;
  }

  // ---------- the mask of a range within one word ----------

  function Clip(x: int): nat {
    if x < 0 then 0 else if x > 64 then 64 else x
  }

  /** The bits of word `j` whose positions lie in `[lo, hi)`. */
  function RangeMask(j: nat, lo: int, hi: int): bv64 {
    And(Shl(ONES, Clip(lo - 64 * j)), Shr(ONES, Clip(64 * j + 64 - hi)))
  }

  lemma OnesShiftedUp(a: nat, i: nat)
    requires i < 64
    ensures Bit(Shl(ONES, a), i) <==> a <= i
  {
    hide Bit, Shl;
    BitShl(ONES, a, i);
    if i >= a { BitOnes(i - a); }
  }

  lemma OnesShiftedDown(b: nat, i: nat)
    ensures Bit(Shr(ONES, b), i) <==> i + b < 64
  {
    hide Bit, Shr;
    BitShr(ONES, b, i);
    if i + b < 64 { BitOnes(i + b); } else if Bit(ONES, i + b) { BitRange(ONES, i + b); }
  }

  lemma RangeMaskBit(j: nat, lo: int, hi: int, i: nat)
    requires i < 64
    ensures Bit(RangeMask(j, lo, hi), i) <==> lo <= 64 * j + i < hi
  {
    hide Bit, Shl, Shr, And, Or, Flip;
    var a, b := Clip(lo - 64 * j), Clip(64 * j + 64 - hi);
    BitOps(Shl(ONES, a), Shr(ONES, b), i);
    OnesShiftedUp(a, i);
    OnesShiftedDown(b, i);
  }

  lemma AndOnes(x: bv64)
    ensures And(x, ONES) == x && And(ONES, x) == x
  {
  }

  /** Where the mask of a range needs only one of its two sides, or none. */
  lemma RangeMaskCases(j: nat, lo: int, hi: int)
    ensures lo <= 64 * j ==> RangeMask(j, lo, hi) == Shr(ONES, Clip(64 * j + 64 - hi))
    ensures 64 * j + 64 <= hi ==> RangeMask(j, lo, hi) == Shl(ONES, Clip(lo - 64 * j))
    ensures lo <= 64 * j && 64 * j + 64 <= hi ==> RangeMask(j, lo, hi) == ONES
    ensures hi <= 64 * j || 64 * j + 64 <= lo ==> RangeMask(j, lo, hi) == 0
  {
    hide Bit, And;
    AndOnes(Shl(ONES, Clip(lo - 64 * j)));
    AndOnes(Shr(ONES, Clip(64 * j + 64 - hi)));
    if hi <= 64 * j || 64 * j + 64 <= lo {
      forall i | 0 <= i < 64 ensures Bit(RangeMask(j, lo, hi), i) <==> Bit(0, i) {
        RangeMaskBit(j, lo, hi, i);
        BitZero(i);
      }
      SameBits(RangeMask(j, lo, hi), 0);
    }
  }

  // ---------- whole bitsets, word by word ----------

  function SetWords(w: seq<bv64>, lo: int, hi: int): seq<bv64> {
    seq(|w|, j requires 0 <= j < |w| => Or(w[j], RangeMask(j, lo, hi)))
  }

  function ResetWords(w: seq<bv64>, lo: int, hi: int): seq<bv64> {
    seq(|w|, j requires 0 <= j < |w| => And(w[j], Not(RangeMask(j, lo, hi))))
  }

  function FlipWords(w: seq<bv64>, lo: int, hi: int): seq<bv64> {
    seq(|w|, j requires 0 <= j < |w| => Flip(w[j], RangeMask(j, lo, hi)))
  }

  function MaskWords(w: seq<bv64>, lo: int, hi: int): seq<bv64> {
    seq(|w|, j requires 0 <= j < |w| => And(w[j], RangeMask(j, lo, hi)))
  }

  lemma SetWordsMember(w: seq<bv64>, lo: int, hi: int, x: int)
    requires 0 <= x < 64 * |w|
    ensures Member(SetWords(w, lo, hi), x) <==> Member(w, x) || lo <= x < hi
    ensures Member(ResetWords(w, lo, hi), x) <==> Member(w, x) && !(lo <= x < hi)
    ensures Member(FlipWords(w, lo, hi), x) <==> (Member(w, x) != (lo <= x < hi))
    ensures Member(MaskWords(w, lo, hi), x) <==> Member(w, x) && lo <= x < hi
  {
    hide Bit, And, Or, Flip, Not, RangeMask;
    var j, i := x / 64, x % 64;
    var m := RangeMask(j, lo, hi);
    RangeMaskBit(j, lo, hi, i);
    BitOps(w[j], m, i);
    BitOps(w[j], Not(m), i);
    BitNot(m, i);
  }

  lemma SetWordsDenotes(w: seq<bv64>, lo: int, hi: int)
    requires 0 <= lo && hi <= 64 * |w|
    ensures BitSet(SetWords(w, lo, hi)) == BitSet(w) + Range(lo, hi)
    ensures BitSet(ResetWords(w, lo, hi)) == BitSet(w) - Range(lo, hi)
    ensures BitSet(FlipWords(w, lo, hi)) == Xor(BitSet(w), Range(lo, hi))
    ensures BitSet(MaskWords(w, lo, hi)) == BitSet(w) * Range(lo, hi)
  {
    hide Member;
    forall x | 0 <= x < 64 * |w|
      ensures Member(SetWords(w, lo, hi), x) <==> Member(w, x) || x in Range(lo, hi)
      ensures Member(ResetWords(w, lo, hi), x) <==> Member(w, x) && x !in Range(lo, hi)
      ensures Member(FlipWords(w, lo, hi), x) <==> (Member(w, x) != (x in Range(lo, hi)))
      ensures Member(MaskWords(w, lo, hi), x) <==> Member(w, x) && x in Range(lo, hi)
    {
      SetWordsMember(w, lo, hi, x);
    }
  }

  // ---------- cardinality ----------

  /** The set bits of one word. */
  function WordBits(w: bv64): set<int> {
    set i: int | 0 <= i < 64 && Bit(w, i)
  }

  /** `hamming`: the number of set bits. */
  function Hamming(w: bv64): nat { |WordBits(w)| }

  /** The members of a bitset that lie in word `j`. */
  ghost function WordSet(words: seq<bv64>, j: nat): set<int>
    requires j < |words|
  {
    set x: int | 64 * j <= x < 64 * j + 64 && Member(words, x)
  }

  ghost function LowBits(w: bv64, n: nat): set<int> {
    set i: int | 0 <= i < n && Bit(w, i)
  }

  ghost function LowMembers(words: seq<bv64>, j: nat, n: nat): set<int> {
    set x: int | 64 * j <= x < 64 * j + n && Member(words, x)
  }

  lemma LowBitsStep(w: bv64, n: nat)
    requires n > 0
    ensures LowBits(w, n) == LowBits(w, n - 1) + (if Bit(w, n - 1) then {n - 1} else {})
    ensures |LowBits(w, n)| == |LowBits(w, n - 1)| + (if Bit(w, n - 1) then 1 else 0)
  {
  }

  lemma LowMembersStep(words: seq<bv64>, j: nat, n: nat)
    requires n > 0
    ensures |LowMembers(words, j, n)| == |LowMembers(words, j, n - 1)| +
      (if Member(words, 64 * j + n - 1) then 1 else 0)
  {
    hide Member;
    var x := 64 * j + n - 1;
    assert LowMembers(words, j, n) == LowMembers(words, j, n - 1) + (if Member(words, x) then {x} else {});
  }

  lemma {:induction false} LowSizes(words: seq<bv64>, j: nat, n: nat)
    requires j < |words| && n <= 64
    ensures |LowMembers(words, j, n)| == |LowBits(words[j], n)|
    decreases n
  {
    if n == 0 {
      assert LowMembers(words, j, 0) == {} && LowBits(words[j], 0) == {};
    } else {
      hide Bit, Member, LowMembers, LowBits;
      LowSizes(words, j, n - 1);
      MemberAt(words, j, n - 1);
      LowBitsStep(words[j], n);
      LowMembersStep(words, j, n);
    }
  }

  lemma WordSetSize(words: seq<bv64>, j: nat)
    requires j < |words|
    ensures |WordSet(words, j)| == Hamming(words[j])
  {
    hide Bit, Member;
    LowSizes(words, j, 64);
    assert WordSet(words, j) == LowMembers(words, j, 64);
    assert WordBits(words[j]) == LowBits(words[j], 64);
  }

  /** `bitset_container_compute_cardinality` on the first `n` words. */
  ghost function SumHamming(words: seq<bv64>, n: nat): nat
    requires n <= |words|
  {
    if n == 0 then 0 else SumHamming(words, n - 1) + Hamming(words[n - 1])
  }

  /** The members below word `n`. */
  ghost function BelowWord(words: seq<bv64>, n: nat): set<int> {
    set x: int | 0 <= x < 64 * n && Member(words, x)
  }

  lemma {:induction false} SumHammingIsSize(words: seq<bv64>, n: nat)
    requires n <= |words|
    ensures SumHamming(words, n) == |BelowWord(words, n)|
    decreases n
  {
    hide Member, Hamming;
    if n == 0 {
      assert BelowWord(words, 0) == {};
    } else {
      SumHammingIsSize(words, n - 1);
      WordSetSize(words, n - 1);
      assert BelowWord(words, n) == BelowWord(words, n - 1) + WordSet(words, n - 1);
    }
  }

  lemma CardinalityIsSum(words: seq<bv64>)
    ensures |BitSet(words)| == SumHamming(words, |words|)
  {
    SumHammingIsSize(words, |words|);
    assert BitSet(words) == BelowWord(words, |words|);
  }
}
