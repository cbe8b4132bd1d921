/** The mask kernels of `bitset_util.h` on an array of words. */
module BitsetKernels {
  import opened IntSets
  import opened Words
  import opened Bitsets

  /** `(~x + 1) % 64` in `uint32_t` arithmetic. */
  function NegateMod64(x: u32): nat {
    ((0xFFFF_FFFF - x + 1) % 0x1_0000_0000) % 64
  }

  lemma NegateMod64Is(x: u32)
    requires x > 0
    ensures NegateMod64(x) == Clip(64 * ((x - 1) / 64) + 64 - x)
  {
    var q, r := (x - 1) / 64, (x - 1) % 64;
    assert x == 64 * q + r + 1;
    assert 0x1_0000_0000 - x == 64 * (0x400_0000 - 1 - q) + (63 - r);
  }

  lemma FirstWord(x: u32)
    ensures x % 64 == Clip(x - 64 * (x / 64))
  {
  }

  /** `lo % 64` and the masks of the first and last word of `[start, end)`, as the kernels compute them. */
  lemma EdgeMasks(start: u32, end: u32)
    requires start < end
    ensures var first, last := start / 64, (end - 1) / 64;
      && first <= last
      && (first == last ==> RangeMask(first, start, end) == And(Shl(ONES, start % 64), Shr(ONES, NegateMod64(end))))
      && (first < last ==> RangeMask(first, start, end) == Shl(ONES, start % 64))
      && (first < last ==> RangeMask(last, start, end) == Shr(ONES, NegateMod64(end)))
  {
    hide RangeMask, NegateMod64;
    var first, last := start / 64, (end - 1) / 64;
    NegateMod64Is(end);
    FirstWord(start);
    RangeMaskCases(first, start, end);
    RangeMaskCases(last, start, end);
    if first == last { RangeMaskIs(first, start, end); }
  }

  lemma RangeMaskIs(j: nat, lo: int, hi: int)
    ensures RangeMask(j, lo, hi) == And(Shl(ONES, Clip(lo - 64 * j)), Shr(ONES, Clip(64 * j + 64 - hi)))
  {
  }

  /** Words strictly between the first and the last are full, words outside have an empty mask. */
  lemma InnerMasks(start: u32, end: u32, j: nat)
    requires start < end
    ensures start / 64 < j < (end - 1) / 64 ==> RangeMask(j, start, end) == ONES
    ensures j < start / 64 || (end - 1) / 64 < j ==> RangeMask(j, start, end) == 0
  {
    RangeMaskCases(j, start, end);
  }

  lemma EmptyRange(w: seq<bv64>, lo: int)
    ensures SetWords(w, lo, lo) == w && ResetWords(w, lo, lo) == w && FlipWords(w, lo, lo) == w
  {
    forall j | 0 <= j < |w|
      ensures Or(w[j], RangeMask(j, lo, lo)) == w[j] && And(w[j], Not(RangeMask(j, lo, lo))) == w[j]
        && Flip(w[j], RangeMask(j, lo, lo)) == w[j]
    {
      RangeMaskEmpty(j, lo);
      WithZero(w[j]);
    }
  }

  lemma RangeMaskEmpty(j: nat, lo: int)
    ensures RangeMask(j, lo, lo) == 0
  {
    hide Bit, RangeMask;
    forall i | 0 <= i < 64 ensures Bit(RangeMask(j, lo, lo), i) <==> Bit(0, i) {
      RangeMaskBit(j, lo, lo, i);
      BitZero(i);
    }
    SameBits(RangeMask(j, lo, lo), 0);
  }

  lemma WithZero(x: bv64)
    ensures Or(x, 0) == x && And(x, Not(0)) == x && Flip(x, 0) == x
  {
  }

  lemma WithOnes(x: bv64)
    ensures Or(x, ONES) == ONES && And(x, Not(ONES)) == 0 && Flip(x, ONES) == Not(x) && And(x, ONES) == x
  {
  }

  /** `bitset_set_range` */
  method SetRange(bitmap: array<bv64>, start: u32, end: u32)
    requires start <= end <= 64 * bitmap.Length
    modifies bitmap
    ensures bitmap[..] == SetWords(old(bitmap[..]), start, end)
  {
    hide Bit, Shl, Shr, And, Or, RangeMask, NegateMod64;
    if start == end {
      EmptyRange(bitmap[..], start);
      return;
    }
    EdgeMasks(start, end);
    var firstword, endword := start / 64, (end - 1) / 64;
    forall j | 0 <= j < bitmap.Length
      ensures firstword < j < endword ==> Or(bitmap[j], RangeMask(j, start, end)) == ONES
      ensures j < firstword || endword < j ==> Or(bitmap[j], RangeMask(j, start, end)) == bitmap[j]
    {
      InnerMasks(start, end, j);
      WithOnes(bitmap[j]);
      WithZero(bitmap[j]);
    }
    if firstword == endword {
      bitmap[firstword] := Or(bitmap[firstword], And(Shl(ONES, start % 64), Shr(ONES, NegateMod64(end))));
      return;
    }
    bitmap[firstword] := Or(bitmap[firstword], Shl(ONES, start % 64));
    var i := firstword + 1;
    while i < endword
      invariant firstword < i <= endword
      invariant forall j :: 0 <= j < bitmap.Length ==>
        bitmap[j] == if firstword <= j < i then Or(old(bitmap[j]), RangeMask(j, start, end)) else old(bitmap[j])
    {
      bitmap[i] := ONES;
      i := i + 1;
    }
    bitmap[endword] := Or(bitmap[endword], Shr(ONES, NegateMod64(end)));
  }

  lemma FlipNot(x: bv64, a: bv64)
    ensures Flip(x, Not(a)) == Not(Flip(x, a))
  {
  }

  lemma NotNot(a: bv64)
    ensures Not(Not(a)) == a
  {
  }

  lemma WordsAt(w: seq<bv64>, lo: int, hi: int, j: nat)
    requires j < |w|
    ensures SetWords(w, lo, hi)[j] == Or(w[j], RangeMask(j, lo, hi))
    ensures ResetWords(w, lo, hi)[j] == And(w[j], Not(RangeMask(j, lo, hi)))
    ensures FlipWords(w, lo, hi)[j] == Flip(w[j], RangeMask(j, lo, hi))
    ensures MaskWords(w, lo, hi)[j] == And(w[j], RangeMask(j, lo, hi))
  {
  }

  /** What the kernels do to the words that are not at an end of the range. */
  lemma InnerWords(w: seq<bv64>, start: u32, end: u32, j: nat)
    requires start < end && j < |w|
    ensures start / 64 < j < (end - 1) / 64 ==>
      SetWords(w, start, end)[j] == ONES && ResetWords(w, start, end)[j] == 0 &&
        FlipWords(w, start, end)[j] == Not(w[j])
      && MaskWords(w, start, end)[j] == w[j]
    ensures j < start / 64 || (end - 1) / 64 < j ==>
      SetWords(w, start, end)[j] == w[j] && ResetWords(w, start, end)[j] == w[j] && FlipWords(w, start, end)[j] == w[j]
      && MaskWords(w, start, end)[j] == 0
  {
    hide And, Or, Flip, Not, RangeMask;
    WordsAt(w, start, end, j);
    InnerMasks(start, end, j);
    WithOnes(w[j]);
    WithZero(w[j]);
    AndZero(w[j]);
  }

  lemma AndZero(x: bv64)
    ensures And(x, 0) == 0
  {
  }

  /** `bitset_reset_range` */
  method ResetRange(bitmap: array<bv64>, start: u32, end: u32)
    requires start <= end <= 64 * bitmap.Length
    modifies bitmap
    ensures bitmap[..] == ResetWords(old(bitmap[..]), start, end)
  {
    hide Bit, Shl, Shr, And, Not, RangeMask, NegateMod64, ResetWords;
    if start == end {
      EmptyRange(bitmap[..], start);
      return;
    }
    ghost var w := bitmap[..];
    ghost var t := ResetWords(w, start, end);
    EdgeMasks(start, end);
    var firstword, endword := start / 64, (end - 1) / 64;
    ResetLength(w, start, end);
    WordsAt(w, start, end, firstword);
    WordsAt(w, start, end, endword);
    if firstword == endword {
      bitmap[firstword] :=
        And(bitmap[firstword], Not(And(Shl(ONES, start % 64), Shr(ONES, NegateMod64(end)))));
    } else {
      bitmap[firstword] := And(bitmap[firstword], Not(Shl(ONES, start % 64)));
      var i := firstword + 1;
      while i < endword
        invariant firstword < i <= endword
        invariant forall j :: firstword < j < i ==> bitmap[j] == 0
        invariant forall j :: 0 <= j < bitmap.Length && (j < firstword || i <= j) ==> bitmap[j] == w[j]
        invariant bitmap[firstword] == t[firstword]
      {
        bitmap[i] := 0;
        i := i + 1;
      }
      bitmap[endword] := And(bitmap[endword], Not(Shr(ONES, NegateMod64(end))));
    }
    forall j | 0 <= j < bitmap.Length ensures bitmap[j] == t[j] { InnerWords(w, start, end, j); }
  }

  lemma ResetLength(w: seq<bv64>, start: int, end: int)
    ensures |SetWords(w, start, end)| == |ResetWords(w, start, end)| == |FlipWords(w, start, end)| == |w|
    ensures |MaskWords(w, start, end)| == |w|
  {
  }

  /** The one-word mask of `bitset_set_lenrange`: the run of ones is built low and moved up. */
  lemma LenMask(start: u32, lenminusone: nat)
    requires start / 64 == (start + lenminusone) / 64
    ensures lenminusone < 64
    ensures Shl(Shr(ONES, (63 - lenminusone) % 64), start % 64)
         == RangeMask(start / 64, start, start + lenminusone + 1)
  {
    hide Bit, Shl, Shr, RangeMask;
    var j, s, k := start / 64, start % 64, 63 - lenminusone;
    assert start == 64 * j + s;
    var m := Shl(Shr(ONES, k), s);
    forall i | 0 <= i < 64 ensures Bit(m, i) <==> Bit(RangeMask(j, start, start + lenminusone + 1), i) {
      RangeMaskBit(j, start, start + lenminusone + 1, i);
      BitShl(Shr(ONES, k), s, i);
      if i >= s { OnesShiftedDown(k, i - s); }
    }
    SameBits(m, RangeMask(j, start, start + lenminusone + 1));
  }

  /** `((~start + 1) - lenminusone - 1) % 64` in `uint32_t` arithmetic. */
  function NegateLenMod64(start: u32, lenminusone: u32): nat {
    (((0xFFFF_FFFF - start + 1) - lenminusone - 1) % 0x1_0000_0000) % 64
  }

  lemma NegateLenIs(start: u32, lenminusone: u32)
    requires start + lenminusone < 0xFFFF_FFFF
    ensures NegateLenMod64(start, lenminusone) == NegateMod64(start + lenminusone + 1)
  {
  }

  /**
   `bitset_set_lenrange`: the inner loop fills two words at a time and may overwrite the last word, which is put back
   after it.
   */
  method SetLenrange(bitmap: array<bv64>, start: u32, lenminusone: u32)
    requires start + lenminusone < 64 * bitmap.Length && start + lenminusone < 0xFFFF_FFFF
    modifies bitmap
    ensures bitmap[..] == SetWords(old(bitmap[..]), start, start + lenminusone + 1)
  {
    hide Bit, Shl, Shr, And, Or, Not, RangeMask, NegateMod64, NegateLenMod64, SetWords;
    ghost var w, end := bitmap[..], start + lenminusone + 1;
    ghost var t := SetWords(w, start, end);
    EdgeMasks(start, end);
    NegateLenIs(start, lenminusone);
    ResetLength(w, start, end);
    var firstword, endword := start / 64, (start + lenminusone) / 64;
    WordsAt(w, start, end, firstword);
    WordsAt(w, start, end, endword);
    if firstword == endword {
      LenMask(start, lenminusone);
      bitmap[firstword] := Or(bitmap[firstword], Shl(Shr(ONES, (63 - lenminusone) % 64), start % 64));
    } else {
      var temp := bitmap[endword];
      bitmap[firstword] := Or(bitmap[firstword], Shl(ONES, start % 64));
      FillPairs(bitmap, firstword + 1, endword);
      bitmap[endword] := Or(temp, Shr(ONES, NegateLenMod64(start, lenminusone)));
    }
    forall j | 0 <= j < bitmap.Length ensures bitmap[j] == t[j] { InnerWords(w, start, end, j); }
  }

  /**
   The two-words-at-a-time loop: everything in `[from, to)` is filled, and at most word `to` is overwritten besides.
   */
  method FillPairs(bitmap: array<bv64>, from: nat, to: nat)
    requires from <= to < bitmap.Length
    modifies bitmap
    ensures forall j :: from <= j < to ==> bitmap[j] == ONES
    ensures forall j :: 0 <= j < bitmap.Length && (j < from || to < j) ==> bitmap[j] == old(bitmap[j])
  {
    var i := from;
    while i < to
      invariant from <= i <= to + 1
      invariant forall j :: from <= j < i ==> bitmap[j] == ONES
      invariant forall j :: 0 <= j < bitmap.Length && (j < from || i <= j) ==> bitmap[j] == old(bitmap[j])
    {
      bitmap[i + 1] := ONES;
      bitmap[i] := bitmap[i + 1];
      i := i + 2;
    }
  }

  /** `bitset_flip_range` */
  method FlipRange(bitmap: array<bv64>, start: u32, end: u32)
    requires start <= end <= 64 * bitmap.Length
    modifies bitmap
    ensures bitmap[..] == FlipWords(old(bitmap[..]), start, end)
  {
    hide Bit, Shl, Shr, And, Flip, Not, RangeMask, NegateMod64, FlipWords;
    if start == end {
      EmptyRange(bitmap[..], start);
      return;
    }
    ghost var w := bitmap[..];
    ghost var t := FlipWords(w, start, end);
    EdgeMasks(start, end);
    ResetLength(w, start, end);
    var firstword, endword := start / 64, (end - 1) / 64;
    WordsAt(w, start, end, firstword);
    WordsAt(w, start, end, endword);
    FlipEdges(w[firstword], start, end);
    bitmap[firstword] := Flip(bitmap[firstword], Not(Shl(ONES, start % 64)));
    FlipAll(bitmap, firstword, endword);
    bitmap[endword] := Flip(bitmap[endword], Shr(ONES, NegateMod64(end)));
    forall j | 0 <= j < bitmap.Length ensures bitmap[j] == t[j] { InnerWords(w, start, end, j); }
  }

  /** The loop of `bitset_flip_range` */
  method FlipAll(bitmap: array<bv64>, from: nat, to: nat)
    requires from <= to <= bitmap.Length
    modifies bitmap
    ensures forall j :: from <= j < to ==> bitmap[j] == Not(old(bitmap[j]))
    ensures forall j :: 0 <= j < bitmap.Length && (j < from || to <= j) ==> bitmap[j] == old(bitmap[j])
  {
    hide Not;
    var i := from;
    while i < to
      invariant from <= i <= to
      invariant forall j :: from <= j < i ==> bitmap[j] == Not(old(bitmap[j]))
      invariant forall j :: 0 <= j < bitmap.Length && (j < from || i <= j) ==> bitmap[j] == old(bitmap[j])
    {
      bitmap[i] := Not(bitmap[i]);
      i := i + 1;
    }
  }

  /** The first word: flipped below the range, then complemented or flipped up to the end of the range. */
  lemma FlipEdges(x: bv64, start: u32, end: u32)
    requires start < end
    ensures start / 64 < (end - 1) / 64 ==>
      Not(Flip(x, Not(Shl(ONES, start % 64)))) == Flip(x, Shl(ONES, start % 64))
    ensures start / 64 == (end - 1) / 64 ==>
      Flip(Flip(x, Not(Shl(ONES, start % 64))), Shr(ONES, NegateMod64(end)))
      == Flip(x, RangeMask(start / 64, start, end))
  {
    hide Bit, Shl, Shr, And, Flip, Not, RangeMask, NegateMod64;
    var a, b := Shl(ONES, start % 64), Shr(ONES, NegateMod64(end));
    FlipNot(x, a);
    NotNot(Flip(x, a));
    if start / 64 == (end - 1) / 64 {
      EdgeMasks(start, end);
      var m := RangeMask(start / 64, start, end);
      NegateMod64Is(end);
      forall i | 0 <= i < 64 ensures Bit(Flip(Flip(x, Not(a)), b), i) <==> Bit(Flip(x, m), i) {
        BitFlip(Flip(x, Not(a)), b, i);
        BitFlip(x, Not(a), i);
        BitNot(a, i);
        BitFlip(x, m, i);
        RangeMaskBit(start / 64, start, end, i);
        OnesShiftedUp(start % 64, i);
        OnesShiftedDown(NegateMod64(end), i);
      }
      SameBits(Flip(Flip(x, Not(a)), b), Flip(x, m));
    }
  }

  lemma BitFlip(a: bv64, b: bv64, i: nat)
    ensures Bit(Flip(a, b), i) <==> (Bit(a, i) != Bit(b, i))
  {
    BitOps(a, b, i);
  }

  /** The loop over the words between the two edges. */
  method AddInnerWords(bitmap: array<bv64>, start: u32, lenminusone: u32, first: nat) returns (answer: nat)
    requires start + lenminusone < 64 * bitmap.Length && start + lenminusone < 0xFFFF_FFFF
    requires start / 64 < (start + lenminusone) / 64
    requires first == SumHamming(MaskWords(bitmap[..], start, start + lenminusone + 1), start / 64 + 1)
    ensures answer == SumHamming(MaskWords(bitmap[..], start, start + lenminusone + 1), (start + lenminusone) / 64)
  {
    hide And, RangeMask, MaskWords, Hamming;
    ghost var w, end := bitmap[..], start + lenminusone + 1;
    ghost var t := MaskWords(w, start, end);
    ResetLength(w, start, end);
    var firstword, endword := start / 64, (start + lenminusone) / 64;
    answer := first;
    var i := firstword + 1;
    while i < endword
      invariant firstword < i <= endword && answer == SumHamming(t, i)
    {
      InnerWords(w, start, end, i);
      answer := answer + Hamming(bitmap[i]);
      i := i + 1;
    }
  }

  /** `bitset_lenrange_cardinality` */
  method LenrangeCardinality(bitmap: array<bv64>, start: u32, lenminusone: u32) returns (answer: nat)
    requires start + lenminusone < 64 * bitmap.Length && start + lenminusone < 0xFFFF_FFFF
    ensures answer == |BitSet(bitmap[..]) * Range(start, start + lenminusone + 1)|
  {
    hide Bit, Shl, Shr, And, RangeMask, NegateMod64, NegateLenMod64, MaskWords, Hamming, BitSet;
    ghost var w, end := bitmap[..], start + lenminusone + 1;
    ghost var t := MaskWords(w, start, end);
    EdgeMasks(start, end);
    NegateLenIs(start, lenminusone);
    ResetLength(w, start, end);
    SetWordsDenotes(w, start, end);
    CardinalityIsSum(t);
    var firstword, endword := start / 64, (start + lenminusone) / 64;
    WordsAt(w, start, end, firstword);
    WordsAt(w, start, end, endword);
    SumOfEmpty(w, start, end, firstword);
    if firstword == endword {
      LenMask(start, lenminusone);
      answer := Hamming(And(bitmap[firstword], Shl(Shr(ONES, (63 - lenminusone) % 64), start % 64)));
    } else {
      answer := Hamming(And(bitmap[firstword], Shl(ONES, start % 64)));
      answer := AddInnerWords(bitmap, start, lenminusone, answer);
      answer := answer + Hamming(And(bitmap[endword], Shr(ONES, NegateLenMod64(start, lenminusone))));
    }
    SumAfter(w, start, end, bitmap.Length);
  }

  lemma HammingZero()
    ensures Hamming(0) == 0
  {
    hide Bit;
    forall i | 0 <= i < 64 ensures !Bit(0, i) { BitZero(i); }
    assert WordBits(0) == {};
  }

  /** Words before the range contribute nothing. */
  lemma {:induction false} SumOfEmpty(w: seq<bv64>, start: u32, end: u32, n: nat)
    requires start < end && n <= start / 64 && n <= |w|
    ensures |MaskWords(w, start, end)| == |w| && SumHamming(MaskWords(w, start, end), n) == 0
    decreases n
  {
    hide Hamming, MaskWords;
    ResetLength(w, start, end);
    if n > 0 {
      SumOfEmpty(w, start, end, n - 1);
      InnerWords(w, start, end, n - 1);
      HammingZero();
    }
  }

  /** Words after the range contribute nothing. */
  lemma {:induction false} SumAfter(w: seq<bv64>, start: u32, end: u32, n: nat)
    requires start < end && (end - 1) / 64 < n <= |w|
    ensures |MaskWords(w, start, end)| == |w|
    ensures SumHamming(MaskWords(w, start, end), n) == SumHamming(MaskWords(w, start, end), (end - 1) / 64 + 1)
    decreases n
  {
    hide Hamming, MaskWords;
    ResetLength(w, start, end);
    if n > (end - 1) / 64 + 1 {
      SumAfter(w, start, end, n - 1);
      InnerWords(w, start, end, n - 1);
      HammingZero();
    }
  }

  /** `bitset_container_compute_cardinality` */
  method ComputeCardinality(bitmap: array<bv64>) returns (sum: nat)
    ensures sum == |BitSet(bitmap[..])|
  {
    hide Hamming, BitSet;
    ghost var w := bitmap[..];
    CardinalityIsSum(w);
    sum := 0;
    var i := 0;
    while i < bitmap.Length
      invariant i <= bitmap.Length && sum == SumHamming(w, i)
    {
      sum := sum + Hamming(bitmap[i]);
      i := i + 1;
    }
  }
}
