/** Minimum, maximum, rank, select and range membership of a bitset. */
module BitsetQueries {
  import opened IntSets
  import opened Ranks
  import opened Words
  import opened WordMasks
  import opened Bitsets
  import opened BitsetRuns
  import opened BitsetLists

  /** `bitset_container_minimum` */
  method Minimum(bitmap: array<bv64>) returns (x: u16)
    requires 64 * bitmap.Length <= 0x1_0000
    ensures BitSet(bitmap[..]) != {} ==> Smallest(BitSet(bitmap[..]), x)
    ensures BitSet(bitmap[..]) == {} ==> x == 0xFFFF
  {
    hide Bit, BitSet, Pending, Clear, Ctz, Flip, Lowest;
    ghost var words := bitmap[..];
    BitSetBounds(words);
    ClearEmpty(BitSet(words));
    var i := 0;
    while i < bitmap.Length
      invariant i <= bitmap.Length && Clear(BitSet(words), 0, 64 * i)
    {
      var w := bitmap[i];
      PendingWord(words, i);
      if w != 0 {
        PendingNext(words, i, w, 64 * i);
        var r := Ctz(w);
        ClearJoin(BitSet(words), 0, 64 * i, 64 * i + r);
        ClearBefore(BitSet(words), 64 * |words|, 64 * i + r);
        return r + i * 64;
      }
      PendingNothing(words, i, 64 * i);
      ClearJoin(BitSet(words), 0, 64 * i, 64 * i + 64);
      i := i + 1;
    }
    ClearWhole(BitSet(words), 64 * |words|);
    return 0xFFFF;
  }

  lemma ClearEmpty(s: set<int>)
    ensures Clear(s, 0, 0)
  {
  }

  lemma ClearBefore(s: set<int>, n: int, x: int)
    requires s <= Range(0, n) && Clear(s, 0, x) && x in s
    ensures Smallest(s, x)
  {
  }

  lemma ClearWhole(s: set<int>, n: int)
    requires s <= Range(0, n) && Clear(s, 0, n)
    ensures s == {}
  {
  }

  lemma ClearAfter(s: set<int>, n: int, x: int)
    requires s <= Range(0, n) && Clear(s, x + 1, n) && x in s
    ensures Largest(s, x)
  {
  }

  /** The highest bit of a word is its last member. */
  lemma HighestMember(words: seq<bv64>, j: nat)
    requires j < |words| && words[j] != 0
    ensures Highest(words[j]) < 64
    ensures var x := 64 * j + Highest(words[j]); x in BitSet(words) && Clear(BitSet(words), x + 1, 64 * j + 64)
  {
    hide Bit, BitSet, Highest;
    var h := Highest(words[j]);
    HighestIsBit(words[j]);
    BitRange(words[j], h);
    WordMember(words, j, h);
    forall y | 64 * j + h < y < 64 * j + 64 ensures y !in BitSet(words) {
      WordMember(words, j, y - 64 * j);
      if Bit(words[j], y - 64 * j) { HighestIsLast(words[j], y - 64 * j); }
    }
  }

  /**
   `bitset_container_maximum`: the scan never looks at word 0, so the result is right exactly when some member lies
   past it; it is 0 when none does.
   */
  method Maximum(bitmap: array<bv64>) returns (x: u16)
    requires 0 < 64 * bitmap.Length <= 0x1_0000
    ensures Largest(BitSet(bitmap[..]), x) || (x == 0 && Clear(BitSet(bitmap[..]), 64, 64 * bitmap.Length))
    ensures |BitSet(bitmap[..])| > 64 ==> Largest(BitSet(bitmap[..]), x)
  {
    hide Bit, BitSet, Pending, Clear, Highest, Largest;
    ghost var words := bitmap[..];
    BitSetBounds(words);
    var i := bitmap.Length - 1;
    while i > 0
      invariant 0 <= i < bitmap.Length && Clear(BitSet(words), 64 * i + 64, 64 * |words|)
    {
      var w := bitmap[i];
      if w != 0 {
        HighestMember(words, i);
        ClearJoin(BitSet(words), 64 * i + Highest(w) + 1, 64 * i + 64, 64 * |words|);
        ClearAfter(BitSet(words), 64 * |words|, 64 * i + Highest(w));
        return i * 64 + Highest(w);
      }
      PendingWord(words, i);
      PendingNothing(words, i, 64 * i);
      ClearJoin(BitSet(words), 64 * i, 64 * i + 64, 64 * |words|);
      i := i - 1;
    }
    ClearSmall(BitSet(words), 64 * |words|);
    return 0;
  }

  lemma ClearSmall(s: set<int>, n: int)
    requires s <= Range(0, n) && Clear(s, 64, n)
    ensures |s| <= 64
  {
    RangeSize(0, 64);
    var r := Range(0, 64);
    forall x | x in s ensures x in r { assert x in Range(0, n); }
    SubsetSize(s, r);
  }

  // ---------- rank ----------

  lemma BelowWordIs(words: seq<bv64>, n: nat)
    ensures BelowWord(words, n) == Below(BitSet(words), 64 * n)
  {
  }

  lemma BelowSplit(words: seq<bv64>, j: nat, n: nat)
    requires j < |words| && n <= 64
    ensures BelowWord(words, j) !! LowMembers(words, j, n)
    ensures Below(BitSet(words), 64 * j + n) == BelowWord(words, j) + LowMembers(words, j, n)
  {
  }

  lemma BelowPart(words: seq<bv64>, j: nat, n: nat)
    requires j < |words| && n <= 64
    ensures |Below(BitSet(words), 64 * j + n)| == SumHamming(words, j) + |LowBits(words[j], n)|
  {
    hide BitSet, BelowWord, LowMembers, LowBits, SumHamming;
    SumHammingIsSize(words, j);
    LowSizes(words, j, n);
    BelowSplit(words, j, n);
  }

  /** Masking with `lastpos + lastpos - 1` keeps the bits up to and including bit `n`. */
  lemma MaskedHamming(w: bv64, n: nat)
    requires n < 64
    ensures Hamming(And(w, LowMask(n + 1))) == |LowBits(w, n + 1)|
  {
    hide Bit, And, Or, Flip, LowMask;
    forall i | 0 <= i < 64 ensures Bit(And(w, LowMask(n + 1)), i) <==> Bit(w, i) && i < n + 1 {
      BitOps(w, LowMask(n + 1), i);
      BitLowMask(n + 1, i);
    }
    var p, q := WordBits(And(w, LowMask(n + 1))), LowBits(w, n + 1);
    forall i ensures i in p <==> i in q {
      if 0 <= i < 64 { assert Bit(And(w, LowMask(n + 1)), i) <==> Bit(w, i) && i < n + 1; }
    }
    assert p == q;
  }

  lemma Doubled(n: nat)
    ensures MinusOne(Shl(1, n) + Shl(1, n)) == LowMask(n + 1)
  {
    hide Shl, MinusOne;
    ShlGrow(1, n + 1);
    Twice(Shl(1, n));
    LowMaskIs(n + 1);
  }

  lemma LowMaskIs(n: nat)
    ensures LowMask(n) == MinusOne(Shl(1, n))
  {
  }

  lemma Twice(w: bv64)
    ensures w + w == w << 1
  {
  }

  /** `bitset_container_rank` */
  method Rank(bitmap: array<bv64>, x: u16) returns (sum: nat)
    requires x < 64 * bitmap.Length
    ensures sum == |Below(BitSet(bitmap[..]), x + 1)|
  {
    hide BitSet, Hamming, SumHamming, LowBits, And, Shl, LowMask, MinusOne;
    ghost var words := bitmap[..];
    NothingSummed(words);
    sum := 0;
    var i, end := 0, x / 64;
    while i < end
      invariant i <= end && sum == SumHamming(words, i)
    {
      SumNext(words, i);
      sum := sum + Hamming(bitmap[i]);
      i := i + 1;
    }
    var lastword := bitmap[i];
    var lastpos := Shl(1, x % 64);
    Doubled(x % 64);
    MaskedHamming(lastword, x % 64);
    BelowPart(words, i, x % 64 + 1);
    assert 64 * i + (x % 64 + 1) == x + 1;
    sum := sum + Hamming(And(lastword, MinusOne(lastpos + lastpos)));
  }

  lemma NothingSummed(words: seq<bv64>)
    ensures SumHamming(words, 0) == 0
  {
  }

  lemma SumNext(words: seq<bv64>, i: nat)
    requires i < |words|
    ensures SumHamming(words, i + 1) == SumHamming(words, i) + Hamming(words[i])
  {
  }

  // ---------- select ----------

  /** The scan of one word by `bitset_container_select`. */
  method SelectInWord(bits: bv64, base: u16, start: u32, rank: u32, ghost words: seq<bv64>, ghost c: nat,
                      ghost startRank: int)
    returns (found: bool, start': u32, element: u32)
    requires Pending(words, c, bits, 64 * c) && base == 64 * c && 64 * |words| <= 0x1_0000
    requires start == startRank + |Below(BitSet(words), 64 * c)| && start <= rank
    requires 0 <= startRank && startRank + |BitSet(words)| < 0x1_0000_0000
    ensures found ==> Selects(BitSet(words), rank - startRank, element)
    ensures !found ==> start' == startRank + |Below(BitSet(words), 64 * c + 64)| && start' <= rank
  {
    hide Pending, Clear, Bit, BitSet, Ctz, Flip, Lowest;
    var w := bits;
    ghost var f := 64 * c;
    ghost var s := BitSet(words);
    start' := start;
    PendingInside(words, c, w, f);
    while w != 0
      invariant 64 * c <= f <= 64 * c + 64
      invariant Pending(words, c, w, f) && start' == startRank + |Below(s, f)| && start' <= rank
      decreases 64 * c + 64 - f
    {
      PendingNext(words, c, w, f);
      var r := Ctz(w);
      ghost var x := 64 * c + r;
      BelowClear(s, f, x);
      BelowNext(s, x);
      if start' == rank {
        return true, start', r + base;
      }
      w, f := Flip(w, Lowest(w)), x + 1;
      start' := start' + 1;
    }
    PendingNothing(words, c, f);
    BelowClear(s, f, 64 * c + 64);
    return false, start', 0;
  }

  lemma BelowClear(s: set<int>, f: int, g: int)
    requires Clear(s, f, g)
    ensures Below(s, f) == Below(s, g)
  {
  }

  lemma BelowStart(words: seq<bv64>)
    ensures Below(BitSet(words), 0) == {}
    ensures Below(BitSet(words), 64 * |words|) == BitSet(words)
  {
  }

  lemma BelowWordNext(words: seq<bv64>, i: nat)
    requires i < |words|
    ensures |Below(BitSet(words), 64 * (i + 1))| == |Below(BitSet(words), 64 * i)| + Hamming(words[i])
    ensures |Below(BitSet(words), 64 * (i + 1))| <= |BitSet(words)|
  {
    hide Member, Hamming;
    SumHammingIsSize(words, i);
    SumHammingIsSize(words, i + 1);
    BelowWordIs(words, i);
    BelowWordIs(words, i + 1);
    SubsetSize(Below(BitSet(words), 64 * (i + 1)), BitSet(words));
  }

  /** `bitset_container_select`: the rank behind the container is a 32-bit sum; when it wraps to 0, nothing is found. */
  method Select(bitmap: array<bv64>, card: nat, startRank: u32, rank: u32)
    returns (found: bool, startRank': u32, element: u32)
    requires 64 * bitmap.Length <= 0x1_0000 && card == |BitSet(bitmap[..])|
    requires startRank <= rank && startRank + card <= 0x1_0000_0000
    ensures startRank + card < 0x1_0000_0000 ==>
      Selected(BitSet(bitmap[..]), startRank, rank, found, startRank', element)
    ensures startRank + card == 0x1_0000_0000 ==> !found
  {
    hide BitSet, Hamming, Pending, Selects;
    ghost var words := bitmap[..];
    if rank >= (startRank + card) % 0x1_0000_0000 {
      return false, (startRank + card) % 0x1_0000_0000, 0;
    }
    BelowStart(words);
    startRank' := startRank;
    var i := 0;
    while i < bitmap.Length
      invariant i <= bitmap.Length
      invariant startRank' == startRank + |Below(BitSet(words), 64 * i)| <= rank
    {
      var size := Hamming(bitmap[i]);
      BelowWordNext(words, i);
      if rank <= startRank' + size {
        PendingWord(words, i);
        found, startRank', element := SelectInWord(bitmap[i], i * 64, startRank', rank, words, i, startRank);
        if found {
          return;
        }
      } else {
        startRank' := startRank' + size;
      }
      i := i + 1;
    }
    assert false;
  }

  // ---------- range membership ----------

  /** `~((1ULL << n) - 1)` has the bits from `n` on. */
  lemma BitHighMask(n: nat, i: nat)
    requires n < 64 && i < 64
    ensures Bit(Not(LowMask(n)), i) <==> n <= i
  {
    hide Bit, LowMask, Not;
    BitNot(LowMask(n), i);
    BitLowMask(n, i);
  }

  /** All the bits of `m` are set in `w`. */
  ghost predicate Covers(w: bv64, m: bv64) {
    forall i :: 0 <= i < 64 && Bit(m, i) ==> Bit(w, i)
  }

  /** `(w & m) == m` */
  lemma CoversMask(w: bv64, m: bv64)
    ensures And(w, m) == m <==> Covers(w, m)
  {
    hide Bit, And;
    if And(w, m) == m {
      forall i | 0 <= i < 64 && Bit(m, i) ensures Bit(w, i) { BitAnd(w, m, i); }
    }
    if Covers(w, m) {
      forall i | 0 <= i < 64 ensures Bit(And(w, m), i) <==> Bit(m, i) { BitAnd(w, m, i); }
      SameBits(And(w, m), m);
    }
  }

  lemma BitAnd(a: bv64, b: bv64, i: nat)
    ensures Bit(And(a, b), i) <==> Bit(a, i) && Bit(b, i)
  {
    BitOps(a, b, i);
  }

  /** The members of word `j` between bits `lo` and `hi` are all there. */
  lemma WordCovers(words: seq<bv64>, j: nat, m: bv64, lo: nat, hi: nat)
    requires j < |words| && lo <= 64 && hi <= 64
    requires forall i :: 0 <= i < 64 ==> (Bit(m, i) <==> lo <= i < hi)
    ensures And(words[j], m) == m <==> Solid(BitSet(words), 64 * j + lo, 64 * j + hi)
  {
    hide Bit, And, BitSet;
    CoversMask(words[j], m);
    if And(words[j], m) == m {
      forall x | 64 * j + lo <= x < 64 * j + hi ensures x in BitSet(words) {
        WordMember(words, j, x - 64 * j);
        assert Bit(m, x - 64 * j);
      }
    }
    if Solid(BitSet(words), 64 * j + lo, 64 * j + hi) {
      forall i | 0 <= i < 64 && Bit(m, i) ensures Bit(words[j], i) {
        WordMember(words, j, i);
        assert 64 * j + i in BitSet(words);
      }
    }
  }

  lemma FirstMask(words: seq<bv64>, j: nat, lo: nat)
    requires j < |words| && lo < 64
    ensures And(words[j], Not(LowMask(lo))) == Not(LowMask(lo)) <==> Solid(BitSet(words), 64 * j + lo, 64 * j + 64)
  {
    hide Bit, And, BitSet, LowMask, Not, Solid;
    forall i | 0 <= i < 64 ensures Bit(Not(LowMask(lo)), i) <==> lo <= i < 64 { BitHighMask(lo, i); }
    WordCovers(words, j, Not(LowMask(lo)), lo, 64);
  }

  lemma LastMask(words: seq<bv64>, j: nat, hi: nat)
    requires j < |words| && hi < 64
    ensures And(words[j], LowMask(hi)) == LowMask(hi) <==> Solid(BitSet(words), 64 * j, 64 * j + hi)
  {
    hide Bit, And, BitSet, LowMask, Solid;
    forall i | 0 <= i < 64 ensures Bit(LowMask(hi), i) <==> 0 <= i < hi { BitLowMask(hi, i); }
    WordCovers(words, j, LowMask(hi), 0, hi);
  }

  lemma BothMasks(words: seq<bv64>, j: nat, lo: nat, hi: nat)
    requires j < |words| && lo < 64 && hi < 64
    ensures And(And(words[j], Not(LowMask(lo))), LowMask(hi)) == And(Not(LowMask(lo)), LowMask(hi))
      <==> Solid(BitSet(words), 64 * j + lo, 64 * j + hi)
  {
    hide Bit, And, BitSet, LowMask, Solid, Not;
    var m := And(Not(LowMask(lo)), LowMask(hi));
    forall i | 0 <= i < 64 ensures Bit(m, i) <==> lo <= i < hi {
      BitAnd(Not(LowMask(lo)), LowMask(hi), i);
      BitHighMask(lo, i);
      BitLowMask(hi, i);
    }
    WordCovers(words, j, m, lo, hi);
    AndAssociates(words[j], Not(LowMask(lo)), LowMask(hi));
  }

  lemma AndAssociates(a: bv64, b: bv64, c: bv64)
    ensures And(And(a, b), c) == And(a, And(b, c))
  {
  }

  lemma FullWord(words: seq<bv64>, j: nat)
    requires j < |words|
    ensures words[j] == ONES <==> Solid(BitSet(words), 64 * j, 64 * j + 64)
  {
    hide Bit, And, BitSet, Solid;
    forall i | 0 <= i < 64 ensures Bit(ONES, i) <==> 0 <= i < 64 { BitOnes(i); }
    WordCovers(words, j, ONES, 0, 64);
    AndOnes(words[j]);
  }

  lemma SolidJoin(s: set<int>, lo: int, mid: int, hi: int)
    requires lo <= mid <= hi
    ensures Solid(s, lo, hi) <==> Solid(s, lo, mid) && Solid(s, mid, hi)
  {
  }

  /** `bitset_container_get_range`: whether all of `[start, end)` is present. */
  method GetRange(bitmap: array<bv64>, posStart: u32, posEnd: u32) returns (b: bool)
    requires posStart < posEnd <= 64 * bitmap.Length
    ensures b <==> Solid(BitSet(bitmap[..]), posStart, posEnd)
  {
    hide And, Not, LowMask, BitSet, Solid;
    ghost var words := bitmap[..];
    ghost var s := BitSet(words);
    var start, end := posStart / 64, posEnd / 64;
    var first, last := Not(LowMask(posStart % 64)), LowMask(posEnd % 64);
    assert posStart == 64 * start + posStart % 64 && posEnd == 64 * end + posEnd % 64;
    if start == end {
      BothMasks(words, end, posStart % 64, posEnd % 64);
      return And(And(bitmap[end], first), last) == And(first, last);
    }
    FirstMask(words, start, posStart % 64);
    SolidJoin(s, posStart, 64 * start + 64, posEnd);
    SolidJoin(s, 64 * start + 64, 64 * end, posEnd);
    if And(bitmap[start], first) != first {
      return false;
    }
    if end < bitmap.Length {
      LastMask(words, end, posEnd % 64);
      if And(bitmap[end], last) != last {
        return false;
      }
    } else {
      SolidEmpty(s, posEnd);
    }
    b := AllOnes(bitmap, start + 1, end);
  }

  lemma SolidEmpty(s: set<int>, x: int)
    ensures Solid(s, x, x)
  {
  }

  /** The loop over the words strictly inside the range. */
  method AllOnes(bitmap: array<bv64>, from: nat, end: nat) returns (b: bool)
    requires from <= end <= bitmap.Length
    ensures b <==> Solid(BitSet(bitmap[..]), 64 * from, 64 * end)
  {
    hide BitSet, Solid;
    ghost var words := bitmap[..];
    SolidEmpty(BitSet(words), 64 * from);
    var i := from;
    while i < bitmap.Length && i < end
      invariant from <= i <= end && Solid(BitSet(words), 64 * from, 64 * i)
    {
      FullWord(words, i);
      SolidJoin(BitSet(words), 64 * from, 64 * i, 64 * i + 64);
      SolidJoin(BitSet(words), 64 * from, 64 * i + 64, 64 * end);
      if bitmap[i] != ONES {
        return false;
      }
      i := i + 1;
    }
    return true;
  }
}
