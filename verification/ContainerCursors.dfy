/**
 Positions inside one container: the first and last value, the next, the previous, and the first not below a bound.
 */
module ContainerCursors {
  import opened IntSets
  import opened SortedArrays
  import opened Words
  import opened Bitsets
  import opened BitsetRuns
  import opened Runs
  import opened Containers
  import BitsetQueries
  import ContainerQueries
  import RunQueries
  import RunXor

  /** `x` is the smallest member of `s` from `lo` on. */
  ghost predicate Least(s: set<int>, lo: int, x: int) {
    x in s && lo <= x && forall y :: y in s && lo <= y ==> x <= y
  }

  /** `x` is the largest member of `s` up to `hi`. */
  ghost predicate Greatest(s: set<int>, hi: int, x: int) {
    x in s && x <= hi && forall y :: y in s && y <= hi ==> y <= x
  }

  ghost predicate NoneFrom(s: set<int>, lo: int) {
    forall y :: y in s ==> y < lo
  }

  ghost predicate NoneUpTo(s: set<int>, hi: int) {
    forall y :: y in s ==> hi < y
  }

  /** The fields of the iterator that place it at value `v` of a container. */
  ghost predicate Here(c: Container, inIndex: int, runIndex: int, v: int) {
    match c
    case BitsetC(words, _) => inIndex == v && v in BitSet(words)
    case ArrayC(vals) => 0 <= inIndex < |vals| && vals[inIndex] == v
    case RunC(runs) => 0 <= runIndex < |runs| && runs[runIndex].Contains(v)
  }

  // ---------- bitsets, upwards ----------

  /** `word & (UINT64_MAX << (idx % 64))` */
  lemma PendingMask(words: seq<bv64>, idx: nat)
    requires idx < 64 * |words|
    ensures Pending(words, idx / 64, And(words[idx / 64], Shl(ONES, idx % 64)), idx)
  {
    hide Bit, BitSet, And, Shl;
    var c, w := idx / 64, words[idx / 64];
    forall i | 0 <= i < 64
      ensures Bit(And(w, Shl(ONES, idx % 64)), i) <==> 64 * c + i in BitSet(words) && idx <= 64 * c + i
    {
      BitsetQueries.BitAnd(w, Shl(ONES, idx % 64), i);
      OnesShiftedUp(idx % 64, i);
      WordMember(words, c, i);
    }
  }

  /** The lowest bit of a pending word. */
  lemma PendingLeast(words: seq<bv64>, c: nat, w: bv64, f: int, lo: int)
    requires Pending(words, c, w, f) && w != 0 && Clear(BitSet(words), lo, f)
    ensures Ctz(w) < 64 && Least(BitSet(words), lo, 64 * c + Ctz(w))
  {
    hide Bit, BitSet, Ctz;
    CtzBit(w);
    var x := 64 * c + Ctz(w);
    forall y | f <= y < x ensures y !in BitSet(words) { assert !Bit(w, y - 64 * c); }
  }

  /** The word loop that every upward search of a bitset ends in. */
  method FirstFrom(words: seq<bv64>, wordindex: nat, masked: bv64, ghost lo: int) returns (found: bool, index: int)
    requires Pending(words, wordindex, masked, lo)
    ensures found ==> Least(BitSet(words), lo, index)
    ensures !found ==> NoneFrom(BitSet(words), lo)
  {
    hide Pending, Clear, Bit, BitSet, Ctz, Least;
    PendingInside(words, wordindex, masked, lo);
    BitSetBounds(words);
    var c, word := wordindex, masked;
    ghost var f := lo;
    while word == 0 && c + 1 < |words|
      invariant c < |words| && Pending(words, c, word, f) && Clear(BitSet(words), lo, f)
      decreases |words| - c
    {
      PendingNothing(words, c, f);
      ClearJoin(BitSet(words), lo, f, 64 * c + 64);
      c := c + 1;
      PendingWord(words, c);
      word, f := words[c], 64 * c;
    }
    if word != 0 {
      PendingLeast(words, c, word, f, lo);
      return true, c * 64 + Ctz(word);
    }
    PendingNothing(words, c, f);
    ClearJoin(BitSet(words), lo, f, 64 * c + 64);
    NothingLater(BitSet(words), lo, 64 * |words|);
    return false, -1;
  }

  lemma NothingLater(s: set<int>, lo: int, n: int)
    requires Clear(s, lo, n) && s <= Range(0, n)
    ensures NoneFrom(s, lo)
  {
    forall y | y in s ensures y < lo { assert y in Range(0, n); }
  }

  // ---------- bitsets, downwards ----------

  /** `cur` is word `c` without the bits above position `f`. */
  ghost predicate PendingDown(words: seq<bv64>, c: nat, cur: bv64, f: int) {
    && c < |words| && 64 * c <= f < 64 * c + 64
    && forall i :: 0 <= i < 64 ==> (Bit(cur, i) <==> 64 * c + i in BitSet(words) && 64 * c + i <= f)
  }

  /** `word & (UINT64_MAX >> (63 - idx % 64))` */
  lemma PendingDownMask(words: seq<bv64>, idx: nat)
    requires idx < 64 * |words|
    ensures PendingDown(words, idx / 64, And(words[idx / 64], Shr(ONES, 63 - idx % 64)), idx)
  {
    hide Bit, BitSet, And, Shr;
    var c, w := idx / 64, words[idx / 64];
    var m := And(w, Shr(ONES, 63 - idx % 64));
    forall i | 0 <= i < 64 ensures Bit(m, i) <==> 64 * c + i in BitSet(words) && 64 * c + i <= idx {
      BitsetQueries.BitAnd(w, Shr(ONES, 63 - idx % 64), i);
      OnesShiftedDown(63 - idx % 64, i);
      WordMember(words, c, i);
    }
  }

  lemma PendingDownWord(words: seq<bv64>, c: nat)
    requires c < |words|
    ensures PendingDown(words, c, words[c], 64 * c + 63)
  {
    hide Bit, BitSet;
    var w := words[c];
    forall i | 0 <= i < 64 ensures Bit(w, i) <==> 64 * c + i in BitSet(words) { WordMember(words, c, i); }
  }

  lemma PendingDownBounds(words: seq<bv64>, c: nat, w: bv64, f: int)
    requires PendingDown(words, c, w, f)
    ensures c < |words| && 64 * c <= f < 64 * c + 64
  {
  }

  lemma PendingDownNothing(words: seq<bv64>, c: nat, f: int)
    requires PendingDown(words, c, 0, f)
    ensures Clear(BitSet(words), 64 * c, f + 1)
  {
    hide Bit, BitSet;
    forall x | 64 * c <= x < f + 1 ensures x !in BitSet(words) {
      BitZero(x - 64 * c);
      assert !Bit(0, x - 64 * c);
    }
  }

  lemma PendingGreatest(words: seq<bv64>, c: nat, w: bv64, f: int, hi: int)
    requires PendingDown(words, c, w, f) && w != 0 && Clear(BitSet(words), f + 1, hi + 1)
    ensures Highest(w) < 64 && Greatest(BitSet(words), hi, 64 * c + Highest(w))
  {
    hide Bit, BitSet, Highest;
    HighestIsBit(w);
    BitRange(w, Highest(w));
    var x := 64 * c + Highest(w);
    forall y | y in BitSet(words) && y <= hi ensures y <= x {
      if x < y <= f {
        assert Bit(w, y - 64 * c);
        HighestIsLast(w, y - 64 * c);
      }
    }
  }

  /** The word loop that every downward search of a bitset ends in. */
  method LastUpTo(words: seq<bv64>, wordindex: nat, masked: bv64, ghost hi: int) returns (found: bool, index: int)
    requires PendingDown(words, wordindex, masked, hi)
    ensures found ==> Greatest(BitSet(words), hi, index)
    ensures !found ==> NoneUpTo(BitSet(words), hi)
  {
    hide PendingDown, Clear, Bit, BitSet, Highest, Greatest;
    PendingDownBounds(words, wordindex, masked, hi);
    BitSetBounds(words);
    ClearNone(BitSet(words), hi + 1);
    var c: nat, word := wordindex, masked;
    ghost var f := hi;
    while word == 0 && c > 0
      invariant c < |words| && PendingDown(words, c, word, f) && Clear(BitSet(words), f + 1, hi + 1)
      decreases c
    {
      PendingDownNothing(words, c, f);
      ClearJoin(BitSet(words), 64 * c, f + 1, hi + 1);
      c := c - 1;
      PendingDownWord(words, c);
      word, f := words[c], 64 * c + 63;
    }
    if word != 0 {
      PendingGreatest(words, c, word, f, hi);
      return true, c * 64 + Highest(word);
    }
    PendingDownNothing(words, c, f);
    ClearJoin(BitSet(words), 64 * c, f + 1, hi + 1);
    NothingEarlier(BitSet(words), hi, 64 * |words|);
    return false, -1;
  }

  lemma ClearNone(s: set<int>, x: int)
    ensures Clear(s, x, x)
  {
  }

  lemma NothingEarlier(s: set<int>, hi: int, n: int)
    requires Clear(s, 0, hi + 1) && s <= Range(0, n)
    ensures NoneUpTo(s, hi)
  {
    forall y | y in s ensures hi < y { assert y in Range(0, n); }
  }

  // ---------- arrays and runs ----------

  lemma ArrayLeast(vals: seq<u16>, i: nat)
    requires Sorted(vals) && i < |vals|
    ensures Least(Elements(vals), if i == 0 then 0 else vals[i - 1] + 1 as int, vals[i])
    ensures i + 1 == |vals| ==> NoneFrom(Elements(vals), vals[i] as int + 1)
    ensures Greatest(Elements(vals), if i + 1 == |vals| then 0xFFFF else vals[i + 1] as int - 1, vals[i])
    ensures i == 0 ==> NoneUpTo(Elements(vals), vals[i] as int - 1)
  {
    var s, x: int := Elements(vals), vals[i];
    assert x in s;
    forall y | y in s ensures y <= x || (i + 1 < |vals| && vals[i + 1] <= y) {
      var k :| 0 <= k < |vals| && vals[k] == y;
    }
    forall y | y in s ensures x <= y || (i > 0 && y <= vals[i - 1]) {
      var k :| 0 <= k < |vals| && vals[k] == y;
    }
  }

  /** Around a value of a run: its neighbours are in the run, or at the ends of the next runs. */
  lemma RunLeast(runs: seq<Run>, i: nat)
    requires Canonical(runs) && i < |runs|
    ensures Least(Denote(runs), RunXor.EndOf(runs, i), runs[i].value)
    ensures i + 1 == |runs| ==> NoneFrom(Denote(runs), runs[i].End())
    ensures Greatest(Denote(runs), if i + 1 == |runs| then 0xFFFF else runs[i + 1].value - 1, runs[i].End() - 1)
    ensures i == 0 ==> NoneUpTo(Denote(runs), runs[i].value - 1)
  {
    hide Denote;
    CanonicalEnds(runs);
    DenoteMember(runs, i, runs[i].value);
    DenoteMember(runs, i, runs[i].End() - 1);
    forall y | y in Denote(runs)
      ensures y < runs[i].End() || (i + 1 < |runs| && runs[i + 1].value <= y)
      ensures runs[i].value <= y || (i > 0 && y < runs[i - 1].End())
    {
      var k := DenoteWitness(runs, y);
    }
  }

  lemma InsideRun(runs: seq<Run>, i: nat, v: int)
    requires i < |runs| && runs[i].Contains(v)
    ensures Least(Denote(runs), v, v) && Greatest(Denote(runs), v, v)
  {
    hide Denote;
    DenoteMember(runs, i, v);
  }

  lemma LeastFrom(s: set<int>, lo: int, lo': int, x: int)
    requires Least(s, lo, x) && lo <= lo' <= x
    ensures Least(s, lo', x)
  {
  }

  // ---------- the operations ----------

  /** `loadfirstvalue` on a loaded container. */
  method First(c: Container) returns (inIndex: int, runIndex: int, v: u16)
    requires Good(c)
    ensures Here(c, inIndex, runIndex, v) && Least(Elems(c), 0, v)
  {
    hide BitSet, Denote, Canonical, Elements, Sorted, Least, Pending;
    inIndex, runIndex := 0, 0;
    match c {
      case BitsetC(words, _) =>
        PendingWord(words, 0);
        var found;
        found, inIndex := FirstFrom(words, 0, words[0], 0);
        FoundInBitset(c, words, found, inIndex);
        v := inIndex;
      case ArrayC(vals) =>
        ContainerQueries.NonEmptyArray(vals);
        ArrayLeast(vals, 0);
        v := vals[0];
      case RunC(runs) =>
        ContainerQueries.NonEmptyRuns(runs);
        RunLeast(runs, 0);
        v := runs[0].value;
    }
  }

  lemma NoneAtAll(s: set<int>)
    requires s <= Range(0, 0x1_0000)
    ensures NoneFrom(s, 0) <==> s == {}
    ensures NoneUpTo(s, 0xFFFF) <==> s == {}
  {
    if NoneFrom(s, 0) || NoneUpTo(s, 0xFFFF) {
      forall y ensures y !in s { if y in Range(0, 0x1_0000) {} }
    }
  }

  lemma FoundInBitset(c: Container, words: seq<bv64>, found: bool, index: int)
    requires Good(c) && c.BitsetC? && c.words == words
    requires found ==> Least(BitSet(words), 0, index)
    requires !found ==> NoneFrom(BitSet(words), 0)
    ensures found && index in BitSet(words) && 0 <= index < 0x1_0000
  {
    hide BitSet, NoneFrom, NoneUpTo;
    BitSetBounds(words);
    NoneAtAll(BitSet(words));
    if found { InRange16(BitSet(words), index); }
  }

  /** `loadlastvalue` on a loaded container. */
  method Last(c: Container) returns (inIndex: int, runIndex: int, v: u16)
    requires Good(c)
    ensures Here(c, inIndex, runIndex, v) && Greatest(Elems(c), 0xFFFF, v)
  {
    hide BitSet, Denote, Canonical, Elements, Sorted, Greatest, PendingDown;
    inIndex, runIndex := 0, 0;
    match c {
      case BitsetC(words, _) =>
        PendingDownWord(words, BITSET_WORDS - 1);
        var found;
        found, inIndex := LastUpTo(words, BITSET_WORDS - 1, words[BITSET_WORDS - 1], 0xFFFF);
        FoundLastInBitset(c, words, found, inIndex);
        v := inIndex;
      case ArrayC(vals) =>
        ContainerQueries.NonEmptyArray(vals);
        ArrayLeast(vals, |vals| - 1);
        inIndex := |vals| - 1;
        v := vals[inIndex];
      case RunC(runs) =>
        ContainerQueries.NonEmptyRuns(runs);
        RunLeast(runs, |runs| - 1);
        CanonicalEnds(runs);
        runIndex := |runs| - 1;
        v := runs[runIndex].value + runs[runIndex].length;
    }
  }

  lemma FoundLastInBitset(c: Container, words: seq<bv64>, found: bool, index: int)
    requires Good(c) && c.BitsetC? && c.words == words
    requires found ==> Greatest(BitSet(words), 0xFFFF, index)
    requires !found ==> NoneUpTo(BitSet(words), 0xFFFF)
    ensures found && index in BitSet(words) && 0 <= index < 0x1_0000
  {
    hide BitSet, NoneFrom, NoneUpTo;
    BitSetBounds(words);
    NoneAtAll(BitSet(words));
    if found { InRange16(BitSet(words), index); }
  }

  /** The bitset branch of `roaring_advance_uint32_iterator`. */
  method NextInBitset(words: seq<bv64>, inIndex: nat) returns (found: bool, index: int)
    requires |words| == BITSET_WORDS && inIndex < 0x1_0000
    ensures found ==> Least(BitSet(words), inIndex + 1, index) && 0 <= index < 0x1_0000
    ensures !found ==> NoneFrom(BitSet(words), inIndex + 1)
  {
    hide BitSet, Pending;
    BitSetBounds(words);
    var next := inIndex + 1;
    var wordindex := next / 64;
    if wordindex >= BITSET_WORDS {
      OutOfRange(BitSet(words), inIndex);
      return false, next;
    }
    PendingMask(words, next);
    found, index := FirstFrom(words, wordindex, And(words[wordindex], Shl(ONES, next % 64)), next);
    if found { InRange16(BitSet(words), index); }
  }

  lemma InRange16(s: set<int>, x: int)
    requires s <= Range(0, 0x1_0000) && x in s
    ensures 0 <= x < 0x1_0000
  {
    assert x in Range(0, 0x1_0000);
  }

  lemma OutOfRange(s: set<int>, x: int)
    requires s <= Range(0, 0x1_0000) && 0xFFFF <= x
    ensures NoneFrom(s, x + 1)
  {
    forall y | y in s ensures y < x + 1 { assert y in Range(0, 0x1_0000); }
  }

  /** The bitset branch of `roaring_previous_uint32_iterator`. */
  method PreviousInBitset(words: seq<bv64>, inIndex: nat) returns (found: bool, index: int)
    requires |words| == BITSET_WORDS && inIndex < 0x1_0000
    ensures found ==> Greatest(BitSet(words), inIndex - 1, index) && 0 <= index < 0x1_0000
    ensures !found ==> NoneUpTo(BitSet(words), inIndex - 1)
  {
    hide BitSet, PendingDown;
    BitSetBounds(words);
    if inIndex == 0 {
      forall y | y in BitSet(words) ensures -1 < y { InRange16(BitSet(words), y); }
      return false, -1;
    }
    var previous := inIndex - 1;
    PendingDownMask(words, previous);
    found, index := LastUpTo(words, previous / 64, And(words[previous / 64], Shr(ONES, 63 - previous % 64)), previous);
    if found { InRange16(BitSet(words), index); }
  }

  /** `bitset_container_index_equalorlarger` */
  method BitsetFrom(words: seq<bv64>, x: u16) returns (found: bool, index: int)
    requires |words| == BITSET_WORDS
    ensures found ==> Least(BitSet(words), x, index) && 0 <= index < 0x1_0000
    ensures !found ==> NoneFrom(BitSet(words), x)
  {
    hide BitSet, Pending, Shl, Shr;
    BitSetBounds(words);
    var k, diff := x / 64, x % 64;
    PendingShifts(words, x);
    found, index := FirstFrom(words, k, Shl(Shr(words[k], diff), diff), x);
    if found { InRange16(BitSet(words), index); }
  }

  /** `(word >> diff) << diff` */
  lemma PendingShifts(words: seq<bv64>, idx: nat)
    requires idx < 64 * |words|
    ensures Pending(words, idx / 64, Shl(Shr(words[idx / 64], idx % 64), idx % 64), idx)
  {
    hide Bit, BitSet, Shl, Shr;
    var c, w, d := idx / 64, words[idx / 64], idx % 64;
    forall i | 0 <= i < 64 ensures Bit(Shl(Shr(w, d), d), i) <==> 64 * c + i in BitSet(words) && idx <= 64 * c + i {
      BitShl(Shr(w, d), d, i);
      if i >= d { BitShr(w, d, i - d); }
      WordMember(words, c, i);
    }
  }

  /** `loadfirstvalue_largeorequal` on a loaded container whose maximum is at least `lb`. */
  method FirstNotBelow(c: Container, lb: u16) returns (inIndex: int, runIndex: int, v: u16)
    requires Good(c) && !NoneFrom(Elems(c), lb)
    ensures Here(c, inIndex, runIndex, v) && Least(Elems(c), lb, v)
  {
    hide BitSet, Denote, Canonical, Elements, Sorted, Least, NoneFrom;
    inIndex, runIndex := 0, 0;
    match c {
      case BitsetC(words, _) =>
        var found;
        found, inIndex := BitsetFrom(words, lb);
        LeastIn(BitSet(words), lb, inIndex, found);
        v := inIndex;
      case ArrayC(vals) =>
        var a := LoadArray(vals);
        inIndex := a.IndexEqualOrLarger(lb);
        ArrayFromBound(vals, lb, inIndex);
        v := vals[inIndex];
      case RunC(runs) =>
        var run := LoadRuns(runs);
        runIndex := RunQueries.IndexEqualOrLarger(run, lb);
        RunFromBound(runs, lb, runIndex);
        if runs[runIndex].value <= lb {
          v := lb;
        } else {
          v := runs[runIndex].value;
        }
    }
  }

  lemma LeastIn(s: set<int>, lo: int, x: int, found: bool)
    requires found ==> Least(s, lo, x)
    requires !found ==> NoneFrom(s, lo)
    requires !NoneFrom(s, lo)
    ensures found && x in s
  {
  }

  lemma ArrayFromBound(vals: seq<u16>, lb: u16, i: int)
    requires Sorted(vals) && -1 <= i < |vals| && LowerBound(vals, lb, if i == -1 then |vals| else i)
    requires !NoneFrom(Elements(vals), lb)
    ensures 0 <= i && Least(Elements(vals), lb, vals[i])
  {
    var y :| y in Elements(vals) && lb <= y;
    var k :| 0 <= k < |vals| && vals[k] == y;
    forall z | z in Elements(vals) && lb <= z ensures i >= 0 && vals[i] <= z {
      var j :| 0 <= j < |vals| && vals[j] == z;
    }
  }

  lemma RunFromBound(runs: seq<Run>, lb: u16, i: int)
    requires Canonical(runs) && -1 <= i < |runs| && !NoneFrom(Denote(runs), lb)
    requires i >= 0 ==> lb < runs[i].End() && (i > 0 ==> runs[i - 1].End() <= lb)
    requires i == -1 && |runs| > 0 ==> runs[|runs| - 1].End() <= lb
    ensures 0 <= i && Least(Denote(runs), lb, if runs[i].value <= lb then lb as int else runs[i].value as int)
  {
    hide Denote, Canonical;
    var y :| y in Denote(runs) && lb <= y;
    DenoteBelow(runs, y);
    InsideOrNext(runs, lb, i);
  }

  lemma InsideOrNext(runs: seq<Run>, lb: u16, i: nat)
    requires Canonical(runs) && i < |runs| && lb < runs[i].End() && (i > 0 ==> runs[i - 1].End() <= lb)
    ensures Least(Denote(runs), lb, if runs[i].value <= lb then lb as int else runs[i].value as int)
  {
    hide Denote, Canonical;
    if runs[i].value <= lb {
      InsideRun(runs, i, lb);
    } else {
      RunLeast(runs, i);
      LeastFrom(Denote(runs), RunXor.EndOf(runs, i), lb, runs[i].value);
    }
  }
}
