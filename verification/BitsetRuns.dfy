/** From bitsets to run lists: counting the runs word by word, and extracting them. */
module BitsetRuns {
  import opened IntSets
  import opened Words
  import opened Bitsets
  import opened Runs
  import opened RunContainers

  // ---------- the number of runs ----------

  /** The last values of runs among the first `n` positions of word `j`. */
  ghost function WordEnds(words: seq<bv64>, j: nat, n: nat): set<int> {
    set x: int | 64 * j <= x < 64 * j + n && x in Ends(BitSet(words))
  }

  lemma EndAt(words: seq<bv64>, j: nat, i: nat)
    requires j < |words| && i < 63
    ensures 64 * j + i in Ends(BitSet(words)) <==> Bit(words[j], i) && !Bit(words[j], i + 1)
  {
    hide Bit, Member;
    MemberAt(words, j, i);
    MemberAt(words, j, i + 1);
  }

  lemma EndAtTop(words: seq<bv64>, j: nat)
    requires j < |words|
    ensures 64 * j + 63 in Ends(BitSet(words)) <==>
      Bit(words[j], 63) && !(j + 1 < |words| && Bit(words[j + 1], 0))
  {
  }

  lemma WordEndsStep(words: seq<bv64>, j: nat, n: nat)
    requires n > 0
    ensures |WordEnds(words, j, n)|
         == |WordEnds(words, j, n - 1)| + (if 64 * j + n - 1 in Ends(BitSet(words)) then 1 else 0)
  {
    hide BitSet, Ends;
    var x := 64 * j + n - 1;
    assert WordEnds(words, j, n) == WordEnds(words, j, n - 1) + (if x in Ends(BitSet(words)) then {x} else {});
  }

  /** The word of `hamming((~w) & (w << 1))`: bit `i + 1` is set iff a run ends at bit `i`. */
  function EndWord(w: bv64): bv64 { And(Not(w), w << 1) }

  lemma EndWordBit(w: bv64, i: nat)
    requires i < 64
    ensures Bit(EndWord(w), i) <==> i > 0 && Bit(w, i - 1) && !Bit(w, i)
  {
    hide Bit, And, Or, Flip, Not;
    BitOps(Not(w), w << 1, i);
    BitNot(w, i);
    BitShlOne(w, i);
  }

  lemma {:induction false} EndsInWord(words: seq<bv64>, j: nat, n: nat)
    requires j < |words| && n <= 63
    ensures |WordEnds(words, j, n)| == |LowBits(EndWord(words[j]), n + 1)|
    decreases n
  {
    var m := EndWord(words[j]);
    hide Bit, EndWord, WordEnds, LowBits, Ends, BitSet;
    LowBitsStep(m, n + 1);
    EndWordBit(words[j], n);
    if n == 0 {
      NoLowBits(m);
      NoWordEnds(words, j);
    } else {
      EndsInWord(words, j, n - 1);
      WordEndsStep(words, j, n);
      EndAt(words, j, n - 1);
    }
  }

  lemma NoLowBits(m: bv64)
    ensures LowBits(m, 0) == {}
  {
  }

  lemma NoWordEnds(words: seq<bv64>, j: nat)
    ensures WordEnds(words, j, 0) == {}
  {
  }

  /** What one word adds to the number of runs. */
  function RunsEndingIn(w: bv64, next: bv64): nat {
    Hamming(EndWord(w)) + (if Bit(w, 63) && !Bit(next, 0) then 1 else 0)
  }

  lemma EndsOfWord(words: seq<bv64>, j: nat)
    requires j < |words|
    ensures |WordEnds(words, j, 64)| == RunsEndingIn(words[j], if j + 1 < |words| then words[j + 1] else 0)
  {
    hide Bit, EndWord, WordEnds, Ends, BitSet;
    EndsInWord(words, j, 63);
    WordEndsStep(words, j, 64);
    EndAtTop(words, j);
    BitZero(0);
    assert WordBits(EndWord(words[j])) == LowBits(EndWord(words[j]), 64);
  }

  ghost function EndsBelow(words: seq<bv64>, n: nat): set<int> {
    set x: int | 0 <= x < 64 * n && x in Ends(BitSet(words))
  }

  lemma EndsBelowStep(words: seq<bv64>, n: nat)
    requires n < |words|
    ensures |EndsBelow(words, n + 1)| == |EndsBelow(words, n)| + |WordEnds(words, n, 64)|
  {
    hide Ends, BitSet;
    assert EndsBelow(words, n + 1) == EndsBelow(words, n) + WordEnds(words, n, 64);
  }

  lemma EndsBelowAll(words: seq<bv64>)
    ensures EndsBelow(words, 0) == {} && EndsBelow(words, |words|) == Ends(BitSet(words))
  {
  }

  /** `bitset_container_number_of_runs` */
  method NumberOfRuns(bitmap: array<bv64>) returns (numRuns: nat)
    requires bitmap.Length > 0
    ensures numRuns == |Ends(BitSet(bitmap[..]))|
  {
    hide Bit, BitSet, Ends, EndsBelow, WordEnds, EndWord;
    ghost var words := bitmap[..];
    EndsBelowAll(words);
    numRuns := 0;
    var nextWord := bitmap[0];
    var i := 0;
    while i < bitmap.Length - 1
      invariant i <= bitmap.Length - 1 && nextWord == words[i] && numRuns == |EndsBelow(words, i)|
    {
      var word := nextWord;
      nextWord := bitmap[i + 1];
      EndsOfWord(words, i);
      EndsBelowStep(words, i);
      numRuns := numRuns + Hamming(EndWord(word)) + (if Bit(word, 63) && !Bit(nextWord, 0) then 1 else 0);
      i := i + 1;
    }
    EndsOfWord(words, i);
    EndsBelowStep(words, i);
    BitZero(0);
    numRuns := numRuns + Hamming(EndWord(nextWord));
    if Bit(nextWord, 63) {
      numRuns := numRuns + 1;
    }
  }

  // ---------- extracting the runs ----------

  /** No member of `s` in `[lo, hi)`. */
  ghost predicate Clear(s: set<int>, lo: int, hi: int) {
    lo <= hi && forall x :: lo <= x < hi ==> x !in s
  }

  /** Only members of `s` in `[lo, hi)`. */
  ghost predicate Solid(s: set<int>, lo: int, hi: int) {
    forall x :: lo <= x < hi ==> x in s
  }

  /** `acc` holds the runs of the members of `s` below `f`, and `f` does not cut a run. */
  ghost predicate Scanned(s: set<int>, acc: seq<Run>, f: int) {
    && Canonical(acc) && Denote(acc) == Below(s, f)
    && (f - 1 in s ==> f !in s)
  }

  lemma ScannedFits(s: set<int>, acc: seq<Run>, f: int)
    requires Scanned(s, acc, f)
    ensures |acc| <= |Ends(s)|
  {
    hide Denote, Canonical;
    EndCount(acc);
    var p, q := Ends(Denote(acc)), Ends(s);
    forall x | x in p ensures x in q {
      assert x in Below(s, f) && x + 1 !in Below(s, f);
    }
    SubsetSize(p, q);
  }

  lemma ScannedStart(s: set<int>)
    requires s <= Range(0, 0x1_0000)
    ensures Scanned(s, [], 0)
  {
  }

  lemma ScannedSkip(s: set<int>, acc: seq<Run>, f: int, g: int)
    requires Scanned(s, acc, f) && Clear(s, f, g)
    ensures Scanned(s, acc, g)
  {
  }

  lemma ScannedRun(s: set<int>, acc: seq<Run>, f: int, end: int)
    requires Scanned(s, acc, f) && Solid(s, f, end) && end !in s && 0 <= f < end <= 0x1_0000
    ensures Scanned(s, acc + [Interval(f, end)], end)
  {
    hide Denote;
    var r := Interval(f, end);
    if acc != [] {
      var last := acc[|acc| - 1];
      DenoteMember(acc, |acc| - 1, last.End() - 1);
      assert last.End() - 1 in Below(s, f) && f in s;
    }
    CanonicalSnoc(acc, r);
    DenoteSnoc(acc, r);
    assert Below(s, end) == Below(s, f) + Range(f, end);
  }

  /** `cur` is word `c` without the bits below position `f`. */
  ghost predicate Pending(words: seq<bv64>, c: nat, cur: bv64, f: int) {
    && c < |words| && 64 * c <= f <= 64 * c + 64
    && forall i :: 0 <= i < 64 ==> (Bit(cur, i) <==> 64 * c + i in BitSet(words) && f <= 64 * c + i)
  }

  lemma WordMember(words: seq<bv64>, c: nat, i: nat)
    requires c < |words| && i < 64
    ensures 64 * c + i in BitSet(words) <==> Bit(words[c], i)
  {
    hide Bit, Member;
    MemberAt(words, c, i);
  }

  lemma PendingWord(words: seq<bv64>, c: nat)
    requires c < |words|
    ensures Pending(words, c, words[c], 64 * c)
  {
    hide Bit, BitSet;
    forall i | 0 <= i < 64 ensures Bit(words[c], i) <==> 64 * c + i in BitSet(words) { WordMember(words, c, i); }
  }

  lemma PendingNothing(words: seq<bv64>, c: nat, f: int)
    requires Pending(words, c, 0, f)
    ensures Clear(BitSet(words), f, 64 * c + 64)
  {
    hide Bit, BitSet;
    forall x | f <= x < 64 * c + 64 ensures x !in BitSet(words) {
      BitZero(x - 64 * c);
      assert !Bit(0, x - 64 * c);
    }
  }

  lemma ClearJoin(s: set<int>, lo: int, mid: int, hi: int)
    requires Clear(s, lo, mid) && Clear(s, mid, hi)
    ensures Clear(s, lo, hi)
  {
  }

  /** The next member is the lowest bit of the pending word. */
  lemma PendingFirst(words: seq<bv64>, c: nat, cur: bv64, f: int)
    requires Pending(words, c, cur, f) && cur != 0
    ensures Ctz(cur) < 64
    ensures var start := Ctz(cur) + 64 * c;
      f <= start && Clear(BitSet(words), f, start) && Filled(words, c, Fill(cur), start)
  {
    hide Bit, BitSet, Fill, Ctz;
    CtzBit(cur);
    var start := Ctz(cur) + 64 * c;
    assert start == 64 * c + Ctz(cur);
    forall x | f <= x < start ensures x !in BitSet(words) {
      assert !Bit(cur, x - 64 * c);
    }
    forall i | 0 <= i < 64
      ensures Bit(Fill(cur), i) <==> 64 * c + i in BitSet(words) || 64 * c + i < start
    {
      BitFill(cur, i);
      assert Bit(cur, i) <==> 64 * c + i in BitSet(words) && f <= 64 * c + i;
    }
  }

  /** The members from `start` on fill every word before `c`; `ones` is word `c` with ones below `start`. */
  ghost predicate Filled(words: seq<bv64>, c: nat, ones: bv64, start: int) {
    && c < |words| && start < 64 * c + 64 && start in BitSet(words)
    && Solid(BitSet(words), start, 64 * c)
    && forall i :: 0 <= i < 64 ==> (Bit(ones, i) <==> 64 * c + i in BitSet(words) || 64 * c + i < start)
  }

  lemma FilledFull(words: seq<bv64>, c: nat, start: int)
    requires Filled(words, c, ONES, start)
    ensures Solid(BitSet(words), start, 64 * c + 64)
    ensures c + 1 < |words| ==> Filled(words, c + 1, words[c + 1], start)
  {
    hide Bit, BitSet;
    forall x | start <= x < 64 * c + 64 ensures x in BitSet(words) {
      if x >= 64 * c {
        BitOnes(x - 64 * c);
        assert Bit(ONES, x - 64 * c);
      }
    }
    if c + 1 < |words| {
      var next := words[c + 1];
      forall i | 0 <= i < 64 ensures Bit(next, i) <==> 64 * (c + 1) + i in BitSet(words) {
        WordMember(words, c + 1, i);
      }
    }
  }

  /** The run ends at the lowest zero, and what remains of the word is pending. */
  lemma FilledEnd(words: seq<bv64>, c: nat, ones: bv64, start: int)
    requires Filled(words, c, ones, start) && ones != ONES
    ensures Not(ones) != 0 && Ctz(Not(ones)) < 64
    ensures var end := Ctz(Not(ones)) + 64 * c;
      && start < end && end !in BitSet(words) && Solid(BitSet(words), start, end)
      && Pending(words, c, ClearOnes(ones), end)
  {
    hide Bit, BitSet, ClearOnes, Ctz, FirstZero, Not;
    NotZero(ones);
    CtzNot(ones);
    FirstZeroClear(ones);
    var z := FirstZero(ones);
    var end := z + 64 * c;
    assert end == 64 * c + z;
    forall x | start <= x < end ensures x in BitSet(words) {
      if x >= 64 * c {
        FirstZeroBelow(ones, x - 64 * c);
        assert Bit(ones, x - 64 * c);
      }
    }
    forall i | 0 <= i < 64
      ensures Bit(ClearOnes(ones), i) <==> 64 * c + i in BitSet(words) && end <= 64 * c + i
    {
      BitClear(ones, i);
      assert Bit(ones, i) <==> 64 * c + i in BitSet(words) || 64 * c + i < start;
    }
  }

  lemma NotZero(w: bv64)
    ensures w != ONES ==> Not(w) != 0
  {
  }

  /** The loop that skips empty words. */
  method SkipZeros(bitmap: array<bv64>, longCtr: nat, curWord: bv64, ghost f: int)
    returns (c: nat, cur: bv64, ghost g: int)
    requires Pending(bitmap[..], longCtr, curWord, f)
    ensures longCtr <= c && Pending(bitmap[..], c, cur, g) && Clear(BitSet(bitmap[..]), f, g)
    ensures cur == 0 ==> c == bitmap.Length - 1
  {
    hide Pending, Clear, Bit, BitSet;
    PendingInside(bitmap[..], longCtr, curWord, f);
    c, cur, g := longCtr, curWord, f;
    while cur == 0 && c < bitmap.Length - 1
      invariant longCtr <= c < bitmap.Length
      invariant Pending(bitmap[..], c, cur, g) && Clear(BitSet(bitmap[..]), f, g)
    {
      PendingNothing(bitmap[..], c, g);
      c := c + 1;
      PendingWord(bitmap[..], c);
      ClearJoin(BitSet(bitmap[..]), f, g, 64 * c);
      cur, g := bitmap[c], 64 * c;
    }
  }

  lemma PendingInside(words: seq<bv64>, c: nat, cur: bv64, f: int)
    requires Pending(words, c, cur, f)
    ensures c < |words| && Clear(BitSet(words), f, f) && 64 * c <= f <= 64 * c + 64
  {
  }

  /** The loop that skips full words. */
  method SkipOnes(bitmap: array<bv64>, longCtr: nat, curWordWith1s: bv64, ghost start: int)
    returns (c: nat, ones: bv64)
    requires Filled(bitmap[..], longCtr, curWordWith1s, start)
    ensures longCtr <= c && Filled(bitmap[..], c, ones, start)
    ensures ones == ONES ==> c == bitmap.Length - 1
  {
    hide Filled, Bit, BitSet;
    FilledInside(bitmap[..], longCtr, curWordWith1s, start);
    c, ones := longCtr, curWordWith1s;
    while ones == ONES && c < bitmap.Length - 1
      invariant longCtr <= c < bitmap.Length && Filled(bitmap[..], c, ones, start)
    {
      FilledFull(bitmap[..], c, start);
      c := c + 1;
      ones := bitmap[c];
    }
  }

  lemma FilledInside(words: seq<bv64>, c: nat, ones: bv64, start: int)
    requires Filled(words, c, ones, start)
    ensures c < |words| && start in BitSet(words) && start < 64 * c + 64
  {
  }

  /** `add_run` into a container created with room for exactly the runs of the set. */
  method AddRun(answer: RunContainer, start: int, end: int, ghost s: set<int>)
    requires answer.nRuns <= answer.runs.Length == |Ends(s)|
    requires Scanned(s, answer.View(), start) && Solid(s, start, end) && end !in s && 0 <= start < end <= 0x1_0000
    modifies answer`nRuns, answer.runs
    ensures answer.nRuns <= answer.runs.Length && Scanned(s, answer.View(), end)
  {
    hide Scanned, Solid, Ends;
    ScannedRun(s, answer.View(), start, end);
    ScannedFits(s, answer.View() + [Interval(start, end)], end);
    answer.Push(Run(start, end - 1 - start));
  }

  lemma ScannedAll(words: seq<bv64>, acc: seq<Run>, f: int)
    requires Scanned(BitSet(words), acc, f) && Clear(BitSet(words), f, 64 * |words|)
    ensures Canonical(acc) && Denote(acc) == BitSet(words)
  {
  }

  lemma BitSetBounds(words: seq<bv64>)
    ensures BitSet(words) <= Range(0, 64 * |words|)
    ensures Clear(BitSet(words), 64 * |words|, 64 * |words|)
  {
  }

  /**
   The bitset branch of `convert_run_optimize`: a buffer with room for exactly `NumberOfRuns` runs receives the
   maximal runs of the bitset in order.
   */
  method ToRuns(bitmap: array<bv64>) returns (answer: RunContainer)
    requires 0 < 64 * bitmap.Length <= 0x1_0000
    ensures fresh(answer) && fresh(answer.runs) && answer.Valid()
    ensures Denote(answer.View()) == BitSet(bitmap[..])
    ensures answer.runs.Length == answer.nRuns == |Ends(BitSet(bitmap[..]))|
  {
    hide Bit, Pending, Filled, Clear, Solid, Scanned, Ends, BitSet, Denote, Canonical, Fill, ClearOnes, Ctz, Not;
    ghost var s := BitSet(bitmap[..]);
    var nRuns := NumberOfRuns(bitmap);
    answer := new RunContainer(nRuns);
    BitSetBounds(bitmap[..]);
    assert s <= Range(0, 0x1_0000);
    ScannedStart(s);
    ghost var f := ExtractRuns(bitmap, answer);
    ScannedAll(bitmap[..], answer.View(), f);
    EndCount(answer.View());
  }

  /** The outer loop of the conversion. */
  method ExtractRuns(bitmap: array<bv64>, answer: RunContainer) returns (ghost f: int)
    requires 0 < 64 * bitmap.Length <= 0x1_0000 && bitmap != answer.runs as object
    requires answer.nRuns <= answer.runs.Length == |Ends(BitSet(bitmap[..]))|
    requires Scanned(BitSet(bitmap[..]), answer.View(), 0)
    modifies answer`nRuns, answer.runs
    ensures answer.nRuns <= answer.runs.Length
    ensures Scanned(BitSet(bitmap[..]), answer.View(), f) && Clear(BitSet(bitmap[..]), f, 64 * bitmap.Length)
  {
    hide Bit, Pending, Filled, Clear, Solid, Scanned, Ends, BitSet, Denote, Canonical, Fill, ClearOnes, Ctz, Not;
    ghost var words := bitmap[..];
    ghost var s := BitSet(words);
    BitSetBounds(words);
    PendingWord(words, 0);
    var longCtr, curWord := 0, bitmap[0];
    f := 0;
    while true
      invariant longCtr < bitmap.Length && words == bitmap[..]
      invariant answer.nRuns <= answer.runs.Length && answer.runs == old(answer.runs)
      invariant Pending(words, longCtr, curWord, f) && Scanned(s, answer.View(), f)
      decreases 64 * bitmap.Length - f
    {
      ghost var g;
      longCtr, curWord, g := SkipZeros(bitmap, longCtr, curWord, f);
      ScannedSkip(s, answer.View(), f, g);
      PendingInside(words, longCtr, curWord, g);
      assert f <= g by { ClearOrder(s, f, g); }
      if curWord == 0 {
        PendingNothing(words, longCtr, g);
        f := g;
        return;
      }
      PendingFirst(words, longCtr, curWord, g);
      var runStart := Ctz(curWord) + 64 * longCtr;
      ScannedSkip(s, answer.View(), g, runStart);
      var ones;
      longCtr, ones := SkipOnes(bitmap, longCtr, Fill(curWord), runStart);
      FilledInside(words, longCtr, ones, runStart);
      if ones == ONES {
        FilledFull(words, longCtr, runStart);
        var runEnd := 64 + longCtr * 64;
        AddRun(answer, runStart, runEnd, s);
        f := runEnd;
        return;
      }
      FilledEnd(words, longCtr, ones, runStart);
      var runEnd := Ctz(Not(ones)) + longCtr * 64;
      AddRun(answer, runStart, runEnd, s);
      curWord, f := ClearOnes(ones), runEnd;
    }
  }

  lemma ClearOrder(s: set<int>, lo: int, hi: int)
    requires Clear(s, lo, hi)
    ensures lo <= hi
  {
  }
}
