/** Run lists against bitsets: ranges set, reset and flipped run by run. */
module MixedBitsets {
  import opened IntSets
  import opened Bitsets
  import opened BitsetKernels
  import opened Runs
  import opened RunContainers
  import opened Containers
  import opened MixedArrays
  import RunQueries
  import RunXor

  /** The loop of `bitset_run_container_iandnot`: resets every run. */
  method ResetRuns(bitmap: array<bv64>, run: RunContainer)
    requires run.Valid() && bitmap.Length == BITSET_WORDS && bitmap != run as object && bitmap != run.runs as object
    modifies bitmap
    ensures BitSet(bitmap[..]) == old(BitSet(bitmap[..])) - Denote(run.View())
  {
    hide BitSet, Denote, Canonical, ResetWords;
    ghost var s, t := run.View(), BitSet(bitmap[..]);
    CanonicalEnds(s);
    RunQueries.NoRuns();
    assert s[..0] == [];
    var rlepos := 0;
    while rlepos < run.nRuns
      invariant rlepos <= run.nRuns && run.View() == s
      invariant BitSet(bitmap[..]) == t - Denote(s[..rlepos])
    {
      assert s[rlepos] == run.runs[rlepos];
      var start: u32 := run.runs[rlepos].value;
      var end: u32 := start + run.runs[rlepos].length + 1;
      SetWordsDenotes(bitmap[..], start, end);
      DenoteNext(s, rlepos);
      ResetRange(bitmap, start, end);
      UnionNext(t, Denote(s[..rlepos]), Range(start, end));
      rlepos := rlepos + 1;
    }
    assert s[..|s|] == s;
  }

  /** The loop of `run_bitset_container_xor`: flips every run. */
  method FlipRuns(bitmap: array<bv64>, run: RunContainer)
    requires run.Valid() && bitmap.Length == BITSET_WORDS && bitmap != run as object && bitmap != run.runs as object
    modifies bitmap
    ensures BitSet(bitmap[..]) == Xor(old(BitSet(bitmap[..])), Denote(run.View()))
  {
    hide BitSet, Denote, Canonical, FlipWords;
    ghost var s, t := run.View(), BitSet(bitmap[..]);
    CanonicalEnds(s);
    RunQueries.NoRuns();
    assert s[..0] == [];
    var rlepos := 0;
    while rlepos < run.nRuns
      invariant rlepos <= run.nRuns && run.View() == s
      invariant BitSet(bitmap[..]) == Xor(t, Denote(s[..rlepos]))
    {
      assert s[rlepos] == run.runs[rlepos];
      var start: u32 := run.runs[rlepos].value;
      var end: u32 := start + run.runs[rlepos].length + 1;
      SetWordsDenotes(bitmap[..], start, end);
      DenoteNext(s, rlepos);
      PrefixApart(s, rlepos);
      FlipRange(bitmap, start, end);
      XorNext(t, Denote(s[..rlepos]), Range(start, end));
      rlepos := rlepos + 1;
    }
    assert s[..|s|] == s;
  }

  lemma PrefixApart(s: seq<Run>, i: nat)
    requires Canonical(s) && i < |s|
    ensures Denote(s[..i]) !! Range(s[i].value, s[i].End())
  {
    hide Denote;
    PrefixBelow(s, i);
  }

  lemma XorNext(t: set<int>, a: set<int>, b: set<int>)
    requires a !! b
    ensures Xor(Xor(t, a), b) == Xor(t, a + b)
  {
  }

  // ---------- keeping or flipping the runs, and clearing the gaps between them ----------

  /** The members of `s` from `x` on. */
  function From(s: set<int>, x: int): set<int> {
    set y | y in s && x <= y
  }

  /** The bitset after the scan of `run_bitset_container_intersection` or `run_bitset_container_andnot` reached `x`. */
  ghost function Scan(r: seq<Run>, t: set<int>, inside: bool, x: int): set<int> {
    Below(Kept(Denote(r), t, inside), x) + From(t, x)
  }

  lemma ScanStart(r: seq<Run>, t: set<int>, inside: bool)
    requires Canonical(r) && t <= Range(0, 0x1_0000)
    ensures Scan(r, t, inside, 0) == t
  {
    hide Denote;
    KeptBounds(r, t, inside);
  }

  lemma ScanGap(r: seq<Run>, t: set<int>, inside: bool, lo: int, hi: int)
    requires lo <= hi && forall x :: lo <= x < hi ==> x !in Denote(r)
    ensures Scan(r, t, inside, lo) - Range(lo, hi) == Scan(r, t, inside, hi)
  {
  }

  lemma ScanRun(r: seq<Run>, t: set<int>, lo: int, hi: int)
    requires lo <= hi && forall x :: lo <= x < hi ==> x in Denote(r)
    ensures Scan(r, t, true, lo) == Scan(r, t, true, hi)
    ensures Xor(Scan(r, t, false, lo), Range(lo, hi)) == Scan(r, t, false, hi)
  {
  }

  lemma ScanEnd(r: seq<Run>, t: set<int>, inside: bool)
    requires Canonical(r) && t <= Range(0, 0x1_0000)
    ensures Scan(r, t, inside, 0x1_0000) == Kept(Denote(r), t, inside)
  {
  }

  lemma GapBetween(r: seq<Run>, i: nat)
    requires Canonical(r) && i <= |r|
    ensures RunXor.EndOf(r, i) <= (if i < |r| then r[i].value else 0x1_0000)
    ensures forall x :: RunXor.EndOf(r, i) <= x < (if i < |r| then r[i].value else 0x1_0000) ==> x !in Denote(r)
  {
    hide Denote;
    var hi := if i < |r| then r[i].value else 0x1_0000;
    forall x | RunXor.EndOf(r, i) <= x < hi ensures x !in Denote(r) { GapBefore(r, i, x); }
  }

  lemma RunBetween(r: seq<Run>, i: nat)
    requires i < |r|
    ensures forall x :: r[i].value <= x < r[i].End() ==> x in Denote(r)
    ensures RunXor.EndOf(r, i + 1) == r[i].End()
  {
  }

  /**
   The bitset branch of `run_bitset_container_intersection` (`inside`), which resets the gaps between the runs, and that
   of `run_bitset_container_andnot`, which flips the runs as well.
   */
  method KeepRuns(bitmap: array<bv64>, run: RunContainer, inside: bool)
    requires run.Valid() && bitmap.Length == BITSET_WORDS && bitmap != run as object && bitmap != run.runs as object
    modifies bitmap
    ensures BitSet(bitmap[..]) == Kept(Denote(run.View()), old(BitSet(bitmap[..])), inside)
  {
    hide BitSet, Denote, Canonical, Scan, Kept;
    ghost var r, t := run.View(), BitSet(bitmap[..]);
    WordsInside(bitmap[..]);
    CanonicalEnds(r);
    ScanStart(r, t, inside);
    var lastPos: u32 := 0;
    var rlepos := 0;
    while rlepos < run.nRuns
      invariant rlepos <= |r| && run.Valid() && run.View() == r && lastPos == RunXor.EndOf(r, rlepos) <= 0x1_0000
      invariant BitSet(bitmap[..]) == Scan(r, t, inside, lastPos)
    {
      assert r[rlepos] == run.runs[rlepos];
      lastPos := KeepOne(bitmap, run.runs[rlepos], lastPos, inside, r, rlepos, t);
      rlepos := rlepos + 1;
    }
    GapBetween(r, |r|);
    ScanGap(r, t, inside, lastPos, 0x1_0000);
    SetWordsDenotes(bitmap[..], lastPos, 0x1_0000);
    ResetRange(bitmap, lastPos, 0x1_0000);
    ScanEnd(r, t, inside);
  }

  /** One step of the loop: the gap before a run, then the run. */
  method KeepOne(bitmap: array<bv64>, rle: Run, lastPos: u32, inside: bool, ghost r: seq<Run>, ghost i: nat,
                 ghost t: set<int>)
    returns (end: u32)
    requires bitmap.Length == BITSET_WORDS && Canonical(r) && i < |r| && rle == r[i]
    requires lastPos == RunXor.EndOf(r, i) && BitSet(bitmap[..]) == Scan(r, t, inside, lastPos)
    modifies bitmap
    ensures end == RunXor.EndOf(r, i + 1) <= 0x1_0000 && BitSet(bitmap[..]) == Scan(r, t, inside, end)
  {
    hide BitSet, Denote, Canonical, Scan, ResetWords, FlipWords;
    CanonicalEnds(r);
    var start: u32 := rle.value;
    end := start + rle.length + 1;
    GapBetween(r, i);
    ScanGap(r, t, inside, lastPos, start);
    SetWordsDenotes(bitmap[..], lastPos, start);
    ResetRange(bitmap, lastPos, start);
    RunBetween(r, i);
    ScanRun(r, t, start, end);
    if !inside {
      SetWordsDenotes(bitmap[..], start, end);
      FlipRange(bitmap, start, end);
    }
  }

  lemma WordsInside(words: seq<bv64>)
    requires |words| == BITSET_WORDS
    ensures BitSet(words) <= Range(0, 0x1_0000)
  {
  }
}
