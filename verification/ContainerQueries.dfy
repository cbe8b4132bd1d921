/** Cardinality, bounds, rank, select and equality of containers. */
module ContainerQueries {
  import opened IntSets
  import opened Ranks
  import opened SortedArrays
  import opened Words
  import opened WordMasks
  import opened Bitsets
  import opened BitsetRuns
  import opened BitsetLists
  import opened Runs
  import opened RunContainers
  import opened ArrayContainers
  import opened Containers
  import BitsetKernels
  import BitsetQueries
  import RunQueries

  /** `container_get_cardinality` */
  method Cardinality(c: Container) returns (card: nat)
    requires Valid(c)
    ensures card == |Elems(c)|
  {
    hide BitSet, Denote, Canonical, Elements, Sorted;
    match c {
      case BitsetC(_, cardinality) =>
        card := cardinality;
      case ArrayC(vals) =>
        SortedSize(vals);
        card := |vals|;
      case RunC(runs) =>
        var run := LoadRuns(runs);
        card := RunQueries.Cardinality(run);
    }
  }

  /** `container_nonzero_cardinality` */
  method NonZero(c: Container) returns (b: bool)
    requires Valid(c)
    ensures b <==> Elems(c) != {}
  {
    hide BitSet, Denote, Canonical, Elements, Sorted;
    match c {
      case BitsetC(_, cardinality) =>
        b := cardinality > 0;
      case ArrayC(vals) =>
        NonEmptyArray(vals);
        b := |vals| > 0;
      case RunC(runs) =>
        NonEmptyRuns(runs);
        b := |runs| > 0;
    }
  }

  /** `container_is_full`; an array never is. */
  method IsFull(c: Container) returns (b: bool)
    requires Good(c)
    ensures b <==> Elems(c) == Range(0, 0x1_0000)
  {
    hide BitSet, Denote, Canonical, Elements, Sorted;
    RangeSize(0, 0x1_0000);
    match c {
      case BitsetC(words, cardinality) =>
        b := cardinality == 0x1_0000;
        if b { FullWords(words); }
      case ArrayC(vals) =>
        SortedSize(vals);
        b := |vals| == 0x1_0000;
      case RunC(runs) =>
        NonEmptyRuns(runs);
        FullRuns(runs);
        var run := LoadRuns(runs);
        b := run.IsFull();
    }
  }

  lemma FullRuns(runs: seq<Run>)
    requires Canonical(runs)
    ensures Denote(runs) == Range(0, 0x1_0000) ==> runs == [Run(0, 0xFFFF)]
  {
    DenoteSingle(Run(0, 0xFFFF));
    if Denote(runs) == Range(0, 0x1_0000) { CanonicalUnique(runs, [Run(0, 0xFFFF)]); }
  }

  lemma NonEmptyArray(vals: seq<u16>)
    ensures Elements(vals) != {} <==> |vals| > 0
  {
    if |vals| > 0 { assert vals[0] as int in Elements(vals); }
  }

  lemma NonEmptyRuns(runs: seq<Run>)
    ensures Denote(runs) != {} <==> |runs| > 0
  {
    if |runs| > 0 { DenoteMember(runs, 0, runs[0].value); }
  }

  /** `container_minimum` */
  method Minimum(c: Container) returns (x: u16)
    requires Valid(c) && Elems(c) != {}
    ensures Smallest(Elems(c), x)
  {
    hide BitSet, Denote, Canonical, Elements, Sorted, Smallest;
    match c {
      case BitsetC(words, _) =>
        var bitmap := LoadWords(words);
        x := BitsetQueries.Minimum(bitmap);
      case ArrayC(vals) =>
        NonEmptyArray(vals);
        var a := LoadArray(vals);
        x := a.Minimum();
      case RunC(runs) =>
        NonEmptyRuns(runs);
        var run := LoadRuns(runs);
        x := RunQueries.Minimum(run);
    }
  }

  /** `container_maximum`: the bitset scan skips word 0, which a dense bitset can afford. */
  method Maximum(c: Container) returns (x: u16)
    requires Good(c)
    ensures Largest(Elems(c), x)
  {
    hide BitSet, Denote, Canonical, Elements, Sorted, Largest;
    match c {
      case BitsetC(words, _) =>
        var bitmap := LoadWords(words);
        x := BitsetQueries.Maximum(bitmap);
      case ArrayC(vals) =>
        NonEmptyArray(vals);
        var a := LoadArray(vals);
        x := a.Maximum();
      case RunC(runs) =>
        NonEmptyRuns(runs);
        var run := LoadRuns(runs);
        x := RunQueries.Maximum(run);
    }
  }

  /** `container_rank` */
  method Rank(c: Container, x: u16) returns (r: nat)
    requires Valid(c)
    ensures r == RankOf(Elems(c), x)
  {
    hide BitSet, Denote, Canonical, Elements, Sorted;
    match c {
      case BitsetC(words, _) =>
        var bitmap := LoadWords(words);
        r := BitsetQueries.Rank(bitmap, x);
      case ArrayC(vals) =>
        var a := LoadArray(vals);
        r := a.Rank(x);
      case RunC(runs) =>
        var run := LoadRuns(runs);
        r := RunQueries.Rank(run, x);
    }
  }

  /** `container_select` */
  method Select(c: Container, startRank: u32, rank: u32) returns (found: bool, startRank': u32, element: u32)
    requires Valid(c) && startRank <= rank && startRank + |Elems(c)| <= 0x1_0000_0000
    ensures startRank + |Elems(c)| < 0x1_0000_0000 || c.RunC? ==>
      Selected(Elems(c), startRank, rank, found, startRank', element)
    ensures startRank + |Elems(c)| == 0x1_0000_0000 && !c.RunC? ==> !found
  {
    hide BitSet, Denote, Canonical, Elements, Sorted, Selected;
    match c {
      case BitsetC(words, cardinality) =>
        var bitmap := LoadWords(words);
        found, startRank', element := BitsetQueries.Select(bitmap, cardinality, startRank, rank);
      case ArrayC(vals) =>
        SortedSize(vals);
        var a := LoadArray(vals);
        found, startRank', element := a.Select(startRank, rank);
      case RunC(runs) =>
        var run := LoadRuns(runs);
        found, startRank', element := RunQueries.Select(run, startRank, rank);
    }
  }

  // ---------- equality ----------

  /** A bitset may also leave its cardinality unknown. */
  ghost predicate Comparable(c: Container) {
    match c
    case BitsetC(words, cardinality) =>
      |words| == BITSET_WORDS && (cardinality == UNKNOWN || cardinality == |BitSet(words)|)
    case _ => Valid(c)
  }

  /** `container_equals`, for every pair of representations. */
  method Equals(c1: Container, c2: Container) returns (b: bool)
    requires Comparable(c1) && Comparable(c2)
    ensures b <==> Elems(c1) == Elems(c2)
  {
    hide BitSet, Denote, Canonical, Elements, Sorted;
    match (c1, c2) {
      case (BitsetC(words1, card1), BitsetC(words2, card2)) =>
        b := BitsetEquals(words1, card1, words2, card2);
      case (BitsetC(words, card), RunC(runs)) =>
        b := RunEqualsBitset(runs, words, card);
      case (RunC(runs), BitsetC(words, card)) =>
        b := RunEqualsBitset(runs, words, card);
      case (BitsetC(words, card), ArrayC(vals)) =>
        b := ArrayEqualBitset(vals, words, card);
      case (ArrayC(vals), BitsetC(words, card)) =>
        b := ArrayEqualBitset(vals, words, card);
      case (ArrayC(vals), RunC(runs)) =>
        b := RunEqualsArray(runs, vals);
      case (RunC(runs), ArrayC(vals)) =>
        b := RunEqualsArray(runs, vals);
      case (ArrayC(vals1), ArrayC(vals2)) =>
        b := ArrayEquals(vals1, vals2);
      case (RunC(runs1), RunC(runs2)) =>
        b := RunEquals(runs1, runs2);
    }
  }

  lemma SameWords(a: seq<bv64>, b: seq<bv64>)
    requires |a| == |b| && BitSet(a) == BitSet(b)
    ensures a == b
  {
    hide Bit, BitSet;
    forall j | 0 <= j < |a| ensures a[j] == b[j] {
      forall i | 0 <= i < 64 ensures Bit(a[j], i) <==> Bit(b[j], i) {
        WordMember(a, j, i);
        WordMember(b, j, i);
      }
      SameBits(a[j], b[j]);
    }
  }

  /** `bitset_container_equals`: equal cardinalities are decisive when both bitsets are full. */
  method BitsetEquals(words1: seq<bv64>, card1: int, words2: seq<bv64>, card2: int) returns (b: bool)
    requires Comparable(BitsetC(words1, card1)) && Comparable(BitsetC(words2, card2))
    ensures b <==> BitSet(words1) == BitSet(words2)
  {
    hide BitSet;
    if card1 != UNKNOWN && card2 != UNKNOWN {
      if card1 != card2 {
        return false;
      }
      if card1 == 0x1_0000 {
        FullWords(words1);
        FullWords(words2);
        return true;
      }
    }
    if BitSet(words1) == BitSet(words2) { SameWords(words1, words2); }
    b := words1 == words2;
  }

  lemma FullWords(words: seq<bv64>)
    requires |words| == BITSET_WORDS && |BitSet(words)| == 0x1_0000
    ensures BitSet(words) == Range(0, 0x1_0000)
  {
    hide BitSet;
    BitSetBounds(words);
    RangeSize(0, 0x1_0000);
    SubsetSameSize(BitSet(words), Range(0, 0x1_0000));
  }

  /** `array_container_equals` */
  method ArrayEquals(vals1: seq<u16>, vals2: seq<u16>) returns (b: bool)
    requires Sorted(vals1) && Sorted(vals2)
    ensures b <==> Elements(vals1) == Elements(vals2)
  {
    hide Elements, Sorted;
    SortedSize(vals1);
    SortedSize(vals2);
    if |vals1| != |vals2| {
      return false;
    }
    if Elements(vals1) == Elements(vals2) { SortedUnique(vals1, vals2); }
    b := vals1 == vals2;
  }

  /** `run_container_equals` */
  method RunEquals(runs1: seq<Run>, runs2: seq<Run>) returns (b: bool)
    requires Canonical(runs1) && Canonical(runs2)
    ensures b <==> Denote(runs1) == Denote(runs2)
  {
    hide Denote, Canonical;
    if Denote(runs1) == Denote(runs2) { CanonicalUnique(runs1, runs2); }
    if |runs1| != |runs2| {
      return false;
    }
    b := runs1 == runs2;
  }

  /** `run_container_equals_bitset` */
  method RunEqualsBitset(runs: seq<Run>, words: seq<bv64>, card: int) returns (b: bool)
    requires Canonical(runs) && Comparable(BitsetC(words, card))
    ensures b <==> Denote(runs) == BitSet(words)
  {
    hide Denote, Canonical, BitSet, Solid;
    var run := LoadRuns(runs);
    var bitmap := LoadWords(words);
    var runCard := RunQueries.Cardinality(run);
    var bitsetCard := card;
    if card == UNKNOWN {
      bitsetCard := BitsetKernels.ComputeCardinality(bitmap);
    }
    if bitsetCard != runCard {
      return false;
    }
    b := RunsInBitset(run, bitmap);
    if b { SubsetSameSize(Denote(runs), BitSet(words)); }
  }

  /** The loop of the comparison: every run lies in the bitset. */
  method RunsInBitset(run: RunContainer, bitmap: array<bv64>) returns (b: bool)
    requires run.Valid() && bitmap.Length == BITSET_WORDS
    ensures b <==> Denote(run.View()) <= BitSet(bitmap[..])
  {
    hide Denote, Canonical, BitSet, Solid;
    ghost var s, t := run.View(), BitSet(bitmap[..]);
    CanonicalEnds(s);
    RunQueries.NoRuns();
    assert s[..0] == [];
    var i := 0;
    while i < run.nRuns
      invariant i <= run.nRuns && Denote(s[..i]) <= t
    {
      assert s[i] == run.runs[i];
      DenoteNext(s, i);
      RunSolid(s, i, t);
      var begin: u32 := run.runs[i].value;
      if run.runs[i].length != 0 {
        var end: u32 := begin + run.runs[i].length + 1;
        var all := BitsetQueries.GetRange(bitmap, begin, end);
        if !all {
          return false;
        }
      } else {
        var one := GetBit(bitmap, begin);
        SolidOne(t, begin);
        if !one {
          return false;
        }
      }
      i := i + 1;
    }
    assert s[..|s|] == s;
    return true;
  }

  lemma RunSolid(s: seq<Run>, i: nat, t: set<int>)
    requires i < |s|
    ensures Solid(t, s[i].value, s[i].End()) ==> Range(s[i].value, s[i].End()) <= t
    ensures !Solid(t, s[i].value, s[i].End()) ==> !(Denote(s) <= t)
  {
  }

  lemma SolidOne(t: set<int>, x: int)
    ensures Solid(t, x, x + 1) <==> x in t
  {
  }

  /** `run_container_equals_array`: only the two ends of every run are looked at. */
  method RunEqualsArray(runs: seq<Run>, vals: seq<u16>) returns (b: bool)
    requires Canonical(runs) && Sorted(vals)
    ensures b <==> Denote(runs) == Elements(vals)
  {
    hide Denote, Canonical, Elements;
    var run := LoadRuns(runs);
    var runCard := RunQueries.Cardinality(run);
    SortedSize(vals);
    if runCard != |vals| {
      return false;
    }
    RunQueries.NoRuns();
    assert runs[..0] == [] && vals[..0] == [];
    NoElements(vals[..0]);
    var pos, i := 0, 0;
    while i < |runs|
      invariant i <= |runs| && pos <= |vals| && pos == |Denote(runs[..i])|
      invariant Elements(vals[..pos]) == Denote(runs[..i])
    {
      var runStart, le: int := runs[i].value, runs[i].length;
      RunQueries.PrefixSize(runs, i);
      RunQueries.AtLeastOneEach(runs, i + 1);
      DenoteNext(runs, i);
      StretchMatches(runs, i, vals, pos);
      if vals[pos] != runStart {
        return false;
      }
      if vals[pos + le] != runStart + le {
        return false;
      }
      pos := pos + le + 1;
      i := i + 1;
    }
    assert runs[..|runs|] == runs && vals[..|vals|] == vals;
    return true;
  }

  /** With everything before it matched, run `i` matches the next values iff its two ends do. */
  lemma StretchMatches(runs: seq<Run>, i: nat, vals: seq<u16>, pos: nat)
    requires Canonical(runs) && Sorted(vals) && i < |runs| && pos + runs[i].length < |vals|
    requires Elements(vals[..pos]) == Denote(runs[..i])
    ensures var r := runs[i];
      var ends := vals[pos] == r.value && vals[pos + r.length] == r.End() - 1;
      && (ends ==> Elements(vals[..pos + r.length + 1]) == Denote(runs[..i]) + Range(r.value, r.End()))
      && (!ends ==> Denote(runs) != Elements(vals))
  {
    hide Denote, Canonical, Elements;
    var r := runs[i];
    var m := r.length + 1;
    assert vals[..pos + m] == vals[..pos] + vals[pos..pos + m];
    ElementsConcat(vals[..pos], vals[pos..pos + m]);
    if vals[pos] == r.value && vals[pos + r.length] == r.End() - 1 {
      PackedValues(vals[pos..pos + m]);
    }
    if Denote(runs) == Elements(vals) {
      NextValues(runs, i, vals, pos, 0);
      NextValues(runs, i, vals, pos, r.length);
    }
  }

  /** `m` increasing values that span `m - 1` are consecutive. */
  lemma PackedValues(s: seq<u16>)
    requires Sorted(s) && |s| > 0 && s[|s| - 1] == s[0] + |s| - 1
    ensures Elements(s) == Range(s[0], s[0] + |s|)
  {
    var n := |s|;
    forall k | 0 <= k < n ensures s[k] == s[0] + k {
      SpreadUp(s, 0, k);
      SpreadUp(s, k, n - 1);
    }
    forall x ensures x in Elements(s) <==> x in Range(s[0], s[0] + n) {
      if s[0] <= x < s[0] + n { assert s[x - s[0]] == x; }
    }
  }

  lemma {:induction false} SpreadUp(s: seq<u16>, i: nat, j: nat)
    requires Sorted(s) && i <= j < |s|
    ensures s[i] + (j - i) <= s[j]
    decreases j - i
  {
    if i < j { SpreadUp(s, i, j - 1); }
  }

  /** In equal sets, the value after `k` values of run `i` is the next one of the run. */
  lemma NextValues(runs: seq<Run>, i: nat, vals: seq<u16>, pos: nat, k: nat)
    requires Canonical(runs) && Sorted(vals) && i < |runs| && k <= runs[i].length && pos + runs[i].length < |vals|
    requires Elements(vals[..pos]) == Denote(runs[..i]) && Denote(runs) == Elements(vals)
    ensures vals[pos + k] == runs[i].value + k
  {
    hide Denote, Canonical, Elements, Sorted;
    var s, x := Denote(runs), runs[i].value + k;
    CanonicalEnds(runs);
    RunQueries.SelectedInRun(runs, i, x);
    SelectedAt(vals, pos + k);
    SortedPrefix(vals, pos);
    SelectsUnique(s, pos + k, x, vals[pos + k]);
  }

  lemma SortedPrefix(vals: seq<u16>, pos: nat)
    requires Sorted(vals) && pos <= |vals|
    ensures |Elements(vals[..pos])| == pos
  {
    SortedSize(vals[..pos]);
  }

  // ---------- arrays against bitsets ----------

  /** The next position of the bitset must be the next value of the array. */
  lemma NextMatches(words: seq<bv64>, vals: seq<u16>, pos: nat, f: int, x: int)
    requires Sorted(vals) && pos <= |vals| && Extracted(words, vals[..pos], f)
    requires Clear(BitSet(words), f, x) && x in BitSet(words) && Elements(vals) == BitSet(words)
    ensures pos < |vals| && vals[pos] == x
  {
    hide BitSet, Elements, Sorted, Clear;
    var s := BitSet(words);
    SortedPrefix(vals, pos);
    SortedSize(vals);
    BitsetQueries.BelowClear(s, f, x);
    BelowNext(s, x);
    SelectedAt(vals, pos);
    SelectsUnique(s, pos, x, vals[pos]);
  }

  /** The inner loop of `array_container_equal_bitset`: compares the positions of one word. */
  method MatchWord(bits: bv64, i: nat, vals: seq<u16>, pos: nat, ghost words: seq<bv64>) returns (ok: bool, pos': nat)
    requires Sorted(vals) && pos <= |vals| && Pending(words, i, bits, 64 * i) && 64 * |words| <= 0x1_0000
    requires Extracted(words, vals[..pos], 64 * i)
    ensures !ok ==> Elements(vals) != BitSet(words)
    ensures ok ==> pos' <= |vals| && Extracted(words, vals[..pos'], 64 * i + 64)
  {
    hide Pending, Extracted, Clear, Bit, BitSet, Ctz, Flip, Lowest, Elements, Sorted;
    var w := bits;
    ghost var f := 64 * i;
    pos' := pos;
    PendingInside(words, i, w, f);
    while w != 0
      invariant 64 * i <= f <= 64 * i + 64
      invariant pos' <= |vals| && Pending(words, i, w, f) && Extracted(words, vals[..pos'], f)
      decreases 64 * i + 64 - f
    {
      PendingNext(words, i, w, f);
      var r := i * 64 + Ctz(w);
      if Elements(vals) == BitSet(words) { NextMatches(words, vals, pos', f, r); }
      if pos' >= |vals| {
        return false, pos';
      }
      if vals[pos'] != r {
        return false, pos';
      }
      ExtractedSkip(words, vals[..pos'], f, r);
      ExtractedOne(words, vals[..pos'], r);
      assert vals[..pos' + 1] == vals[..pos'] + [vals[pos']];
      pos' := pos' + 1;
      w, f := Flip(w, Lowest(w)), r + 1;
    }
    PendingNothing(words, i, f);
    ExtractedSkip(words, vals[..pos'], f, 64 * i + 64);
    return true, pos';
  }

  /** `array_container_equal_bitset` */
  method ArrayEqualBitset(vals: seq<u16>, words: seq<bv64>, card: int) returns (b: bool)
    requires Sorted(vals) && Comparable(BitsetC(words, card))
    ensures b <==> Elements(vals) == BitSet(words)
  {
    hide Pending, Extracted, Bit, BitSet, Elements, Sorted;
    SortedSize(vals);
    if card != UNKNOWN {
      if card != |vals| {
        return false;
      }
    }
    var pos: nat, i: nat := 0, 0;
    ExtractedStart(words);
    assert vals[..0] == [];
    while i < BITSET_WORDS
      invariant i <= BITSET_WORDS && pos <= |vals| && Extracted(words, vals[..pos], 64 * i)
    {
      PendingWord(words, i);
      var ok;
      ok, pos := MatchWord(words[i], i, vals, pos, words);
      if !ok {
        return false;
      }
      i := i + 1;
    }
    ExtractedAll(words, vals[..pos]);
    b := pos == |vals|;
    assert vals[..|vals|] == vals;
    if !b { SortedPrefix(vals, pos); }
  }
}
