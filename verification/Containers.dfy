/**
 Containers: the three representations of a set of 16-bit values, and the conversions between them. At this level a
 container is a value; an operation loads it into the buffers that the kernels work on and takes the result back.
 */
module Containers {
  import opened IntSets
  import opened SortedArrays
  import opened Words
  import opened Bitsets
  import opened BitsetKernels
  import opened BitsetLists
  import opened Runs
  import opened RunContainers
  import opened ArrayContainers
  import BitsetRuns
  import RunQueries

  /** `DEFAULT_MAX_SIZE`: the largest cardinality of an array container. */
  const MAX_ARRAY: nat := 4096

  /** `BITSET_CONTAINER_SIZE_IN_WORDS` */
  const BITSET_WORDS: nat := 1024

  /** `BITSET_UNKNOWN_CARDINALITY` */
  const UNKNOWN: int := -1

  datatype Container =
    | ArrayC(vals: seq<u16>)
    | BitsetC(words: seq<bv64>, cardinality: int)
    | RunC(runs: seq<Run>)

  /** The values of a container. */
  ghost function Elems(c: Container): set<int> {
    match c
    case ArrayC(vals) => Elements(vals)
    case BitsetC(words, _) => BitSet(words)
    case RunC(runs) => Denote(runs)
  }

  /** What every operation keeps: sorted arrays of at most 4096 values, exact cardinalities, canonical run lists. */
  ghost predicate Valid(c: Container) {
    match c
    case ArrayC(vals) => Sorted(vals) && |vals| <= MAX_ARRAY
    case BitsetC(words, cardinality) => |words| == BITSET_WORDS && cardinality == |BitSet(words)|
    case RunC(runs) => Canonical(runs)
  }

  /** A bitset holds at least 2048 values: the bound that the mutators keep, which is not 4097. */
  ghost predicate Dense(c: Container) {
    c.BitsetC? ==> |Elems(c)| >= 2048
  }

  /** What every container stored in a bitmap satisfies. */
  ghost predicate Good(c: Container) {
    Valid(c) && Dense(c) && Elems(c) != {}
  }

  lemma ElemsBounds(c: Container)
    requires Valid(c)
    ensures Elems(c) <= Range(0, 0x1_0000) && |Elems(c)| <= 0x1_0000
  {
    hide Denote, Canonical, Member;
    match c {
    case ArrayC(vals) =>
      ArrayBounds(vals);
    case BitsetC(words, _) =>
      BitsetRuns.BitSetBounds(words);
    case RunC(runs) =>
      DenoteBounds(runs);
    }
    RangeSize(0, 0x1_0000);
    SubsetSize(Elems(c), Range(0, 0x1_0000));
  }

  lemma ArrayBounds(vals: seq<u16>)
    ensures Elements(vals) <= Range(0, 0x1_0000)
  {
  }

  // ---------- loading and storing ----------

  method LoadArray(vals: seq<u16>) returns (a: ArrayContainer)
    requires Sorted(vals)
    ensures fresh(a) && fresh(a.vals) && a.Valid() && a.View() == vals
  {
    a := new ArrayContainer(|vals|);
    forall i | 0 <= i < |vals| { a.vals[i] := vals[i]; }
    a.cardinality := |vals|;
    assert a.View() == vals;
  }

  method LoadWords(words: seq<bv64>) returns (bitmap: array<bv64>)
    ensures fresh(bitmap) && bitmap[..] == words
  {
    bitmap := new bv64[|words|](i requires 0 <= i < |words| => words[i]);
  }

  method LoadRuns(runs: seq<Run>) returns (r: RunContainer)
    requires Canonical(runs)
    ensures fresh(r) && fresh(r.runs) && r.Valid() && r.View() == runs
  {
    r := new RunContainer(|runs|);
    forall i | 0 <= i < |runs| { r.runs[i] := runs[i]; }
    r.nRuns := |runs|;
    assert r.View() == runs;
  }

  method StoreArray(a: ArrayContainer) returns (c: Container)
    requires a.cardinality <= a.vals.Length
    ensures c == ArrayC(a.View())
  {
    c := ArrayC(a.vals[..a.cardinality]);
  }

  method StoreRuns(r: RunContainer) returns (c: Container)
    requires r.nRuns <= r.runs.Length
    ensures c == RunC(r.View())
  {
    c := RunC(r.runs[..r.nRuns]);
  }

  /** `bitset_container_create` */
  method EmptyBitset() returns (bitmap: array<bv64>)
    ensures fresh(bitmap) && bitmap.Length == BITSET_WORDS && BitSet(bitmap[..]) == {}
  {
    bitmap := new bv64[BITSET_WORDS](_ => 0);
    NoBits(bitmap[..]);
  }

  lemma NoBits(words: seq<bv64>)
    requires forall j :: 0 <= j < |words| ==> words[j] == 0
    ensures BitSet(words) == {}
  {
    hide Bit;
    forall x | x in BitSet(words) ensures false { BitZero(x % 64); }
  }

  // ---------- conversions ----------

  /** `bitset_container_from_array` */
  method BitsetFromArray(a: ArrayContainer) returns (bitmap: array<bv64>, card: int)
    requires a.Valid()
    ensures fresh(bitmap) && bitmap.Length == BITSET_WORDS
    ensures BitSet(bitmap[..]) == Elements(a.View()) && card == |BitSet(bitmap[..])|
  {
    hide BitSet, Elements, Sorted;
    bitmap := EmptyBitset();
    card := SetListWithcard(bitmap, 0, a.vals, a.cardinality);
  }

  /** Sets the bits of every run of a list. */
  method SetRuns(bitmap: array<bv64>, run: RunContainer)
    requires run.Valid() && bitmap.Length == BITSET_WORDS && bitmap != run.runs as object
    modifies bitmap
    ensures BitSet(bitmap[..]) == old(BitSet(bitmap[..])) + Denote(run.View())
  {
    hide BitSet, Denote, Canonical, SetWords;
    ghost var s, t := run.View(), BitSet(bitmap[..]);
    CanonicalEnds(s);
    RunQueries.NoRuns();
    assert s[..0] == [];
    var rlepos := 0;
    while rlepos < run.nRuns
      invariant rlepos <= run.nRuns && run.View() == s
      invariant BitSet(bitmap[..]) == t + Denote(s[..rlepos])
    {
      var vl := run.runs[rlepos];
      assert s[rlepos] == vl;
      SetWordsDenotes(bitmap[..], vl.value, vl.End());
      DenoteNext(s, rlepos);
      SetLenrange(bitmap, vl.value, vl.length);
      UnionNext(t, Denote(s[..rlepos]), Range(vl.value, vl.End()));
      rlepos := rlepos + 1;
    }
    assert s[..|s|] == s;
  }

  lemma CanonicalEnds(s: seq<Run>)
    requires Canonical(s)
    ensures forall i :: 0 <= i < |s| ==> s[i].End() <= 0x1_0000
  {
  }

  lemma DenoteNext(s: seq<Run>, i: nat)
    requires i < |s|
    ensures Denote(s[..i + 1]) == Denote(s[..i]) + Range(s[i].value, s[i].End())
  {
    hide Denote;
    assert s[..i + 1] == s[..i] + [s[i]];
    DenoteSnoc(s[..i], s[i]);
  }

  lemma UnionNext(t: set<int>, a: set<int>, b: set<int>)
    ensures t + a + b == t + (a + b)
    ensures t - a - b == t - (a + b)
  {
  }

  /** `bitset_container_from_run` */
  method BitsetFromRun(run: RunContainer) returns (bitmap: array<bv64>, card: int)
    requires run.Valid()
    ensures fresh(bitmap) && bitmap.Length == BITSET_WORDS
    ensures BitSet(bitmap[..]) == Denote(run.View()) && card == |BitSet(bitmap[..])|
  {
    hide BitSet, Denote, Canonical;
    card := RunQueries.Cardinality(run);
    bitmap := EmptyBitset();
    SetRuns(bitmap, run);
  }

  /** `array_container_from_bitset` */
  method ArrayFromBitset(bitmap: array<bv64>, card: nat) returns (a: ArrayContainer)
    requires bitmap.Length == BITSET_WORDS && card == |BitSet(bitmap[..])|
    ensures fresh(a) && fresh(a.vals) && a.Valid()
    ensures Elements(a.View()) == BitSet(bitmap[..]) && a.cardinality == card
  {
    hide BitSet, Elements, Sorted;
    a := new ArrayContainer(card);
    var n := ExtractSetbits(bitmap, a.vals);
    a.cardinality := card;
  }

  /** `array_container_from_run` */
  method ArrayFromRun(run: RunContainer, card: nat) returns (a: ArrayContainer)
    requires run.Valid() && card == |Denote(run.View())|
    ensures fresh(a) && fresh(a.vals) && a.Valid()
    ensures Elements(a.View()) == Denote(run.View()) && a.cardinality == card
  {
    hide Denote, Canonical, Elements, Sorted;
    ghost var s := run.View();
    a := new ArrayContainer(card);
    RunQueries.NoRuns();
    NoElements(a.View());
    assert s[..0] == [];
    var rlepos := 0;
    while rlepos < run.nRuns
      invariant rlepos <= run.nRuns && run.View() == s
      invariant a.Valid() && a.vals.Length == card && fresh(a.vals) && a.cardinality == |Denote(s[..rlepos])|
      invariant Elements(a.View()) == Denote(s[..rlepos])
    {
      assert s[rlepos] == run.runs[rlepos];
      RunQueries.PrefixSize(s, rlepos);
      RunQueries.AtLeastOneEach(s, rlepos + 1);
      DenoteNext(s, rlepos);
      PrefixBelow(s, rlepos);
      WriteRun(a, run.runs[rlepos]);
      rlepos := rlepos + 1;
    }
    assert s[..|s|] == s;
  }

  lemma PrefixBelow(s: seq<Run>, i: nat)
    requires Canonical(s) && i < |s|
    ensures forall x :: x in Denote(s[..i]) ==> x < s[i].value
    ensures s[i].End() <= 0x1_0000
  {
    hide Denote;
    forall x | x in Denote(s[..i]) ensures x < s[i].value { RunQueries.BelowInRunMember(s, i, s[i].value, x); }
  }

  /** The inner loop of the conversions to an array: writes out the values of one run. */
  method WriteRun(a: ArrayContainer, r: Run)
    requires a.Valid() && a.cardinality + r.length + 1 <= a.vals.Length && r.End() <= 0x1_0000
    requires forall x :: x in Elements(a.View()) ==> x < r.value
    modifies a`cardinality, a.vals
    ensures a.Valid() && a.cardinality == old(a.cardinality) + r.length + 1
    ensures Elements(a.View()) == old(Elements(a.View())) + Range(r.value, r.End())
  {
    hide Elements, Sorted;
    var runStart, runEnd := r.value, r.value + r.length;
    ghost var e := Elements(a.View());
    LastBelow(a.View(), runStart);
    var runValue: int := runStart;
    EmptyUnion(e, runStart);
    while runValue <= runEnd
      invariant runStart <= runValue <= runEnd + 1
      invariant a.Valid() && a.cardinality == old(a.cardinality) + (runValue - runStart)
      invariant Elements(a.View()) == e + Range(runStart, runValue)
      invariant a.cardinality > 0 ==> a.vals[a.cardinality - 1] < runValue
    {
      ghost var s := a.View();
      SortedSnoc(s, runValue);
      ElementsSnoc(s, runValue);
      RangeNext(e, runStart, runValue);
      a.vals[a.cardinality] := runValue;
      a.cardinality := a.cardinality + 1;
      assert a.View() == s + [runValue];
      runValue := runValue + 1;
    }
  }

  lemma LastBelow(s: seq<u16>, x: int)
    requires forall y :: y in Elements(s) ==> y < x
    ensures |s| > 0 ==> s[|s| - 1] < x
  {
    if |s| > 0 { assert s[|s| - 1] as int in Elements(s); }
  }

  lemma EmptyUnion(e: set<int>, x: int)
    ensures e + Range(x, x) == e
  {
  }

  lemma RangeNext(e: set<int>, lo: int, hi: int)
    requires lo <= hi
    ensures e + Range(lo, hi + 1) == (e + Range(lo, hi)) + {hi}
  {
  }

  /** A container for a bitset result: an array when at most 4096 values are left. */
  method ShrinkBitset(bitmap: array<bv64>, card: nat) returns (c: Container)
    requires bitmap.Length == BITSET_WORDS && card == |BitSet(bitmap[..])|
    ensures Valid(c) && Dense(c) && Elems(c) == BitSet(bitmap[..]) && (c.BitsetC? <==> card > MAX_ARRAY) && !c.RunC?
  {
    hide BitSet, Elements, Sorted;
    if card <= MAX_ARRAY {
      var a := ArrayFromBitset(bitmap, card);
      c := StoreArray(a);
    } else {
      c := BitsetC(bitmap[..], card);
    }
  }

  /** `run_container_serialized_size_in_bytes` */
  function RunSize(nRuns: nat): nat { 2 + 4 * nRuns }

  /** `array_container_serialized_size_in_bytes` */
  function ArraySize(card: nat): nat { 2 * card + 2 }

  /** `bitset_container_serialized_size_in_bytes` */
  const BITSET_SIZE: nat := 8192

  /** `convert_run_to_efficient_container`: the list stays when neither other form is smaller. */
  method ToEfficient(run: RunContainer) returns (c: Container)
    requires run.Valid()
    ensures Valid(c) && Dense(c) && Elems(c) == Denote(run.View())
    ensures c.RunC? <==> 2 + 4 * run.nRuns <= 8192 && 2 + 4 * run.nRuns <= 2 * |Denote(run.View())| + 2
    ensures c.RunC? ==> c.runs == run.View()
    ensures c.BitsetC? ==> |Denote(run.View())| > MAX_ARRAY
  {
    hide BitSet, Denote, Canonical, Elements, Sorted;
    var card := RunQueries.Cardinality(run);
    var minSizeNonRun := if BITSET_SIZE < ArraySize(card) then BITSET_SIZE else ArraySize(card);
    if RunSize(run.nRuns) <= minSizeNonRun {
      c := StoreRuns(run);
      return;
    }
    if card <= MAX_ARRAY {
      var a := ArrayFromRun(run, card);
      c := StoreArray(a);
      return;
    }
    var bitmap := EmptyBitset();
    SetRunRanges(bitmap, run);
    c := BitsetC(bitmap[..], card);
  }

  /** The last loop of the conversion, which sets whole ranges. */
  method SetRunRanges(bitmap: array<bv64>, run: RunContainer)
    requires run.Valid() && bitmap.Length == BITSET_WORDS && bitmap != run.runs as object
    modifies bitmap
    ensures BitSet(bitmap[..]) == old(BitSet(bitmap[..])) + Denote(run.View())
  {
    hide BitSet, Denote, Canonical, SetWords;
    ghost var s, t := run.View(), BitSet(bitmap[..]);
    CanonicalEnds(s);
    RunQueries.NoRuns();
    assert s[..0] == [];
    var rlepos := 0;
    while rlepos < run.nRuns
      invariant rlepos <= run.nRuns && run.View() == s
      invariant BitSet(bitmap[..]) == t + Denote(s[..rlepos])
    {
      assert s[rlepos] == run.runs[rlepos];
      var start: u32 := run.runs[rlepos].value;
      var end: u32 := start + run.runs[rlepos].length;
      SetWordsDenotes(bitmap[..], start, end + 1);
      DenoteNext(s, rlepos);
      SetRange(bitmap, start, end + 1);
      UnionNext(t, Denote(s[..rlepos]), Range(start, end + 1));
      rlepos := rlepos + 1;
    }
    assert s[..|s|] == s;
  }
}
