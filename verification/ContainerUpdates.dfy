/** Adding and removing values and ranges, with the changes of representation that go with them. */
module ContainerUpdates {
  import opened IntSets
  import opened Ranks
  import opened SortedArrays
  import opened Bitsets
  import opened BitsetKernels
  import opened BitsetLists
  import opened Runs
  import opened RunSplices
  import opened RunContainers
  import opened ArrayContainers
  import opened Containers
  import RunQueries

  /** `container_contains` */
  method Contains(c: Container, val: u16) returns (b: bool)
    requires Valid(c)
    ensures b <==> val in Elems(c)
  {
    hide BitSet, Denote, Canonical, Elements, Sorted;
    match c {
      case BitsetC(words, _) =>
        var bitmap := LoadWords(words);
        b := GetBit(bitmap, val);
      case ArrayC(vals) =>
        var a := LoadArray(vals);
        b := a.Contains(val);
      case RunC(runs) =>
        var run := LoadRuns(runs);
        b := run.Contains(val);
    }
  }

  /** `container_add`; `inPlace` says that the pointer returned is the pointer given. */
  method Add(c: Container, val: u16) returns (c': Container, inPlace: bool)
    requires Valid(c)
    ensures Valid(c') && (Dense(c) ==> Dense(c'))
    ensures Elems(c') == Elems(c) + {val as int}
    ensures !inPlace ==> val !in Elems(c)
  {
    hide BitSet, Denote, Canonical, Elements, Sorted;
    SizeAfterAdd(Elems(c), val);
    match c {
      case BitsetC(words, cardinality) =>
        var bitmap := LoadWords(words);
        var card, _ := SetBit(bitmap, cardinality, val);
        c' := BitsetC(bitmap[..], card);
        inPlace := true;
      case ArrayC(vals) =>
        c', inPlace := AddToArray(vals, val);
      case RunC(runs) =>
        var run := LoadRuns(runs);
        var _ := run.Add(val);
        c' := StoreRuns(run);
        inPlace := true;
    }
  }

  lemma SizeAfterAdd(s: set<int>, x: int)
    ensures |s + {x}| == |s| + (if x in s then 0 else 1)
    ensures |s - {x}| == |s| - (if x in s then 1 else 0)
  {
    AddedSize(s, x);
  }

  /** The array branch of `container_add`: a full array turns into a bitset. */
  method AddToArray(vals: seq<u16>, val: u16) returns (c': Container, inPlace: bool)
    requires Valid(ArrayC(vals))
    ensures Valid(c') && Dense(c') && Elems(c') == Elements(vals) + {val as int}
    ensures !inPlace ==> val !in Elements(vals)
    ensures c'.BitsetC? <==> |vals| == MAX_ARRAY && val !in Elements(vals)
  {
    hide BitSet, Elements, Sorted;
    var ac := LoadArray(vals);
    var r := ac.TryAdd(val, MAX_ARRAY);
    if r != -1 {
      SameElements(Elements(vals), val, r);
      c' := StoreArray(ac);
      inPlace := true;
    } else {
      inPlace := false;
      var bitset, card := BitsetFromArray(ac);
      SortedSize(vals);
      SizeAfterAdd(Elements(vals), val);
      var card', _ := SetBit(bitset, card, val);
      c' := BitsetC(bitset[..], card');
    }
  }

  lemma SameElements(s: set<int>, x: int, r: int)
    requires r == 0 <==> x in s
    ensures r == 0 ==> s + {x} == s
  {
  }

  /**
   `container_remove`: a bitset that falls to 4096 values turns into an array. `inPlace` says that the pointer
   returned is the pointer given.
   */
  method Remove(c: Container, val: u16) returns (c': Container, inPlace: bool)
    requires Valid(c)
    ensures Valid(c') && (Dense(c) ==> Dense(c'))
    ensures Elems(c') == Elems(c) - {val as int}
    ensures !inPlace <==> c.BitsetC? && val in Elems(c) && |Elems(c)| <= MAX_ARRAY + 1
  {
    hide BitSet, Denote, Canonical, Elements, Sorted;
    SizeAfterAdd(Elems(c), val);
    match c {
      case BitsetC(words, cardinality) =>
        c', inPlace := RemoveFromBitset(words, cardinality, val);
      case ArrayC(vals) =>
        var a := LoadArray(vals);
        var _ := a.Remove(val);
        SortedSize(vals);
        SortedSize(a.View());
        c' := StoreArray(a);
        inPlace := true;
      case RunC(runs) =>
        var run := LoadRuns(runs);
        var _ := run.Remove(val);
        c' := StoreRuns(run);
        inPlace := true;
    }
  }

  method RemoveFromBitset(words: seq<bv64>, cardinality: int, val: u16) returns (c': Container, inPlace: bool)
    requires Valid(BitsetC(words, cardinality))
    ensures Valid(c') && Elems(c') == BitSet(words) - {val as int}
    ensures Dense(BitsetC(words, cardinality)) ==> Dense(c')
    ensures !inPlace <==> val in BitSet(words) && |BitSet(words)| <= MAX_ARRAY + 1
  {
    hide BitSet, Elements, Sorted;
    var bitmap := LoadWords(words);
    var card, removed := UnsetBit(bitmap, cardinality, val);
    SizeAfterAdd(BitSet(words), val);
    if removed {
      if card <= MAX_ARRAY {
        var a := ArrayFromBitset(bitmap, card);
        c' := StoreArray(a);
        inPlace := false;
        return;
      }
    }
    c' := BitsetC(bitmap[..], card);
    inPlace := true;
  }

  // ---------- ranges ----------

  /** The container of every value: `run_container_create_range(0, 1 << 16)`. */
  function FullRun(): Container { RunC([Run(0, 0xFFFF)]) }

  lemma FullRunIs()
    ensures Valid(FullRun()) && Dense(FullRun()) && Elems(FullRun()) == Range(0, 0x1_0000)
  {
    DenoteSingle(Run(0, 0xFFFF));
  }

  lemma EverythingIsFull(s: set<int>)
    requires s <= Range(0, 0x1_0000) && |s| == 0x1_0000
    ensures s == Range(0, 0x1_0000)
  {
    RangeSize(0, 0x1_0000);
    SubsetSameSize(s, Range(0, 0x1_0000));
  }

  /**
   `container_range_of_ones`; the caller means `[rangeStart, rangeEnd)`, and the test for an array adds one to its
   length.
   */
  method RangeOfOnes(rangeStart: u32, rangeEnd: u32) returns (c: Container)
    requires rangeStart < rangeEnd <= 0x1_0000
    ensures Good(c) && Elems(c) == Range(rangeStart, rangeEnd)
    ensures if rangeEnd == rangeStart + 1 then c.ArrayC? else c.RunC?
  {
    assert rangeStart as int in Range(rangeStart, rangeEnd);
    var cardinality := rangeEnd - rangeStart + 1;
    if cardinality <= 2 {
      c := ArrayOfRange(rangeStart, rangeEnd);
    } else {
      c := RunC([Run(rangeStart, rangeEnd - rangeStart - 1)]);
      DenoteSingle(c.runs[0]);
    }
  }

  /** `array_container_create_range` */
  method ArrayOfRange(min: u32, max: u32) returns (c: Container)
    requires min < max <= 0x1_0000 && max - min <= MAX_ARRAY
    ensures c.ArrayC? && Valid(c) && Elems(c) == Range(min, max)
  {
    var a := new ArrayContainer(max - min + 1);
    var k := min;
    while k < max
      invariant min <= k <= max && fresh(a) && fresh(a.vals)
      invariant a.vals.Length == max - min + 1 && a.cardinality == k - min
      invariant forall i :: 0 <= i < k - min ==> a.vals[i] == min + i
    {
      a.vals[a.cardinality] := k;
      a.cardinality := a.cardinality + 1;
      k := k + 1;
    }
    c := StoreArray(a);
    Stretch16Denotes(min, max - 1);
    assert c.vals == Stretch16(min, max - 1);
  }

  /** `|S + [min, max]|` as the container code adds it up. */
  lemma UnionSize(s: set<int>, lo: int, hi: int)
    requires lo <= hi
    ensures |s + Range(lo, hi)| == |s| + (hi - lo) - |s * Range(lo, hi)|
    ensures |s - Range(lo, hi)| == |s| - |s * Range(lo, hi)|
  {
    RangeSize(lo, hi);
    var r := Range(lo, hi);
    assert s == (s - r) + s * r;
    assert s + r == (s - r) + r;
  }

  /** `container_add_range` */
  method AddRange(c: Container, min: u16, max: u16) returns (c': Container)
    requires Valid(c) && min <= max
    ensures Valid(c') && (Dense(c) ==> Dense(c'))
    ensures Elems(c') == Elems(c) + Range(min, max + 1)
  {
    hide BitSet, Denote, Canonical, Elements, Sorted;
    match c {
      case BitsetC(words, cardinality) =>
        c' := AddRangeToBitset(words, cardinality, min, max);
      case ArrayC(vals) =>
        c' := AddRangeToArray(vals, min, max);
      case RunC(runs) =>
        c' := AddRangeToRuns(runs, min, max);
    }
  }

  method AddRangeToBitset(words: seq<bv64>, cardinality: int, min: u16, max: u16) returns (c': Container)
    requires Valid(BitsetC(words, cardinality)) && min <= max
    ensures Valid(c') && Elems(c') == BitSet(words) + Range(min, max + 1)
    ensures Dense(BitsetC(words, cardinality)) ==> Dense(c')
  {
    hide BitSet, SetWords;
    var bitmap := LoadWords(words);
    var common := LenrangeCardinality(bitmap, min, max - min);
    var unionCardinality := cardinality + (max - min + 1) - common;
    UnionSize(BitSet(words), min, max + 1);
    SetWordsDenotes(words, min, max + 1);
    SubsetSize(BitSet(words), BitSet(words) + Range(min, max + 1));
    if unionCardinality == 0x1_0000 {
      UnionInside(words, min, max);
      EverythingIsFull(BitSet(words) + Range(min, max + 1));
      FullRunIs();
      return FullRun();
    }
    SetLenrange(bitmap, min, max - min);
    c' := BitsetC(bitmap[..], unionCardinality);
  }

  lemma UnionInside(words: seq<bv64>, min: u16, max: u16)
    requires |words| == BITSET_WORDS
    ensures BitSet(words) + Range(min, max + 1) <= Range(0, 0x1_0000)
  {
    hide Member;
  }

  /** The values of a sorted array that fall outside `[min, max]` are the two counted ends. */
  lemma CountedEnds(s: seq<u16>, less: nat, greater: nat, min: u16, max: u16)
    requires Sorted(s) && min <= max && greater <= |s|
    requires LowerBound(s, max + 1, |s| - greater) && LowerBound(s[..|s| - greater], min, less)
    ensures less + greater <= |s|
    ensures Elements(s[..less]) + Elements(s[|s| - greater..]) == Elements(s) - Range(min, max + 1)
    ensures |Elements(s) - Range(min, max + 1)| == less + greater
    ensures |s| <= less + (max - min + 1) + greater
  {
    hide Elements;
    assert |s[..|s| - greater]| == |s| - greater;
    var p, q := s[..less], s[|s| - greater..];
    OutsideEnds(s, less, greater, min, max);
    SortedSize(p);
    SortedSize(q);
    SortedSize(s);
    EndsApart(Elements(p), Elements(q), min, max);
    UnionSize(Elements(s), min, max + 1);
    SubsetSize(Elements(s) * Range(min, max + 1), Range(min, max + 1));
    RangeSize(min, max + 1);
  }

  ghost predicate AllBelow(s: set<int>, x: int) {
    forall y :: y in s ==> y < x
  }

  ghost predicate AllAbove(s: set<int>, x: int) {
    forall y :: y in s ==> x < y
  }

  lemma EndsApart(p: set<int>, q: set<int>, min: int, max: int)
    requires min <= max && AllBelow(p, min) && AllAbove(q, max)
    ensures |p + q| == |p| + |q|
  {
    forall x | x in p ensures x !in q { assert x < min; }
    DisjointUnionSize(p, q);
  }

  lemma OutsideEnds(s: seq<u16>, less: nat, greater: nat, min: u16, max: u16)
    requires Sorted(s) && min <= max && less <= |s| - greater <= |s|
    requires LowerBound(s, max + 1, |s| - greater) && LowerBound(s[..|s| - greater], min, less)
    ensures Elements(s[..less]) + Elements(s[|s| - greater..]) == Elements(s) - Range(min, max + 1)
    ensures AllBelow(Elements(s[..less]), min) && AllAbove(Elements(s[|s| - greater..]), max)
  {
    var e, p, q := Elements(s), Elements(s[..less]), Elements(s[|s| - greater..]);
    forall x: int ensures (x in p <==> x in e && x < min) && (x in q <==> x in e && max < x) {
      InLowEnd(s, less, greater, min, max, x);
      InHighEnd(s, greater, max, x);
    }
    assert p + q == e - Range(min, max + 1);
  }

  lemma InLowEnd(s: seq<u16>, less: nat, greater: nat, min: u16, max: u16, x: int)
    requires Sorted(s) && min <= max && less <= |s| - greater <= |s|
    requires LowerBound(s, max + 1, |s| - greater) && LowerBound(s[..|s| - greater], min, less)
    ensures x in Elements(s[..less]) <==> x in Elements(s) && x < min
  {
    var m, p := |s| - greater, s[..less];
    if x in Elements(s) && x < min {
      var k :| 0 <= k < |s| && s[k] == x;
      assert k < m;
      assert s[..m][k] == x;
      assert p[k] == x;
    }
    if x in Elements(p) {
      var k :| 0 <= k < |p| && p[k] == x;
      assert s[..m][k] == x;
    }
  }

  lemma InHighEnd(s: seq<u16>, greater: nat, max: u16, x: int)
    requires Sorted(s) && greater <= |s| && LowerBound(s, max + 1, |s| - greater)
    ensures x in Elements(s[|s| - greater..]) <==> x in Elements(s) && max < x
  {
    var m, q := |s| - greater, s[|s| - greater..];
    if x in Elements(s) && max < x {
      var k :| 0 <= k < |s| && s[k] == x;
      assert q[k - m] == x;
    }
    if x in Elements(q) {
      var k :| 0 <= k < |q| && q[k] == x;
      assert s[m + k] == x;
    }
  }

  lemma BelowLast(p: seq<u16>, x: int)
    requires AllBelow(Elements(p), x)
    ensures p != [] ==> p[|p| - 1] < x
  {
    if p != [] { assert p[|p| - 1] as int in Elements(p); }
  }

  lemma AboveFirst(q: seq<u16>, x: int)
    requires AllAbove(Elements(q), x)
    ensures q != [] ==> x < q[0]
  {
    if q != [] { assert q[0] as int in Elements(q); }
  }

  lemma StretchedArray(s: seq<u16>, less: nat, greater: nat, min: u16, max: u16)
    requires Sorted(s) && min <= max && less <= |s| - greater <= |s|
    requires LowerBound(s, max + 1, |s| - greater) && LowerBound(s[..|s| - greater], min, less)
    ensures var t := s[..less] + Stretch16(min, max) + s[|s| - greater..];
      Sorted(t) && Elements(t) == Elements(s) + Range(min, max + 1)
  {
    hide Elements, Stretch16;
    var p, m, q := s[..less], Stretch16(min, max), s[|s| - greater..];
    Stretch16Denotes(min, max);
    OutsideEnds(s, less, greater, min, max);
    BelowLast(p, min);
    AboveFirst(q, max);
    SortedConcat(p, m);
    SortedConcat(p + m, q);
    ElementsConcat(p, m);
    ElementsConcat(p + m, q);
    UnionCovers(Elements(s), Elements(p), Elements(q), Range(min, max + 1));
  }

  lemma UnionCovers(s: set<int>, p: set<int>, q: set<int>, r: set<int>)
    requires p + q == s - r
    ensures p + r + q == s + r
  {
    var t := p + q;
    forall x ensures x in p + r + q <==> x in s + r {
      assert x in t <==> x in p || x in q;
    }
  }

  method AddRangeToArray(vals: seq<u16>, min: u16, max: u16) returns (c': Container)
    requires Valid(ArrayC(vals)) && min <= max
    ensures Valid(c') && Dense(c') && Elems(c') == Elements(vals) + Range(min, max + 1)
  {
    hide BitSet, Elements, Sorted, LowerBound, SetWords;
    var a := LoadArray(vals);
    var nvalsGreater := a.CountGreater(max);
    var nvalsLess := a.CountLess(a.cardinality - nvalsGreater, min);
    CountedEnds(vals, nvalsLess, nvalsGreater, min, max);
    UnionSize(Elements(vals), min, max + 1);
    var unionCardinality := nvalsLess + (max - min + 1) + nvalsGreater;
    if unionCardinality == 0x1_0000 {
      ArrayBounds(vals);
      InsideAll(Elements(vals), min, max);
      EverythingIsFull(Elements(vals) + Range(min, max + 1));
      FullRunIs();
      return FullRun();
    }
    if unionCardinality <= MAX_ARRAY {
      StretchedArray(vals, nvalsLess, nvalsGreater, min, max);
      a.AddRangeNvals(min, max, nvalsLess, nvalsGreater);
      c' := StoreArray(a);
      SortedSize(c'.vals);
      return;
    }
    c' := ArrayAndRange(a, min, max, unionCardinality);
  }

  /** An array and a range that are too large for an array together. */
  method ArrayAndRange(a: ArrayContainer, min: u16, max: u16, unionCardinality: nat) returns (c: Container)
    requires a.Valid() && min <= max && unionCardinality == |Elements(a.View()) + Range(min, max + 1)| > MAX_ARRAY
    ensures Valid(c) && Dense(c) && Elems(c) == Elements(a.View()) + Range(min, max + 1)
  {
    hide BitSet, Elements, Sorted, SetWords;
    var bitset, _ := BitsetFromArray(a);
    SetWordsDenotes(bitset[..], min, max + 1);
    SetLenrange(bitset, min, max - min);
    c := BitsetC(bitset[..], unionCardinality);
  }

  lemma InsideAll(s: set<int>, min: u16, max: u16)
    requires s <= Range(0, 0x1_0000)
    ensures s + Range(min, max + 1) <= Range(0, 0x1_0000)
  {
  }

  /** A canonical list has at least as many values as runs. */
  lemma {:induction false} ValuesPerRun(s: seq<Run>)
    requires Canonical(s)
    ensures |s| <= |Denote(s)|
  {
    hide Denote;
    if s != [] {
      var t := s[..|s| - 1];
      CanonicalSlice(s, 0, |s| - 1);
      ValuesPerRun(t);
      RunQueries.PrefixSize(s, |s| - 1);
      assert s[..|s|] == s;
    }
  }

  method AddRangeToRuns(runs: seq<Run>, min: u16, max: u16) returns (c': Container)
    requires Valid(RunC(runs)) && min <= max
    ensures Valid(c') && Dense(c') && Elems(c') == Denote(runs) + Range(min, max + 1)
  {
    hide Denote, Splice, BitSet, Canonical, CountsLess, CountsGreater;
    var run := LoadRuns(runs);
    var nrunsGreater := run.CountGreater(max);
    var nrunsLess := run.CountLess(run.nRuns - nrunsGreater, min);
    CanonicalEnds(runs);
    CoveredAdds(runs, nrunsLess, nrunsGreater, min, max);
    ghost var r := Covered(runs, nrunsLess, |runs| - nrunsGreater, min, max);
    ghost var t := Splice(runs, nrunsLess, |runs| - nrunsGreater, [r]);
    var runSizeBytes := (nrunsLess + 1 + nrunsGreater) * 4;
    if runSizeBytes <= BITSET_WORDS * 8 {
      run.AddRangeNRuns(min, max, nrunsLess, nrunsGreater);
      c' := StoreRuns(run);
    } else {
      SpliceLength(runs, nrunsLess, |runs| - nrunsGreater, r);
      ValuesPerRun(t);
      c' := BitsetFromRunRange(run, min, max);
    }
  }

  lemma SpliceLength(s: seq<Run>, i: nat, j: nat, r: Run)
    requires i <= j <= |s|
    ensures |Splice(s, i, j, [r])| == i + 1 + |s| - j
  {
  }

  /** `bitset_container_from_run_range` */
  method BitsetFromRunRange(run: RunContainer, min: u16, max: u16) returns (c: Container)
    requires run.Valid() && min <= max
    ensures c.BitsetC? && Valid(c) && Elems(c) == Denote(run.View()) + Range(min, max + 1)
  {
    hide Denote, BitSet, Canonical, SetWords;
    var bitset := EmptyBitset();
    SetRuns(bitset, run);
    var unionCardinality := RunQueries.Cardinality(run);
    unionCardinality := unionCardinality + (max - min + 1);
    var common := LenrangeCardinality(bitset, min, max - min);
    UnionSize(BitSet(bitset[..]), min, max + 1);
    SetWordsDenotes(bitset[..], min, max + 1);
    unionCardinality := unionCardinality - common;
    SetLenrange(bitset, min, max - min);
    c := BitsetC(bitset[..], unionCardinality);
  }

  // ---------- removing ranges ----------

  /** A container, or the null pointer that says that nothing is left. */
  datatype Left = Nothing | Just(container: Container)

  ghost predicate Leaves(l: Left, s: set<int>) {
    match l
    case Nothing => s == {}
    case Just(c) => Valid(c) && Elems(c) == s && s != {}
  }

  ghost predicate LeavesDense(l: Left) {
    l.Just? ==> Dense(l.container)
  }

  /**
   The representation of what is left: a bitset stays one down to 4096 values, and becomes one when the runs would take
   more room. A run list has one run for every end.
   */
  ghost predicate LeftAs(c: Container, l: Left, s: set<int>) {
    l.Just? ==>
      match c
      case BitsetC(_, _) => if |s| >= 4096 then l.container.BitsetC? else l.container.ArrayC?
      case ArrayC(_) => l.container.ArrayC?
      case RunC(_) => if 2 + 4 * |Ends(s)| > 8192 then l.container.BitsetC? else l.container.RunC?
  }

  /** `container_remove_range`: null exactly when nothing is left. */
  method RemoveRange(c: Container, min: u16, max: u16) returns (l: Left)
    requires Valid(c) && Elems(c) != {} && min <= max
    ensures Leaves(l, Elems(c) - Range(min, max + 1)) && LeftAs(c, l, Elems(c) - Range(min, max + 1))
    ensures Dense(c) ==> LeavesDense(l)
  {
    hide BitSet, Denote, Canonical, Elements, Sorted;
    match c {
      case BitsetC(words, cardinality) =>
        l := RemoveRangeFromBitset(words, cardinality, min, max);
      case ArrayC(vals) =>
        l := RemoveRangeFromArray(vals, min, max);
      case RunC(runs) =>
        l := RemoveRangeFromRuns(runs, min, max);
    }
  }

  method RemoveRangeFromBitset(words: seq<bv64>, cardinality: int, min: u16, max: u16) returns (l: Left)
    requires Valid(BitsetC(words, cardinality)) && min <= max
    ensures Leaves(l, BitSet(words) - Range(min, max + 1)) && LeavesDense(l)
    ensures LeftAs(BitsetC(words, cardinality), l, BitSet(words) - Range(min, max + 1))
  {
    hide BitSet, ResetWords, Elements, Sorted;
    var bitmap := LoadWords(words);
    var common := LenrangeCardinality(bitmap, min, max - min);
    var resultCardinality := cardinality - common;
    UnionSize(BitSet(words), min, max + 1);
    SetWordsDenotes(words, min, max + 1);
    if resultCardinality == 0 {
      return Nothing;
    }
    ResetRange(bitmap, min, max + 1);
    if resultCardinality < MAX_ARRAY {
      var a := ArrayFromBitset(bitmap, resultCardinality);
      var c := StoreArray(a);
      l := Just(c);
    } else {
      l := Just(BitsetC(bitmap[..], resultCardinality));
    }
  }

  method RemoveRangeFromArray(vals: seq<u16>, min: u16, max: u16) returns (l: Left)
    requires Valid(ArrayC(vals)) && min <= max
    ensures Leaves(l, Elements(vals) - Range(min, max + 1)) && LeavesDense(l)
    ensures LeftAs(ArrayC(vals), l, Elements(vals) - Range(min, max + 1))
  {
    hide Elements, Sorted, LowerBound;
    var a := LoadArray(vals);
    var nvalsGreater := a.CountGreater(max);
    var nvalsLess := a.CountLess(a.cardinality - nvalsGreater, min);
    CountedEnds(vals, nvalsLess, nvalsGreater, min, max);
    var resultCardinality := nvalsLess + nvalsGreater;
    if resultCardinality == 0 {
      return Nothing;
    }
    ghost var p, q := vals[..nvalsLess], vals[|vals| - nvalsGreater..];
    EndsSorted(vals, nvalsLess, nvalsGreater);
    ElementsConcat(p, q);
    a.RemoveRange(nvalsLess, a.cardinality - resultCardinality);
    assert a.View() == p + q;
    var c := StoreArray(a);
    l := Just(c);
  }

  lemma EndsSorted(s: seq<u16>, less: nat, greater: nat)
    requires Sorted(s) && less + greater <= |s|
    ensures Sorted(s[..less] + s[|s| - greater..])
  {
    SortedConcat(s[..less], s[|s| - greater..]);
  }

  method RemoveRangeFromRuns(runs: seq<Run>, min: u16, max: u16) returns (l: Left)
    requires Valid(RunC(runs)) && min <= max
    ensures Leaves(l, Denote(runs) - Range(min, max + 1)) && LeavesDense(l)
    ensures LeftAs(RunC(runs), l, Denote(runs) - Range(min, max + 1))
  {
    hide Denote, Canonical, BitSet;
    var run := LoadRuns(runs);
    if run.nRuns == 0 {
      RunQueries.NoRuns();
      return Nothing;
    }
    var first := RunQueries.Minimum(run);
    var last := RunQueries.Maximum(run);
    if min <= first && max >= last {
      NothingLeft(Denote(runs), first, last, min, max);
      return Nothing;
    }
    SomethingLeft(Denote(runs), first, last, min, max);
    run.RemoveRange(min, max);
    EndCount(run.View());
    if RunSize(run.nRuns) <= BITSET_SIZE {
      var c := StoreRuns(run);
      l := Just(c);
    } else {
      ValuesPerRun(run.View());
      var bitset, card := BitsetFromRun(run);
      l := Just(BitsetC(bitset[..], card));
    }
  }

  lemma NothingLeft(s: set<int>, first: int, last: int, min: int, max: int)
    requires Smallest(s, first) && Largest(s, last) && min <= first && last <= max
    ensures s - Range(min, max + 1) == {}
  {
  }

  lemma SomethingLeft(s: set<int>, first: int, last: int, min: int, max: int)
    requires Smallest(s, first) && Largest(s, last) && !(min <= first && last <= max)
    ensures s - Range(min, max + 1) != {}
  {
    var t := s - Range(min, max + 1);
    assert first in t || last in t;
  }

  // ---------- repair after lazy operations ----------

  /** What a lazy operation may leave: a bitset whose cardinality is exact or marked as unknown. */
  ghost predicate LazyValid(c: Container) {
    match c
    case BitsetC(words, cardinality) =>
      |words| == BITSET_WORDS && (cardinality == UNKNOWN || cardinality == |BitSet(words)|)
    case _ => Valid(c)
  }

  /** `container_repair_after_lazy`: restores the exact cardinality, and the representation that goes with it. */
  method RepairAfterLazy(c: Container) returns (c': Container)
    requires LazyValid(c)
    ensures Valid(c') && Dense(c') && Elems(c') == Elems(c)
  {
    hide Denote, Canonical, BitSet, Elements, Sorted;
    match c {
      case BitsetC(words, _) =>
        var bitmap := LoadWords(words);
        var card := ComputeCardinality(bitmap);
        c' := ShrinkBitset(bitmap, card);
      case ArrayC(_) =>
        c' := c;
      case RunC(runs) =>
        var run := LoadRuns(runs);
        c' := ToEfficient(run);
    }
  }
}
