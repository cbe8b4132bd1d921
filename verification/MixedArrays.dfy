/**
 Scans that produce an array: filters of an array by a bitset or a run list, and listings of what is left of a run
 list.
 */
module MixedArrays {
  import opened IntSets
  import opened SortedArrays
  import opened ArrayKernels
  import opened Bitsets
  import opened BitsetLists
  import opened Runs
  import opened RunContainers
  import opened ArrayContainers
  import RunMerges
  import RunXor

  // ---------- filters ----------

  /** What a filter keeps of `e`: the part inside `t`, or the part outside. */
  function Kept(e: set<int>, t: set<int>, inside: bool): set<int> {
    if inside then e * t else e - t
  }

  /** `out` holds what the filter keeps of the first `i` values of `s`. */
  ghost predicate FilterPrefix(out: seq<u16>, s: seq<u16>, i: nat, t: set<int>, inside: bool) {
    && i <= |s| && |out| <= i
    && Sorted(out)
    && Elements(out) == Kept(Elements(s[..i]), t, inside)
    && (out != [] && i < |s| ==> out[|out| - 1] < s[i])
  }

  lemma FilterStart(s: seq<u16>, t: set<int>, inside: bool)
    ensures FilterPrefix([], s, 0, t, inside)
  {
  }

  lemma FilterTake(out: seq<u16>, s: seq<u16>, i: nat, t: set<int>, inside: bool)
    requires Sorted(s) && FilterPrefix(out, s, i, t, inside) && i < |s| && (s[i] in t <==> inside)
    ensures FilterPrefix(out + [s[i]], s, i + 1, t, inside)
  {
    SortedSnoc(out, s[i]);
    ElementsSnoc(out, s[i]);
    PrefixGrow(s, i);
  }

  lemma FilterDrop(out: seq<u16>, s: seq<u16>, i: nat, t: set<int>, inside: bool)
    requires Sorted(s) && FilterPrefix(out, s, i, t, inside) && i < |s| && (s[i] in t <==> !inside)
    ensures FilterPrefix(out, s, i + 1, t, inside)
  {
    PrefixGrow(s, i);
  }

  lemma {:induction false} FilterDropMany(out: seq<u16>, s: seq<u16>, i: nat, j: nat, t: set<int>)
    requires Sorted(s) && FilterPrefix(out, s, i, t, true) && i <= j <= |s|
    requires forall k :: i <= k < j ==> s[k] !in t
    ensures FilterPrefix(out, s, j, t, true)
    decreases j - i
  {
    hide FilterPrefix, Sorted;
    if i < j {
      FilterDrop(out, s, i, t, true);
      FilterDropMany(out, s, i + 1, j, t);
    }
  }

  lemma FilterDone(out: seq<u16>, s: seq<u16>, t: set<int>, inside: bool)
    requires FilterPrefix(out, s, |s|, t, inside)
    ensures Sorted(out) && Elements(out) == Kept(Elements(s), t, inside)
  {
    assert s[..|s|] == s;
  }

  /** Nothing after index `i` is in `t`. */
  lemma FilterRest(out: seq<u16>, s: seq<u16>, i: nat, t: set<int>)
    requires Sorted(s) && FilterPrefix(out, s, i, t, true)
    requires forall k :: i <= k < |s| ==> s[k] !in t
    ensures Sorted(out) && Elements(out) == Elements(s) * t
  {
    FilterDropMany(out, s, i, |s|, t);
    FilterDone(out, s, t, true);
  }

  /**
   `array_bitset_container_intersection` and `array_bitset_container_andnot`: every value is stored, and the store is
   kept by counting it; the output may be the array itself.
   */
  method FilterByBitset(a: array<u16>, card: nat, bitmap: array<bv64>, out: array<u16>, inside: bool)
    returns (newcard: nat)
    requires card <= a.Length && card <= out.Length && Sorted(a[..card]) && 64 * bitmap.Length == 0x1_0000
    requires bitmap != out as object
    modifies out
    ensures newcard <= card && Sorted(out[..newcard])
    ensures Elements(out[..newcard]) == Kept(old(Elements(a[..card])), BitSet(bitmap[..]), inside)
  {
    hide Sorted, Elements, BitSet, FilterPrefix;
    ghost var s, t := a[..card], BitSet(bitmap[..]);
    FilterStart(s, t, inside);
    assert out[..0] == [];
    newcard := 0;
    var i := 0;
    while i < card
      invariant newcard <= i <= card && FilterPrefix(out[..newcard], s, i, t, inside)
      invariant Unread(a, 0, s, i)
    {
      var key := a[i];
      assert key == s[i];
      var contained := GetBit(bitmap, key);
      ghost var o := out[..newcard];
      if contained == inside { FilterTake(o, s, i, t, inside); } else { FilterDrop(o, s, i, t, inside); }
      out[newcard] := key;
      assert out[..newcard] == o && out[..newcard + 1] == o + [key];
      newcard := newcard + (if contained == inside then 1 else 0);
      i := i + 1;
    }
    FilterDone(out[..newcard], s, t, inside);
  }

  // ---------- filters by a run list ----------

  /** The run under the cursor holds `val`, or none does. */
  lemma CursorDecides(r: seq<Run>, w: nat, val: int)
    requires Canonical(r) && w < |r| && (forall k :: 0 <= k < w ==> r[k].End() <= val)
    ensures val < r[w].value ==> val !in Denote(r)
    ensures r[w].value <= val < r[w].End() ==> val in Denote(r)
  {
    hide Denote;
    if val < r[w].value {
      DenoteHas(r, val);
    } else if val < r[w].End() {
      DenoteMember(r, w, val);
    }
  }

  lemma PastAll(r: seq<Run>, val: int)
    requires forall k :: 0 <= k < |r| ==> r[k].End() <= val
    ensures val !in Denote(r)
  {
    hide Denote;
    DenoteHas(r, val);
  }

  /**
   Where `array_run_container_andnot` stands in the runs before it looks at `val`: at run `w`, or past them all with a
   sentinel above every value.
   */
  ghost predicate Cursor(r: seq<Run>, w: nat, runStart: int, runEnd: int, val: int) {
    && w < |r|
    && (forall k :: 0 <= k < w ==> r[k].End() <= val)
    && if runStart == 0x1_0001 then runEnd == 0x1_0001 && forall k :: 0 <= k < |r| ==> r[k].End() <= val
       else runStart == r[w].value && runEnd == r[w].End() - 1
  }

  lemma CursorLater(r: seq<Run>, w: nat, runStart: int, runEnd: int, val: int, val': int)
    requires Cursor(r, w, runStart, runEnd, val) && val <= val'
    ensures Cursor(r, w, runStart, runEnd, val')
  {
  }

  lemma CursorAnswer(r: seq<Run>, w: nat, runStart: int, runEnd: int, val: u16)
    requires Canonical(r) && Cursor(r, w, runStart, runEnd, val)
    ensures val < runStart ==> val !in Denote(r)
    ensures runStart <= val <= runEnd ==> val in Denote(r)
  {
    hide Denote;
    CursorDecides(r, w, val);
    if runStart == 0x1_0001 { PastAll(r, val); }
  }

  /** The inner loop of `array_run_container_andnot`: skips the runs that end before `val`. */
  method SkipRuns(run: RunContainer, from: nat, start: int, end: int, val: u16)
    returns (whichRun: nat, runStart: int, runEnd: int)
    requires run.Valid() && Cursor(run.View(), from, start, end, val) && end < val
    ensures Cursor(run.View(), whichRun, runStart, runEnd, val) && val <= runEnd
    ensures from <= whichRun
  {
    ghost var r := run.View();
    whichRun, runStart, runEnd := from, start, end;
    while val > runEnd
      invariant from <= whichRun && Cursor(r, whichRun, runStart, runEnd, val)
      decreases run.nRuns - whichRun, if runEnd == 0x1_0001 then 0 else 1
    {
      if whichRun + 1 < run.nRuns {
        whichRun := whichRun + 1;
        assert r[whichRun] == run.runs[whichRun];
        runStart := run.runs[whichRun].value;
        runEnd := runStart + run.runs[whichRun].length;
      } else {
        runStart := 0x1_0001;
        runEnd := 0x1_0001;
      }
    }
  }

  /** `array_run_container_andnot`; the output may be the array itself. */
  method ArrayRunAndNot(a: array<u16>, card: nat, run: RunContainer, out: array<u16>) returns (destCard: nat)
    requires card <= a.Length && card <= out.Length && Sorted(a[..card]) && run.Valid() && run.nRuns > 0
    requires out != run as object && out != run.runs as object
    modifies out
    ensures destCard <= card && Sorted(out[..destCard])
    ensures Elements(out[..destCard]) == old(Elements(a[..card])) - Denote(run.View())
  {
    hide Sorted, Elements, Denote, FilterPrefix, Canonical;
    ghost var s, r := a[..card], run.View();
    ghost var t := Denote(r);
    FilterStart(s, t, false);
    assert out[..0] == [] && run.runs[0] == r[0];
    var runStart: int := run.runs[0].value;
    var runEnd: int := runStart + run.runs[0].length;
    var whichRun: nat := 0;
    destCard := 0;
    var i: nat := 0;
    while i < card
      invariant destCard <= i <= card && FilterPrefix(out[..destCard], s, i, t, false)
      invariant Unread(a, 0, s, i) && run.Valid() && run.View() == r
      invariant Cursor(r, whichRun, runStart, runEnd, if i < card then s[i] else 0x1_0000)
      decreases card - i, if i < card && runEnd < s[i] then 1 else 0
    {
      var val := a[i];
      assert val == s[i];
      ghost var o := out[..destCard];
      CursorAnswer(r, whichRun, runStart, runEnd, val);
      if val < runStart {
        FilterTake(o, s, i, t, false);
        NextLarger(s, i);
        CursorLater(r, whichRun, runStart, runEnd, val, if i + 1 < card then s[i + 1] else 0x1_0000);
        out[destCard] := val;
        assert out[..destCard + 1] == o + [val];
        destCard := destCard + 1;
        i := i + 1;
      } else if val <= runEnd {
        FilterDrop(o, s, i, t, false);
        NextLarger(s, i);
        CursorLater(r, whichRun, runStart, runEnd, val, if i + 1 < card then s[i + 1] else 0x1_0000);
        i := i + 1;
      } else {
        whichRun, runStart, runEnd := SkipRuns(run, whichRun, runStart, runEnd, val);
      }
    }
    FilterDone(out[..destCard], s, t, false);
  }

  lemma NextLarger(s: seq<u16>, i: nat)
    requires Sorted(s) && i < |s|
    ensures i + 1 < |s| ==> s[i] < s[i + 1]
  {
  }

  /** `array_run_container_intersection` into a fresh buffer. */
  method ArrayRunIntersection(a: array<u16>, card: nat, run: RunContainer, out: array<u16>) returns (newcard: nat)
    requires card <= a.Length && card <= out.Length && Sorted(a[..card]) && run.Valid() && run.nRuns > 0
    requires out != run as object && out != run.runs as object && out != a
    modifies out
    ensures newcard <= card && Sorted(out[..newcard])
    ensures Elements(out[..newcard]) == Elements(a[..card]) * Denote(run.View())
  {
    hide Sorted, Elements, Denote, FilterPrefix, Canonical;
    ghost var s, r := a[..card], run.View();
    ghost var t := Denote(r);
    FilterStart(s, t, true);
    assert out[..0] == [];
    newcard := 0;
    var rlepos: nat, arraypos: nat := 0, 0;
    while arraypos < card
      invariant newcard <= arraypos <= card && rlepos < |r| && FilterPrefix(out[..newcard], s, arraypos, t, true)
      invariant a[..card] == s && run.Valid() && run.View() == r
      invariant arraypos < card ==> forall k :: 0 <= k < rlepos ==> r[k].End() <= s[arraypos]
    {
      var arrayval := a[arraypos];
      assert arrayval == s[arraypos];
      rlepos := FirstRunFor(run, rlepos, arrayval);
      if rlepos == run.nRuns {
        forall k | 0 <= k < |r| ensures r[k].End() <= s[arraypos] { assert run.View()[k].End() <= arrayval; }
        NothingAfter(r, s, arraypos);
        FilterRest(out[..newcard], s, arraypos, t);
        return;
      }
      CursorDecides(r, rlepos, arrayval);
      assert r[rlepos] == run.runs[rlepos];
      ghost var o := out[..newcard];
      if run.runs[rlepos].value > arrayval {
        var next := AdvanceUntil(a, arraypos, card, run.runs[rlepos].value);
        SkippedByRun(r, rlepos, s, arraypos, next);
        FilterDropMany(o, s, arraypos, next, t);
        arraypos := next;
      } else {
        FilterTake(o, s, arraypos, t, true);
        NextLarger(s, arraypos);
        out[newcard] := arrayval;
        assert out[..newcard + 1] == o + [arrayval];
        newcard := newcard + 1;
        arraypos := arraypos + 1;
      }
    }
    FilterDone(out[..newcard], s, t, true);
  }

  /** The inner loop of the intersection: the first run that does not end before `val`. */
  method FirstRunFor(run: RunContainer, from: nat, val: u16) returns (rlepos: nat)
    requires run.Valid() && from < run.nRuns && forall k :: 0 <= k < from ==> run.View()[k].End() <= val
    ensures from <= rlepos <= run.nRuns && forall k :: 0 <= k < rlepos ==> run.View()[k].End() <= val
    ensures rlepos < run.nRuns ==> val < run.View()[rlepos].End()
  {
    ghost var r := run.View();
    rlepos := from;
    while rlepos < run.nRuns && run.runs[rlepos].value + run.runs[rlepos].length < val
      invariant from <= rlepos <= run.nRuns && forall k :: 0 <= k < rlepos ==> r[k].End() <= val
    {
      assert r[rlepos] == run.runs[rlepos];
      rlepos := rlepos + 1;
    }
    assert rlepos < run.nRuns ==> r[rlepos] == run.runs[rlepos];
  }

  lemma NothingAfter(r: seq<Run>, s: seq<u16>, i: nat)
    requires Sorted(s) && i < |s| && forall k :: 0 <= k < |r| ==> r[k].End() <= s[i]
    ensures forall k :: i <= k < |s| ==> s[k] !in Denote(r)
  {
    hide Denote;
    forall k | i <= k < |s| ensures s[k] !in Denote(r) {
      assert s[i] <= s[k];
      PastAll(r, s[k]);
    }
  }

  /** The values that the galloping search jumps over lie between two runs. */
  lemma SkippedByRun(r: seq<Run>, w: nat, s: seq<u16>, i: nat, j: int)
    requires Canonical(r) && Sorted(s) && w < |r| && i < |s| && (forall k :: 0 <= k < w ==> r[k].End() <= s[i])
    requires FirstFrom(s, i, r[w].value, j) && s[i] < r[w].value
    ensures i < j <= |s| && forall k :: i <= k < j ==> s[k] !in Denote(r)
    ensures j < |s| ==> forall k :: 0 <= k < w ==> r[k].End() <= s[j]
  {
    hide Denote;
    forall k | i <= k < j ensures s[k] !in Denote(r) {
      assert s[i] <= s[k];
      CursorDecides(r, w, s[k]);
    }
  }

  // ---------- listings ----------

  /** The members of `d` below `x` have been written out. */
  ghost predicate Listed(out: seq<u16>, d: set<int>, x: int) {
    Sorted(out) && Elements(out) == Below(d, x)
  }

  lemma ListedStart(d: set<int>, x: int)
    requires forall y :: y in d ==> x <= y
    ensures Listed([], d, x)
  {
    assert Below(d, x) == {};
  }

  lemma ListedOne(out: seq<u16>, d: set<int>, x: u16)
    requires Listed(out, d, x) && x in d
    ensures Listed(out + [x], d, x + 1) && |out| < |d|
  {
    if out != [] { assert out[|out| - 1] as int in Elements(out); }
    SortedSnoc(out, x);
    ElementsSnoc(out, x);
    assert Below(d, x + 1) == Below(d, x) + {x as int};
    SortedSize(out + [x]);
    SubsetSize(Below(d, x + 1), d);
  }

  lemma ListedSkip(out: seq<u16>, d: set<int>, x: int, y: int)
    requires Listed(out, d, x) && x <= y && forall z :: x <= z < y ==> z !in d
    ensures Listed(out, d, y)
  {
    assert Below(d, x) == Below(d, y);
  }

  lemma ListedAll(out: seq<u16>, d: set<int>)
    requires Listed(out, d, 0x1_0000) && d <= Range(0, 0x1_0000)
    ensures Sorted(out) && Elements(out) == d
  {
    assert Below(d, 0x1_0000) == d;
  }

  /** Nothing of a run list lies between one run and the next. */
  lemma GapBefore(r: seq<Run>, i: nat, x: int)
    requires Canonical(r) && i <= |r| && RunXor.EndOf(r, i) <= x && (i < |r| ==> x < r[i].value)
    ensures x !in Denote(r)
  {
    CanonicalIsLoose(r);
    RunMerges.BetweenRuns(r, i, x);
  }

  /** `array_container_append` without a check of the capacity. */
  method Emit16(a: ArrayContainer, val: u16)
    requires a.cardinality < a.vals.Length
    modifies a`cardinality, a.vals
    ensures a.cardinality == old(a.cardinality) + 1 && a.View() == old(a.View()) + [val]
  {
    a.vals[a.cardinality] := val;
    a.cardinality := a.cardinality + 1;
  }

  /** The values of one run that a bitset lacks. */
  method ListRun(a: ArrayContainer, r: Run, bitmap: array<bv64>, ghost d: set<int>)
    requires a.cardinality <= a.vals.Length && |d| <= a.vals.Length && Listed(a.View(), d, r.value)
    requires r.End() <= 0x1_0000 && 64 * bitmap.Length == 0x1_0000
    requires bitmap != a as object && bitmap != a.vals as object
    requires forall x :: r.Contains(x) ==> (x in d <==> x !in BitSet(bitmap[..]))
    modifies a`cardinality, a.vals
    ensures a.cardinality <= a.vals.Length && Listed(a.View(), d, r.End())
  {
    hide BitSet, Listed;
    ghost var t := BitSet(bitmap[..]);
    var runValue: int := r.value;
    while runValue < r.End()
      invariant r.value <= runValue <= r.End() && BitSet(bitmap[..]) == t
      invariant a.cardinality <= a.vals.Length && Listed(a.View(), d, runValue)
    {
      var contained := GetBit(bitmap, runValue);
      assert r.Contains(runValue);
      if contained {
        ListedSkip(a.View(), d, runValue, runValue + 1);
      } else {
        ListedOne(a.View(), d, runValue);
        Emit16(a, runValue);
      }
      runValue := runValue + 1;
    }
  }

  /**
   The loop of `run_bitset_container_andnot` for a small run list: the buffer has room for every value of the runs.
   */
  method ListRuns(run: RunContainer, card: nat, bitmap: array<bv64>) returns (a: ArrayContainer)
    requires run.Valid() && card == |Denote(run.View())| && 64 * bitmap.Length == 0x1_0000
    ensures fresh(a) && fresh(a.vals) && a.Valid() && a.cardinality <= card
    ensures Elements(a.View()) == Denote(run.View()) - BitSet(bitmap[..])
  {
    hide BitSet, Listed, Denote, Canonical, Elements, Sorted;
    ghost var r, t := run.View(), BitSet(bitmap[..]);
    ghost var d := Kept(Denote(r), t, false);
    KeptBounds(r, t, false);
    a := new ArrayContainer(card);
    ListedStart(d, 0);
    assert a.View() == [];
    var rlepos := 0;
    while rlepos < run.nRuns
      invariant rlepos <= |r| && run.Valid() && run.View() == r && BitSet(bitmap[..]) == t
      invariant fresh(a) && fresh(a.vals) && a.vals.Length == card
      invariant a.cardinality <= card && Listed(a.View(), d, RunXor.EndOf(r, rlepos))
    {
      assert r[rlepos] == run.runs[rlepos];
      BeforeRun(a.View(), r, rlepos, t, false);
      InsideRun(r, rlepos, t, false);
      ListRun(a, run.runs[rlepos], bitmap, d);
      rlepos := rlepos + 1;
    }
    AfterRuns(a.View(), r, t, false);
    ListedAll(a.View(), d);
  }

  // ---------- the intersection with room for the smaller operand only ----------

  function Smaller(m: nat, n: nat): nat { if m < n then m else n }

  /** When `v` comes up, every member of `b` has been found among the smaller members of `r`. */
  ghost predicate Exhausted(r: set<int>, b: set<int>, v: int) {
    b <= r && forall x :: x in b ==> x < v
  }

  /** No member of `r` is left once all of `b` has been found. */
  ghost predicate RoomToMeet(r: set<int>, b: set<int>) {
    forall v :: v in r ==> !Exhausted(r, b, v)
  }

  /**
   The store of `v`, which precedes the test of its membership, falls into a buffer for the smaller of the two sets.
   */
  lemma StoreFits(r: set<int>, b: set<int>, v: int)
    requires v in r
    ensures |Below(r * b, v)| < Smaller(|r|, |b|) <==> !Exhausted(r, b, v)
  {
    var found := Below(r * b, v);
    assert v !in found;
    SubsetSize(found + {v}, r);
    if Exhausted(r, b, v) {
      assert found == b;
    } else if |b| <= |found| {
      SubsetSize(found, b);
      SubsetSameSize(found, b);
    }
  }

  /** A guard that a caller can check: no more values in the runs than in the bitset. */
  lemma FewValuesFit(r: set<int>, b: set<int>)
    requires |r| <= |b|
    ensures RoomToMeet(r, b)
  {
    forall v | v in r ensures !Exhausted(r, b, v) {
      if Exhausted(r, b, v) { SubsetSize(b + {v}, r); }
    }
  }

  /** There is no room exactly when the bitset lies in the runs and a run value lies behind all of it. */
  lemma RoomMeans(r: set<int>, b: set<int>)
    ensures RoomToMeet(r, b) <==> !(b <= r && exists v :: v in r && forall x :: x in b ==> x < v)
    ensures |r| <= |b| ==> RoomToMeet(r, b)
  {
    if |r| <= |b| { FewValuesFit(r, b); }
    if b <= r {
      if v :| v in r && forall x :: x in b ==> x < v { assert Exhausted(r, b, v); }
    }
  }

  /** Every store of a value below `x` has fallen into the buffer. */
  ghost predicate RoomBelow(r: set<int>, b: set<int>, x: int) {
    forall v :: v in r && v < x ==> !Exhausted(r, b, v)
  }

  /** The store of the next value: it is kept by counting it. */
  lemma StoreNext(out: seq<u16>, r: set<int>, b: set<int>, x: u16)
    requires Listed(out, r * b, x) && RoomBelow(r, b, x) && x in r
    ensures |out| < Smaller(|r|, |b|) <==> !Exhausted(r, b, x)
    ensures !Exhausted(r, b, x) ==> RoomBelow(r, b, x + 1)
    ensures x in b ==> Listed(out + [x], r * b, x + 1)
    ensures x !in b ==> Listed(out, r * b, x + 1)
  {
    hide Exhausted, Listed;
    ListedSize(out, r * b, x);
    StoreFits(r, b, x);
    if x in b {
      ListedOne(out, r * b, x);
    } else {
      ListedSkip(out, r * b, x, x + 1);
    }
  }

  lemma ListedSize(out: seq<u16>, d: set<int>, x: int)
    requires Listed(out, d, x)
    ensures |out| == |Below(d, x)|
  {
    SortedSize(out);
  }

  /** One run of `run_bitset_container_intersection`: stops at a store that the buffer has no room for. */
  method MeetRun(a: ArrayContainer, rle: Run, bitmap: array<bv64>, ghost r: set<int>, ghost b: set<int>)
    returns (room: bool)
    requires a.cardinality <= a.vals.Length == Smaller(|r|, |b|) && rle.End() <= 0x1_0000
    requires Listed(a.View(), r * b, rle.value) && RoomBelow(r, b, rle.value)
    requires 64 * bitmap.Length == 0x1_0000 && BitSet(bitmap[..]) == b
    requires bitmap != a as object && bitmap != a.vals as object
    requires forall x :: rle.Contains(x) ==> x in r
    modifies a`cardinality, a.vals
    ensures a.cardinality <= a.vals.Length
    ensures room ==> Listed(a.View(), r * b, rle.End()) && RoomBelow(r, b, rle.End())
    ensures !room ==> !RoomToMeet(r, b)
  {
    hide BitSet, Listed, Exhausted, RoomBelow;
    var runValue: int := rle.value;
    while runValue < rle.End()
      invariant rle.value <= runValue <= rle.End() && BitSet(bitmap[..]) == b && a.cardinality <= a.vals.Length
      invariant Listed(a.View(), r * b, runValue) && RoomBelow(r, b, runValue)
    {
      assert rle.Contains(runValue);
      ghost var out := a.View();
      StoreNext(out, r, b, runValue);
      if a.cardinality == a.vals.Length {
        return false;
      }
      a.vals[a.cardinality] := runValue;
      assert a.vals[..a.cardinality] == out && a.vals[..a.cardinality + 1] == out + [runValue];
      var contained := GetBit(bitmap, runValue);
      a.cardinality := a.cardinality + (if contained then 1 else 0);
      runValue := runValue + 1;
    }
    room := true;
  }

  /**
   The loops of `run_bitset_container_intersection` for a small run list. The buffer has room for the smaller of the two
   cardinalities, and every value is stored before its membership is tested.
   */
  method MeetRuns(run: RunContainer, runCard: nat, bitmap: array<bv64>, bitsetCard: nat)
    returns (room: bool, a: ArrayContainer)
    requires run.Valid() && runCard == |Denote(run.View())|
    requires 64 * bitmap.Length == 0x1_0000 && bitsetCard == |BitSet(bitmap[..])|
    ensures room <==> RoomToMeet(Denote(run.View()), BitSet(bitmap[..]))
    ensures runCard <= bitsetCard ==> room
    ensures !(BitSet(bitmap[..]) <= Denote(run.View())) ==> room
    ensures fresh(a) && fresh(a.vals) && a.cardinality <= a.vals.Length == Smaller(runCard, bitsetCard)
    ensures room ==> a.Valid()
    ensures room ==> Elements(a.View()) == Denote(run.View()) * BitSet(bitmap[..])
  {
    hide BitSet, Listed, Denote, Canonical, Elements, Sorted, RoomToMeet, RoomBelow;
    ghost var r, b := run.View(), BitSet(bitmap[..]);
    RoomMeans(Denote(r), b);
    KeptBounds(r, b, true);
    a := new ArrayContainer(Smaller(runCard, bitsetCard));
    ListedStart(Denote(r) * b, 0);
    RoomStart(r, b);
    assert a.View() == [];
    var rlepos := 0;
    while rlepos < run.nRuns
      invariant rlepos <= |r| && run.Valid() && run.View() == r && BitSet(bitmap[..]) == b
      invariant fresh(a) && fresh(a.vals) && a.cardinality <= a.vals.Length == Smaller(runCard, bitsetCard)
      invariant Listed(a.View(), Denote(r) * b, RunXor.EndOf(r, rlepos)) &&
        RoomBelow(Denote(r), b, RunXor.EndOf(r, rlepos))
    {
      assert r[rlepos] == run.runs[rlepos];
      BeforeRun(a.View(), r, rlepos, b, true);
      RoomBefore(r, b, rlepos);
      RunInside(r, rlepos);
      room := MeetRun(a, run.runs[rlepos], bitmap, Denote(r), b);
      if !room {
        return;
      }
      rlepos := rlepos + 1;
    }
    AfterRuns(a.View(), r, b, true);
    RoomAfter(r, b);
    ListedAll(a.View(), Denote(r) * b);
    room := true;
  }

  lemma RoomStart(r: seq<Run>, b: set<int>)
    requires Canonical(r)
    ensures RoomBelow(Denote(r), b, 0)
  {
    hide Denote, Exhausted;
    DenoteBounds(r);
  }

  lemma RoomBefore(r: seq<Run>, b: set<int>, i: nat)
    requires Canonical(r) && i < |r| && RoomBelow(Denote(r), b, RunXor.EndOf(r, i))
    ensures RoomBelow(Denote(r), b, r[i].value)
  {
    hide Denote, Exhausted;
    forall z | RunXor.EndOf(r, i) <= z < r[i].value ensures z !in Denote(r) { GapBefore(r, i, z); }
  }

  lemma RunInside(r: seq<Run>, i: nat)
    requires Canonical(r) && i < |r|
    ensures r[i].End() <= 0x1_0000 && forall x :: r[i].Contains(x) ==> x in Denote(r)
  {
    hide Denote;
    forall x | r[i].Contains(x) ensures x in Denote(r) { DenoteMember(r, i, x); }
  }

  lemma RoomAfter(r: seq<Run>, b: set<int>)
    requires Canonical(r) && RoomBelow(Denote(r), b, RunXor.EndOf(r, |r|))
    ensures RoomToMeet(Denote(r), b)
  {
    hide Denote, Exhausted;
    forall v | v in Denote(r) ensures !Exhausted(Denote(r), b, v) {
      if RunXor.EndOf(r, |r|) <= v { GapBefore(r, |r|, v); }
    }
  }

  lemma KeptBounds(r: seq<Run>, t: set<int>, inside: bool)
    requires Canonical(r)
    ensures var d := Kept(Denote(r), t, inside);
      && d <= Range(0, 0x1_0000) && |d| <= |Denote(r)| && (forall y :: y in d ==> 0 <= y)
  {
    hide Denote;
    DenoteBounds(r);
    SubsetSize(Kept(Denote(r), t, inside), Denote(r));
  }

  lemma BeforeRun(out: seq<u16>, r: seq<Run>, i: nat, t: set<int>, inside: bool)
    requires Canonical(r) && i < |r| && Listed(out, Kept(Denote(r), t, inside), RunXor.EndOf(r, i))
    ensures Listed(out, Kept(Denote(r), t, inside), r[i].value)
  {
    hide Denote, Listed;
    var d := Kept(Denote(r), t, inside);
    forall z | RunXor.EndOf(r, i) <= z < r[i].value ensures z !in d { GapBefore(r, i, z); }
    ListedSkip(out, d, RunXor.EndOf(r, i), r[i].value);
  }

  lemma InsideRun(r: seq<Run>, i: nat, t: set<int>, inside: bool)
    requires Canonical(r) && i < |r|
    ensures r[i].End() <= 0x1_0000
    ensures forall x :: r[i].Contains(x) ==> (x in Kept(Denote(r), t, inside) <==> (x in t <==> inside))
  {
    hide Denote;
    forall x | r[i].Contains(x) ensures x in Denote(r) { DenoteMember(r, i, x); }
  }

  lemma AfterRuns(out: seq<u16>, r: seq<Run>, t: set<int>, inside: bool)
    requires Canonical(r) && Listed(out, Kept(Denote(r), t, inside), RunXor.EndOf(r, |r|))
    ensures Listed(out, Kept(Denote(r), t, inside), 0x1_0000)
  {
    hide Denote, Listed;
    var d := Kept(Denote(r), t, inside);
    forall z | RunXor.EndOf(r, |r|) <= z < 0x1_0000 ensures z !in d { GapBefore(r, |r|, z); }
    ListedSkip(out, d, RunXor.EndOf(r, |r|), 0x1_0000);
  }

  // ---------- a run list minus an array ----------

  /** Values that are not listed in `vals` because the next one is larger. */
  lemma BetweenVals(vals: seq<u16>, q: nat, x: int)
    requires Sorted(vals) && q <= |vals| && (forall k :: 0 <= k < q ==> vals[k] < x) && (q < |vals| ==> x < vals[q])
    ensures x !in Elements(vals)
  {
    forall k | 0 <= k < |vals| ensures vals[k] != x {
      if q <= k { assert vals[q] <= vals[k]; }
    }
  }

  /** The values of a run, none of which the array has. */
  method ListWhole(out: ArrayContainer, start: int, end: int, ghost d: set<int>)
    requires 0 <= start <= end <= 0x1_0000 && forall x :: start <= x < end ==> x in d
    requires out.cardinality <= out.vals.Length && |d| <= out.vals.Length && Listed(out.View(), d, start)
    modifies out`cardinality, out.vals
    ensures out.cardinality <= out.vals.Length && Listed(out.View(), d, end)
  {
    hide Listed;
    var i := start;
    while i < end
      invariant start <= i <= end && out.cardinality <= out.vals.Length && Listed(out.View(), d, i)
    {
      ListedOne(out.View(), d, i);
      Emit16(out, i);
      i := i + 1;
    }
  }

  /** Where the array stands inside a run: at its next value, or past its last with a value that cannot come again. */
  ghost predicate NextOut(vals: seq<u16>, q: nat, next: int, i: int) {
    && q < |vals|
    && if next == vals[q] && i <= next then forall k :: 0 <= k < q ==> vals[k] < i
       else next == 0 && 0 < i && q == |vals| - 1 && forall k :: 0 <= k < |vals| ==> vals[k] < i
  }

  lemma NextOutDecides(vals: seq<u16>, q: nat, next: int, i: u16)
    requires Sorted(vals) && NextOut(vals, q, next, i)
    ensures i in Elements(vals) <==> i == next
  {
    if i == next && next == vals[q] {
    } else if next == vals[q] && i <= next {
      BetweenVals(vals, q, i);
    } else {
      BetweenVals(vals, |vals|, i);
    }
  }

  lemma NextOutLater(vals: seq<u16>, q: nat, next: int, i: int)
    requires Sorted(vals) && NextOut(vals, q, next, i) && i != next
    ensures NextOut(vals, q, next, i + 1)
  {
  }

  lemma NextOutMatched(vals: seq<u16>, q: nat, next: int, i: int)
    requires Sorted(vals) && NextOut(vals, q, next, i) && i == next
    ensures q + 1 >= |vals| ==> NextOut(vals, q, 0, i + 1)
    ensures q + 1 < |vals| ==> NextOut(vals, q + 1, vals[q + 1], i + 1)
  {
  }

  /** The values of a run without those of the array that fall into it. */
  method ListWithout(out: ArrayContainer, start: int, end: int, a: array<u16>, card: nat, inArrayPos: nat,
                     ghost vals: seq<u16>, ghost d: set<int>)
    returns (pos: nat)
    requires 0 <= start <= end <= 0x1_0000 && Sorted(vals) && card == |vals| <= a.Length && a[..card] == vals
    requires forall x :: start <= x < end ==> (x in d <==> x !in Elements(vals))
    requires inArrayPos < |vals| && NextOut(vals, inArrayPos, vals[inArrayPos], start)
    requires out.cardinality <= out.vals.Length && |d| <= out.vals.Length && Listed(out.View(), d, start)
    requires a != out as object && a != out.vals
    modifies out`cardinality, out.vals
    ensures out.cardinality <= out.vals.Length && Listed(out.View(), d, end)
    ensures pos < |vals| && forall k :: 0 <= k < pos ==> vals[k] < end
  {
    hide Listed, Elements, Sorted, NextOut;
    pos := inArrayPos;
    var nextNonincluded: int := a[inArrayPos];
    assert nextNonincluded == vals[inArrayPos];
    var i := start;
    while i < end
      invariant start <= i <= end && pos < |vals| && NextOut(vals, pos, nextNonincluded, i)
      invariant a[..card] == vals
      invariant out.cardinality <= out.vals.Length && Listed(out.View(), d, i)
    {
      NextOutDecides(vals, pos, nextNonincluded, i);
      if i != nextNonincluded {
        NextOutLater(vals, pos, nextNonincluded, i);
        ListedOne(out.View(), d, i);
        Emit16(out, i);
      } else {
        NextOutMatched(vals, pos, nextNonincluded, i);
        ListedSkip(out.View(), d, i, i + 1);
        if pos + 1 >= card {
          nextNonincluded := 0;
        } else {
          pos := pos + 1;
          nextNonincluded := a[pos];
          assert nextNonincluded == vals[pos];
        }
      }
      i := i + 1;
    }
    NextOutBehind(vals, pos, nextNonincluded, end);
  }

  lemma NextOutBehind(vals: seq<u16>, q: nat, next: int, i: int)
    requires Sorted(vals) && NextOut(vals, q, next, i)
    ensures forall k :: 0 <= k < q ==> vals[k] < i
  {
  }

  /** The array positions up to `p` are settled before the values from `x` on. */
  ghost predicate Settled(vals: seq<u16>, p: int, x: int) {
    -1 <= p && forall k :: 0 <= k <= p && k < |vals| ==> vals[k] < x
  }

  /** One run of `run_array_array_subtract`. */
  method SubtractFromRun(out: ArrayContainer, rle: Run, a: array<u16>, card: nat, inArrayPos: int,
                         ghost vals: seq<u16>, ghost d: set<int>)
    returns (pos: int)
    requires rle.End() <= 0x1_0000 && Sorted(vals) && card == |vals| <= a.Length && a[..card] == vals
    requires forall x :: rle.Contains(x) ==> (x in d <==> x !in Elements(vals))
    requires Settled(vals, inArrayPos, rle.value)
    requires out.cardinality <= out.vals.Length && |d| <= out.vals.Length && Listed(out.View(), d, rle.value)
    requires a != out as object && a != out.vals
    modifies out`cardinality, out.vals
    ensures out.cardinality <= out.vals.Length && Listed(out.View(), d, rle.End()) && Settled(vals, pos, rle.End())
  {
    hide Listed, Elements, Sorted;
    var start: int := rle.value;
    var end: int := start + rle.length + 1;
    pos := AdvanceUntil(a, inArrayPos, card, rle.value);
    assert forall k :: 0 <= k < pos && k < |vals| ==> vals[k] < start;
    if pos >= card {
      RunUntouched(vals, |vals|, start, end, d, rle);
      ListWhole(out, start, end, d);
    } else {
      assert a[pos] == vals[pos];
      if a[pos] >= end {
        RunUntouched(vals, pos, start, end, d, rle);
        ListWhole(out, start, end, d);
        pos := pos - 1;
      } else {
        assert forall x :: start <= x < end ==> rle.Contains(x);
        pos := ListWithout(out, start, end, a, card, pos, vals, d);
        pos := pos - 1;
      }
    }
  }

  lemma RunUntouched(vals: seq<u16>, q: nat, start: int, end: int, d: set<int>, rle: Run)
    requires Sorted(vals) && q <= |vals| && (forall k :: 0 <= k < q ==> vals[k] < start)
    requires (q < |vals| ==> end <= vals[q])
    requires start == rle.value && end == rle.End()
    requires forall x :: rle.Contains(x) ==> (x in d <==> x !in Elements(vals))
    ensures forall x :: start <= x < end ==> x in d
  {
    hide Elements;
    forall x | start <= x < end ensures x in d {
      BetweenVals(vals, q, x);
      assert rle.Contains(x);
    }
  }

  /** `run_array_array_subtract`: the values of a run list that an array does not have, as an array. */
  method RunArrayArraySubtract(run: RunContainer, card: nat, src2: ArrayContainer) returns (out: ArrayContainer)
    requires run.Valid() && src2.Valid() && card == |Denote(run.View())|
    ensures fresh(out) && fresh(out.vals) && out.Valid() && out.cardinality <= card
    ensures Elements(out.View()) == Denote(run.View()) - Elements(src2.View())
  {
    hide Listed, Denote, Canonical, Elements, Sorted, Settled;
    ghost var r, vals := run.View(), src2.View();
    ghost var t := Elements(vals);
    ghost var d := Kept(Denote(r), t, false);
    KeptBounds(r, t, false);
    out := new ArrayContainer(card);
    ListedStart(d, 0);
    assert out.View() == [];
    var inArrayPos := -1;
    SettledStart(vals);
    var rlepos := 0;
    while rlepos < run.nRuns
      invariant rlepos <= |r| && run.Valid() && run.View() == r
      invariant src2.cardinality <= src2.vals.Length && src2.View() == vals
      invariant fresh(out) && fresh(out.vals) && out.vals.Length == card
      invariant out.cardinality <= card && Listed(out.View(), d, RunXor.EndOf(r, rlepos))
      invariant Settled(vals, inArrayPos, RunXor.EndOf(r, rlepos))
    {
      assert r[rlepos] == run.runs[rlepos];
      BeforeRun(out.View(), r, rlepos, t, false);
      InsideRun(r, rlepos, t, false);
      SettledLater(vals, inArrayPos, RunXor.EndOf(r, rlepos), r[rlepos].value, r, rlepos);
      inArrayPos := SubtractFromRun(out, run.runs[rlepos], src2.vals, src2.cardinality, inArrayPos, vals, d);
      rlepos := rlepos + 1;
    }
    AfterRuns(out.View(), r, t, false);
    ListedAll(out.View(), d);
  }

  lemma SettledStart(vals: seq<u16>)
    ensures Settled(vals, -1, 0)
  {
  }

  lemma SettledLater(vals: seq<u16>, p: int, x: int, y: int, r: seq<Run>, i: nat)
    requires Settled(vals, p, x) && Canonical(r) && i < |r| && x == RunXor.EndOf(r, i) && y == r[i].value
    ensures Settled(vals, p, y)
  {
  }

  // ---------- xor of two arrays ----------

  /** `out` is the symmetric difference of the first `i` values of `s` and the first `j` values of `t`. */
  ghost predicate ExclusivePrefix(out: seq<u16>, s: seq<u16>, i: nat, t: seq<u16>, j: nat) {
    && i <= |s| && j <= |t| && |out| <= i + j
    && Sorted(out)
    && Elements(out) == Xor(Elements(s[..i]), Elements(t[..j]))
    && (out != [] && i < |s| ==> out[|out| - 1] < s[i])
    && (out != [] && j < |t| ==> out[|out| - 1] < t[j])
    && (i < |s| && j > 0 ==> t[j - 1] < s[i])
    && (j < |t| && i > 0 ==> s[i - 1] < t[j])
  }

  lemma ExclusiveStart(s: seq<u16>, t: seq<u16>)
    ensures ExclusivePrefix([], s, 0, t, 0)
  {
  }

  lemma ExclusiveSymmetric(out: seq<u16>, s: seq<u16>, i: nat, t: seq<u16>, j: nat)
    requires ExclusivePrefix(out, s, i, t, j)
    ensures ExclusivePrefix(out, t, j, s, i)
  {
    assert Xor(Elements(s[..i]), Elements(t[..j])) == Xor(Elements(t[..j]), Elements(s[..i]));
  }

  lemma NotAmong(s: seq<u16>, i: nat, x: int)
    requires Sorted(s) && i <= |s| && (i > 0 ==> s[i - 1] < x)
    ensures x !in Elements(s[..i])
  {
  }

  lemma ExclusiveTake(out: seq<u16>, s: seq<u16>, i: nat, t: seq<u16>, j: nat)
    requires Sorted(s) && Sorted(t) && ExclusivePrefix(out, s, i, t, j)
    requires i < |s| && (j < |t| ==> s[i] < t[j])
    ensures ExclusivePrefix(out + [s[i]], s, i + 1, t, j)
  {
    SortedSnoc(out, s[i]);
    ElementsSnoc(out, s[i]);
    PrefixGrow(s, i);
    NotAmong(s, i, s[i]);
    NotAmong(t, j, s[i]);
    XorWith(Elements(s[..i]), Elements(t[..j]), s[i]);
  }

  lemma XorWith(a: set<int>, b: set<int>, x: int)
    requires x !in a && x !in b
    ensures Xor(a + {x}, b) == Xor(a, b) + {x} && Xor(a + {x}, b + {x}) == Xor(a, b)
  {
  }

  lemma ExclusiveBoth(out: seq<u16>, s: seq<u16>, i: nat, t: seq<u16>, j: nat)
    requires Sorted(s) && Sorted(t) && ExclusivePrefix(out, s, i, t, j)
    requires i < |s| && j < |t| && s[i] == t[j]
    ensures ExclusivePrefix(out, s, i + 1, t, j + 1)
  {
    PrefixGrow(s, i);
    PrefixGrow(t, j);
    NotAmong(s, i, s[i]);
    NotAmong(t, j, s[i]);
    XorWith(Elements(s[..i]), Elements(t[..j]), s[i]);
  }

  lemma RestApart(s: seq<u16>, i: nat, t: seq<u16>)
    requires Sorted(s) && Sorted(t) && i <= |s| && (i < |s| && |t| > 0 ==> t[|t| - 1] < s[i])
    ensures Elements(s[i..]) !! Elements(s[..i]) && Elements(s[i..]) !! Elements(t)
  {
    forall x | x in Elements(s[i..]) ensures x !in Elements(s[..i]) && x !in Elements(t) {
      var k :| 0 <= k < |s[i..]| && s[i..][k] == x;
      assert s[i] <= s[i + k];
      assert i > 0 ==> s[i - 1] < s[i];
      NotAmong(t, |t|, x);
      NotAmong(s, i, x);
      assert t[..|t|] == t;
    }
  }

  lemma XorRestOf(a: set<int>, b: set<int>, c: set<int>)
    requires c !! a && c !! b
    ensures Xor(a, b) + c == Xor(a + c, b)
  {
  }

  lemma ExclusiveEnd(out: seq<u16>, s: seq<u16>, i: nat, t: seq<u16>)
    requires ExclusivePrefix(out, s, i, t, |t|)
    ensures i <= |s| && Sorted(out) && Elements(out) == Xor(Elements(s[..i]), Elements(t))
    ensures out != [] && i < |s| ==> out[|out| - 1] < s[i]
    ensures i < |s| && |t| > 0 ==> t[|t| - 1] < s[i]
  {
    assert t[..|t|] == t;
  }

  lemma ExclusiveFinish(out: seq<u16>, s: seq<u16>, i: nat, t: seq<u16>)
    requires Sorted(s) && Sorted(t) && ExclusivePrefix(out, s, i, t, |t|)
    ensures Sorted(out + s[i..]) && Elements(out + s[i..]) == Xor(Elements(s), Elements(t))
  {
    hide Elements, ExclusivePrefix;
    ExclusiveEnd(out, s, i, t);
    SortedConcat(out, s[i..]);
    ElementsConcat(out, s[i..]);
    ElementsConcat(s[..i], s[i..]);
    assert s == s[..i] + s[i..];
    RestApart(s, i, t);
    XorRestOf(Elements(s[..i]), Elements(t), Elements(s[i..]));
  }

  /** The merging loop of `xor_uint16`. */
  method ExclusiveScan(a1: array<u16>, card1: nat, a2: array<u16>, card2: nat, out: array<u16>,
                       ghost s: seq<u16>, ghost t: seq<u16>)
    returns (pos1: nat, pos2: nat, posOut: nat)
    requires out != a1 && out != a2 && card1 == |s| <= a1.Length && card2 == |t| <= a2.Length
    requires card1 + card2 <= out.Length && a1[..card1] == s && a2[..card2] == t && Sorted(s) && Sorted(t)
    modifies out
    ensures pos1 <= card1 && pos2 <= card2 && (pos1 == card1 || pos2 == card2) && posOut <= pos1 + pos2
    ensures ExclusivePrefix(out[..posOut], s, pos1, t, pos2)
  {
    hide Sorted, ExclusivePrefix;
    pos1, pos2, posOut := 0, 0, 0;
    ExclusiveStart(s, t);
    assert out[..0] == [];
    while pos1 < card1 && pos2 < card2
      invariant pos1 <= card1 && pos2 <= card2 && posOut <= pos1 + pos2
      invariant a1[..card1] == s && a2[..card2] == t && ExclusivePrefix(out[..posOut], s, pos1, t, pos2)
    {
      var v1, v2 := a1[pos1], a2[pos2];
      assert v1 == s[pos1] && v2 == t[pos2];
      ghost var o := out[..posOut];
      if v1 == v2 {
        ExclusiveBoth(o, s, pos1, t, pos2);
        pos1, pos2 := pos1 + 1, pos2 + 1;
      } else if v1 < v2 {
        ExclusiveTake(o, s, pos1, t, pos2);
        out[posOut] := v1;
        assert out[..posOut + 1] == o + [v1];
        pos1, posOut := pos1 + 1, posOut + 1;
      } else {
        ExclusiveSymmetric(o, s, pos1, t, pos2);
        ExclusiveTake(o, t, pos2, s, pos1);
        ExclusiveSymmetric(o + [v2], t, pos2 + 1, s, pos1);
        out[posOut] := v2;
        assert out[..posOut + 1] == o + [v2];
        pos2, posOut := pos2 + 1, posOut + 1;
      }
    }
  }

  /** `xor_uint16` */
  method XorUint16(a1: array<u16>, card1: nat, a2: array<u16>, card2: nat, out: array<u16>) returns (posOut: nat)
    requires out != a1 && out != a2 && card1 <= a1.Length && card2 <= a2.Length && card1 + card2 <= out.Length
    requires Sorted(a1[..card1]) && Sorted(a2[..card2])
    modifies out
    ensures posOut <= card1 + card2 && Sorted(out[..posOut])
    ensures Elements(out[..posOut]) == Xor(Elements(a1[..card1]), Elements(a2[..card2]))
  {
    hide Sorted, Elements, ExclusivePrefix;
    ghost var s, t := a1[..card1], a2[..card2];
    var pos1, pos2;
    pos1, pos2, posOut := ExclusiveScan(a1, card1, a2, card2, out, s, t);
    ghost var o := out[..posOut];
    if pos1 < card1 {
      ExclusiveFinish(o, s, pos1, t);
      posOut := AppendRest(out, posOut, a1, pos1, card1 - pos1);
      assert out[..posOut] == o + s[pos1..];
    } else {
      ExclusiveSymmetric(o, s, pos1, t, pos2);
      ExclusiveFinish(o, t, pos2, s);
      XorCommutes(Elements(s), Elements(t));
      if pos2 < card2 {
        posOut := AppendRest(out, posOut, a2, pos2, card2 - pos2);
      }
      assert out[..posOut] == o + t[pos2..];
    }
  }

  lemma XorCommutes(a: set<int>, b: set<int>)
    ensures Xor(a, b) == Xor(b, a)
  {
  }
}
