/** The iterator over the values of a bitmap, in both directions. */
module Iterators {
  import opened IntSets
  import opened Ranks
  import opened SortedArrays
  import opened Bitsets
  import opened Runs
  import opened Containers
  import opened ContainerCursors
  import opened Slots
  import opened RoaringArrays
  import Bitmaps
  import BitmapQueries
  import ContainerQueries

  // ---------- from a container to the whole bitmap ----------

  /** Every value of slot `j` is below `lo`. */
  ghost predicate EndsBelow(keys: seq<u16>, cs: seq<Container>, j: nat, lo: int)
    requires j < |keys| == |cs|
  {
    forall v :: v in Elems(cs[j]) ==> BitmapQueries.Base(keys[j]) + v < lo
  }

  /** Every value of slot `j` is above `hi`. */
  ghost predicate StartsAbove(keys: seq<u16>, cs: seq<Container>, j: nat, hi: int)
    requires j < |keys| == |cs|
  {
    forall v :: v in Elems(cs[j]) ==> hi < BitmapQueries.Base(keys[j]) + v
  }

  /** The search from `lo` upwards may start at slot `i`. */
  ghost predicate Searched(keys: seq<u16>, cs: seq<Container>, i: int, lo: int) {
    0 <= i <= |keys| == |cs| && forall j :: 0 <= j < i ==> EndsBelow(keys, cs, j, lo)
  }

  /** The search from `hi` downwards may start at slot `i`. */
  ghost predicate SearchedDown(keys: seq<u16>, cs: seq<Container>, i: int, hi: int) {
    -1 <= i < |keys| == |cs| && forall j :: i < j < |keys| ==> StartsAbove(keys, cs, j, hi)
  }

  /** Every value lies in one slot. */
  lemma SlotOf(keys: seq<u16>, cs: seq<Container>, y: int) returns (j: nat)
    requires Layout(keys, cs) && y in Whole(keys, cs)
    ensures j < |keys| == |cs| && y == BitmapQueries.Base(keys[j]) + y % 0x1_0000 && y % 0x1_0000 in Elems(cs[j])
  {
    hide Elems, At, Good;
    if forall i :: 0 <= i < |keys| ==> keys[i] != y / 0x1_0000 {
      AtMissing(keys, cs, y / 0x1_0000);
    }
    j :| 0 <= j < |keys| && keys[j] == y / 0x1_0000;
    AtIndex(keys, cs, j);
  }

  lemma SlotMember(keys: seq<u16>, cs: seq<Container>, i: nat, v: int)
    requires Layout(keys, cs) && i < |keys| && v in Elems(cs[i])
    ensures 0 <= v < 0x1_0000 && BitmapQueries.Base(keys[i]) + v in Whole(keys, cs)
  {
    hide Elems, At, Good;
    Bitmaps.GoodAt(cs, i);
    ElemsBounds(cs[i]);
    assert v in Range(0, 0x1_0000);
    AtIndex(keys, cs, i);
    Bitmaps.PointMember(keys, cs, BitmapQueries.Base(keys[i]) + v);
  }

  /** A slot with a larger key starts above everything a slot with a smaller key holds. */
  lemma KeysApart(keys: seq<u16>, i: nat, j: nat, v: int, w: int)
    requires Sorted(keys) && i < j < |keys| && v < 0x1_0000 && 0 <= w
    ensures BitmapQueries.Base(keys[i]) + v < BitmapQueries.Base(keys[j]) + w
  {
  }

  /** The first value from `lo` on, once slot `i` is known to hold one. */
  lemma LeastInSlot(keys: seq<u16>, cs: seq<Container>, i: nat, lo: int, low: int, v: int)
    requires Layout(keys, cs) && i < |keys| && Searched(keys, cs, i, lo) && Least(Elems(cs[i]), low, v)
    requires lo == BitmapQueries.Base(keys[i]) + low || (low == 0 && lo <= BitmapQueries.Base(keys[i]))
    ensures 0 <= v < 0x1_0000 && Least(Whole(keys, cs), lo, BitmapQueries.Base(keys[i]) + v)
  {
    hide Elems, At, Good, Whole, Layout;
    Bitmaps.LayoutIs(keys, cs);
    SlotMember(keys, cs, i, v);
    forall y: int | y in Whole(keys, cs) && lo <= y ensures BitmapQueries.Base(keys[i]) + v <= y {
      var j := SlotOf(keys, cs, y);
      assert j < i ==> EndsBelow(keys, cs, j, lo);
      if i < j { KeysApart(keys, i, j, v, y % 0x1_0000); }
    }
  }

  /** The last value up to `hi`, once slot `i` is known to hold one. */
  lemma GreatestInSlot(keys: seq<u16>, cs: seq<Container>, i: nat, hi: int, high: int, v: int)
    requires Layout(keys, cs) && i < |keys| && SearchedDown(keys, cs, i, hi) && Greatest(Elems(cs[i]), high, v)
    requires hi == BitmapQueries.Base(keys[i]) + high || (high == 0xFFFF && BitmapQueries.Base(keys[i]) + 0xFFFF <= hi)
    ensures 0 <= v < 0x1_0000 && Greatest(Whole(keys, cs), hi, BitmapQueries.Base(keys[i]) + v)
  {
    hide Elems, At, Good, Whole, Layout;
    Bitmaps.LayoutIs(keys, cs);
    SlotMember(keys, cs, i, v);
    forall y: int | y in Whole(keys, cs) && y <= hi ensures y <= BitmapQueries.Base(keys[i]) + v {
      var j := SlotOf(keys, cs, y);
      assert i < j ==> StartsAbove(keys, cs, j, hi);
      if j < i { KeysApart(keys, j, i, y % 0x1_0000, v); }
    }
  }

  lemma SearchedNext(keys: seq<u16>, cs: seq<Container>, i: nat, low: int)
    requires |keys| == |cs| && i < |keys| && Searched(keys, cs, i, BitmapQueries.Base(keys[i]) + low)
    requires NoneFrom(Elems(cs[i]), low)
    ensures Searched(keys, cs, i + 1, BitmapQueries.Base(keys[i]) + low)
  {
  }

  lemma SearchedPrevious(keys: seq<u16>, cs: seq<Container>, i: nat, high: int)
    requires |keys| == |cs| && i < |keys| && SearchedDown(keys, cs, i, BitmapQueries.Base(keys[i]) + high)
    requires NoneUpTo(Elems(cs[i]), high)
    ensures SearchedDown(keys, cs, i - 1, BitmapQueries.Base(keys[i]) + high)
  {
  }

  /** From any point of slot `i` on, the slots around it are passed. */
  lemma SearchedAround(keys: seq<u16>, cs: seq<Container>, i: nat, x: int)
    requires Layout(keys, cs) && i < |keys| && 0 <= x <= 0x1_0000
    ensures Searched(keys, cs, i, BitmapQueries.Base(keys[i]) + x)
    ensures SearchedDown(keys, cs, i, BitmapQueries.Base(keys[i]) + x - 1)
  {
    hide Elems, Good, Layout;
    Bitmaps.LayoutIs(keys, cs);
    var here := BitmapQueries.Base(keys[i]) + x;
    forall j | 0 <= j < i ensures EndsBelow(keys, cs, j, here) {
      forall v | v in Elems(cs[j]) ensures BitmapQueries.Base(keys[j]) + v < here {
        SlotMember(keys, cs, j, v);
        KeysApart(keys, j, i, v, x);
      }
    }
    var before := here - 1;
    forall j | i < j < |keys| ensures StartsAbove(keys, cs, j, before) {
      forall v | v in Elems(cs[j]) ensures before < BitmapQueries.Base(keys[j]) + v {
        SlotMember(keys, cs, j, v);
        KeysApart(keys, i, j, x - 1, v);
      }
    }
  }

  /** The slots whose keys are smaller than that of `lo` are passed. */
  lemma SearchedKeys(keys: seq<u16>, cs: seq<Container>, i: nat, lo: u32)
    requires Layout(keys, cs) && i <= |keys| && forall j :: 0 <= j < i ==> keys[j] < lo / 0x1_0000
    ensures Searched(keys, cs, i, lo)
  {
    hide Elems, Good, Layout;
    Bitmaps.LayoutIs(keys, cs);
    forall j | 0 <= j < i ensures EndsBelow(keys, cs, j, lo) {
      forall v | v in Elems(cs[j]) ensures BitmapQueries.Base(keys[j]) + v < lo {
        SlotMember(keys, cs, j, v);
        BelowKey(keys[j], v, lo);
      }
    }
  }

  lemma BelowKey(key: int, v: int, lo: int)
    requires key < lo / 0x1_0000 && v < 0x1_0000
    ensures BitmapQueries.Base(key) + v < lo
  {
  }

  lemma SearchedAll(keys: seq<u16>, cs: seq<Container>, lo: int)
    requires Layout(keys, cs) && Searched(keys, cs, |keys|, lo)
    ensures NoneFrom(Whole(keys, cs), lo)
  {
    hide Elems, Good, Layout, Whole;
    forall y: int | y in Whole(keys, cs) ensures y < lo {
      var j := SlotOf(keys, cs, y);
      assert EndsBelow(keys, cs, j, lo);
    }
  }

  lemma SearchedDownAll(keys: seq<u16>, cs: seq<Container>, hi: int)
    requires Layout(keys, cs) && SearchedDown(keys, cs, -1, hi)
    ensures NoneUpTo(Whole(keys, cs), hi)
  {
    hide Elems, Good, Layout, Whole;
    forall y: int | y in Whole(keys, cs) ensures hi < y {
      var j := SlotOf(keys, cs, y);
      assert StartsAbove(keys, cs, j, hi);
    }
  }

  lemma NothingPassed(keys: seq<u16>, cs: seq<Container>)
    requires |keys| == |cs|
    ensures Searched(keys, cs, 0, 0) && SearchedDown(keys, cs, |keys| - 1, 0xFFFF_FFFF)
  {
  }

  // ---------- what the iterator visits ----------

  /**
   `visits` starts at the first member from `lo` on, goes to the next member each time, and ends where there is none.
   */
  ghost predicate Ascent(s: set<int>, lo: int, visits: seq<int>) {
    && (if visits == [] then NoneFrom(s, lo) else Least(s, lo, visits[0]))
    && (forall i :: 0 <= i < |visits| - 1 ==> Least(s, visits[i] + 1, visits[i + 1]))
    && (visits != [] ==> NoneFrom(s, visits[|visits| - 1] + 1))
  }

  /** The same downwards. */
  ghost predicate Descent(s: set<int>, hi: int, visits: seq<int>) {
    && (if visits == [] then NoneUpTo(s, hi) else Greatest(s, hi, visits[0]))
    && (forall i :: 0 <= i < |visits| - 1 ==> Greatest(s, visits[i] - 1, visits[i + 1]))
    && (visits != [] ==> NoneUpTo(s, visits[|visits| - 1] - 1))
  }

  /** Stepping forward from `lo` visits every member from there on exactly once, in increasing order. */
  lemma AscentVisitsAll(s: set<int>, lo: int, visits: seq<int>)
    requires Ascent(s, lo, visits)
    ensures forall i, j :: 0 <= i < j < |visits| ==> visits[i] < visits[j]
    ensures forall x :: x in visits <==> x in s && lo <= x
  {
    forall i, j | 0 <= i < j < |visits| ensures visits[i] < visits[j] { AscentAscends(s, lo, visits, i, j); }
    forall x ensures x in visits <==> x in s && lo <= x {
      if x in visits {
        var i :| 0 <= i < |visits| && visits[i] == x;
        assert i > 0 ==> Least(s, visits[i - 1] + 1, visits[i]) && visits[0] < visits[i];
      }
      if x in s && lo <= x { AscentReaches(s, lo, visits, 0, x); }
    }
  }

  lemma {:induction false} AscentAscends(s: set<int>, lo: int, visits: seq<int>, i: nat, j: nat)
    requires Ascent(s, lo, visits) && i < j < |visits|
    ensures visits[i] < visits[j]
    decreases j
  {
    assert Least(s, visits[j - 1] + 1, visits[j]);
    if i < j - 1 { AscentAscends(s, lo, visits, i, j - 1); }
  }

  lemma {:induction false} AscentReaches(s: set<int>, lo: int, visits: seq<int>, i: nat, x: int)
    requires Ascent(s, lo, visits) && x in s && lo <= x && i <= |visits| && (i < |visits| ==> visits[i] <= x)
    requires i == |visits| ==> visits == []
    ensures x in visits
    decreases |visits| - i
  {
    if i < |visits| && visits[i] != x {
      if i + 1 < |visits| {
        assert Least(s, visits[i] + 1, visits[i + 1]);
        AscentReaches(s, lo, visits, i + 1, x);
      }
    }
  }

  /** Stepping back from `hi` is stepping forward among the negated members. */
  lemma DescentMirrors(s: set<int>, hi: int, visits: seq<int>)
    requires Descent(s, hi, visits)
    ensures Ascent(Negated(s), -hi, Opposite(visits))
  {
    var t := Negated(s);
    forall x, y | Greatest(s, x, y) ensures Least(t, -x, -y) {
      forall z | z in t && -x <= z ensures -y <= z { assert -z in s; }
    }
    forall x | NoneUpTo(s, x) ensures NoneFrom(t, -x) {
      forall z | z in t ensures z < -x { assert -z in s; }
    }
  }

  function Negated(s: set<int>): (t: set<int>)
    ensures forall x :: x in t <==> -x in s
  {
    set x | x in s :: -x
  }

  function Opposite(visits: seq<int>): seq<int> { seq(|visits|, i requires 0 <= i < |visits| => -visits[i]) }

  /** Stepping back from `hi` visits every member up to there exactly once, in decreasing order. */
  lemma DescentVisitsAll(s: set<int>, hi: int, visits: seq<int>)
    requires Descent(s, hi, visits)
    ensures forall i, j :: 0 <= i < j < |visits| ==> visits[i] > visits[j]
    ensures forall x :: x in visits <==> x in s && x <= hi
  {
    hide Ascent, Descent;
    var mirror := Opposite(visits);
    DescentMirrors(s, hi, visits);
    AscentVisitsAll(Negated(s), -hi, mirror);
    forall i, j | 0 <= i < j < |visits| ensures visits[i] > visits[j] { assert mirror[i] < mirror[j]; }
    forall x ensures x in visits <==> x in s && x <= hi {
      if x in visits {
        var i :| 0 <= i < |visits| && visits[i] == x;
        assert mirror[i] == -x && -x in mirror;
      }
      if x in s && x <= hi {
        assert -x in Negated(s) && -x in mirror;
        var i :| 0 <= i < |mirror| && mirror[i] == -x;
        assert visits[i] == x;
      }
    }
  }

  /** A step forward and a step back, when both succeed, return to the same value; and the other way round. */
  lemma ThereAndBack(s: set<int>, x: int, y: int)
    requires x in s && y in s
    ensures Least(s, x + 1, y) <==> Greatest(s, y - 1, x)
  {
  }

  // ---------- the iterator ----------

  class Iterator {
    const parent: RoaringArray
    var containerIndex: int
    var inContainerIndex: int
    var runIndex: int
    var currentValue: u32
    var hasValue: bool
    var container: Container
    var highbits: u32

    /** The iterator points at value `x`, whether or not it still says so. */
    ghost predicate At(x: int)
      reads this, parent, parent.keys, parent.containers
    {
      && parent.Fits() && 0 <= containerIndex < parent.size && currentValue == x
      && highbits == BitmapQueries.Base(parent.keys[containerIndex]) && container == parent.containers[containerIndex]
      && highbits <= x && Here(container, inContainerIndex, runIndex, x - highbits)
    }

    ghost predicate Valid()
      reads this, parent, parent.keys, parent.containers
    {
      && parent.Valid()
      && (if 0 <= containerIndex < parent.size then At(currentValue) else !hasValue)
      && -1 <= containerIndex <= parent.size
    }

    constructor (r: RoaringArray)
      requires r.Valid()
      ensures parent == r
    {
      parent := r;
      containerIndex, inContainerIndex, runIndex := 0, 0, 0;
      currentValue, hasValue, container, highbits := 0, false, ArrayC([]), 0;
    }

    /** `iter_new_container_partial_init` */
    method PartialInit() returns (ok: bool)
      requires parent.Valid() && -1 <= containerIndex <= parent.size
      modifies this
      ensures containerIndex == old(containerIndex) && ok == hasValue
      ensures ok <==> 0 <= containerIndex < parent.size
      ensures ok ==> container == parent.containers[containerIndex]
      ensures ok ==> highbits == BitmapQueries.Base(parent.keys[containerIndex])
      ensures !ok ==> currentValue == 0xFFFF_FFFF
    {
      inContainerIndex := 0;
      runIndex := 0;
      currentValue := 0;
      if containerIndex >= parent.size || containerIndex < 0 {
        currentValue := 0xFFFF_FFFF;
        hasValue := false;
        return false;
      }
      hasValue := true;
      container := parent.containers[containerIndex];
      highbits := BitmapQueries.Base(parent.keys[containerIndex]);
      return true;
    }

    /** `loadfirstvalue`: the first value from `lo` on, when no slot before this one reaches `lo`. */
    method LoadFirst(ghost lo: int)
      requires parent.Valid() && Searched(parent.Keys(), parent.Slots(), containerIndex, lo)
      requires 0 <= containerIndex < parent.size ==> lo <= BitmapQueries.Base(parent.keys[containerIndex])
      modifies this
      ensures Valid() && containerIndex == old(containerIndex)
      ensures hasValue ==> Least(parent.Values(), lo, currentValue)
      ensures !hasValue ==> NoneFrom(parent.Values(), lo) && containerIndex == parent.size
    {
      hide Whole, Elems, Good, Layout, Least, Searched, Here;
      ghost var keys, cs := parent.Keys(), parent.Slots();
      SearchedIndex(keys, cs, containerIndex, lo);
      var ok := PartialInit();
      if !ok {
        SearchedAll(keys, cs, lo);
        return;
      }
      Bitmaps.LayoutIs(keys, cs);
      assert keys[containerIndex] == parent.keys[containerIndex] && cs[containerIndex] == container;
      Bitmaps.GoodOf(cs, containerIndex);
      var v;
      inContainerIndex, runIndex, v := First(container);
      LeastInSlot(keys, cs, containerIndex, lo, 0, v);
      currentValue := highbits + v;
    }

    /** `loadlastvalue`: the last value up to `hi`, when every slot after this one starts above `hi`. */
    method LoadLast(ghost hi: int)
      requires parent.Valid() && SearchedDown(parent.Keys(), parent.Slots(), containerIndex, hi)
      requires 0 <= containerIndex < parent.size ==> BitmapQueries.Base(parent.keys[containerIndex]) + 0xFFFF <= hi
      modifies this
      ensures Valid() && containerIndex == old(containerIndex)
      ensures hasValue ==> Greatest(parent.Values(), hi, currentValue)
      ensures !hasValue ==> NoneUpTo(parent.Values(), hi) && containerIndex == -1
    {
      hide Whole, Elems, Good, Layout, Greatest, SearchedDown, Here;
      ghost var keys, cs := parent.Keys(), parent.Slots();
      SearchedDownIndex(keys, cs, containerIndex, hi);
      var ok := PartialInit();
      if !ok {
        SearchedDownAll(keys, cs, hi);
        return;
      }
      Bitmaps.LayoutIs(keys, cs);
      assert keys[containerIndex] == parent.keys[containerIndex] && cs[containerIndex] == container;
      Bitmaps.GoodOf(cs, containerIndex);
      var v;
      inContainerIndex, runIndex, v := Last(container);
      GreatestInSlot(keys, cs, containerIndex, hi, 0xFFFF, v);
      currentValue := highbits + v;
    }

    /** `roaring_init_iterator` */
    method InitFirst()
      requires parent.Valid()
      modifies this
      ensures Valid() && (hasValue <==> parent.Values() != {})
      ensures if hasValue then Smallest(parent.Values(), currentValue) else containerIndex == parent.size
    {
      hide Whole, Elems, Good, Layout, Least, Searched;
      NothingPassed(parent.Keys(), parent.Slots());
      containerIndex := 0;
      LoadFirst(0);
      WholeBounds(parent.Keys(), parent.Slots());
      LeastIsSmallest(parent.Values(), currentValue, hasValue);
    }

    /** `roaring_init_iterator_last` */
    method InitLast()
      requires parent.Valid()
      modifies this
      ensures Valid() && (hasValue <==> parent.Values() != {})
      ensures if hasValue then Largest(parent.Values(), currentValue) else containerIndex == -1
    {
      hide Whole, Elems, Good, Layout, Greatest, SearchedDown;
      NothingPassed(parent.Keys(), parent.Slots());
      containerIndex := parent.size - 1;
      LoadLast(0xFFFF_FFFF);
      WholeBounds(parent.Keys(), parent.Slots());
      GreatestIsLargest(parent.Values(), currentValue, hasValue);
    }

    /** `roaring_move_uint32_iterator_equalorlarger` */
    method MoveEqualOrLarger(val: u32)
      requires parent.Valid()
      modifies this
      ensures Valid()
      ensures hasValue ==> Least(parent.Values(), val, currentValue)
      ensures !hasValue ==> NoneFrom(parent.Values(), val) && containerIndex == parent.size
    {
      hide Whole, Elems, Good, Layout, Least, Searched, Here, Sorted, Largest, NoneFrom;
      ghost var keys, cs := parent.Keys(), parent.Slots();
      Bitmaps.LayoutIs(keys, cs);
      BitmapQueries.HighLow(val);
      var hb, lb := val / 0x1_0000, val % 0x1_0000;
      var i := parent.GetIndex(hb);
      if i >= 0 {
        assert keys[i] == parent.keys[i] && cs[i] == parent.containers[i];
        Bitmaps.GoodOf(cs, i);
        SearchedAround(keys, cs, i, lb);
        var lowvalue := ContainerQueries.Maximum(parent.containers[i]);
        LargestDecides(Elems(cs[i]), lowvalue, lb);
        if lowvalue < lb {
          SearchedNext(keys, cs, i, lb);
          NextBase(keys, i, val);
          containerIndex := i + 1;
        } else {
          containerIndex := i;
          var _ := PartialInit();
          var v;
          inContainerIndex, runIndex, v := FirstNotBelow(container, lb);
          LeastInSlot(keys, cs, i, val, lb, v);
          currentValue := highbits + v;
          return;
        }
      } else {
        containerIndex := -i - 1;
        SearchedKeys(keys, cs, -i - 1, val);
        AboveKey(keys, -i - 1, val);
      }
      LoadFirst(val);
    }

    /** The bitset and array branches of `roaring_advance_uint32_iterator`. */
    method NextIndexed() returns (moved: bool)
      requires Valid() && 0 <= containerIndex < parent.size && !container.RunC?
      modifies this`inContainerIndex, this`currentValue, this`hasValue
      ensures moved ==> hasValue && At(currentValue)
      ensures moved ==> Least(Elems(container), old(currentValue) - highbits + 1, currentValue - highbits)
      ensures !moved ==> NoneFrom(Elems(container), old(currentValue) - highbits + 1)
    {
      hide Elements, BitSet, Least, NoneFrom, Layout, Good, Sorted;
      GoodHere(parent.Keys(), parent.Slots(), containerIndex, container, inContainerIndex, runIndex,
               currentValue - highbits);
      ghost var low := currentValue - highbits;
      match container {
        case BitsetC(words, _) =>
          var found, index := NextInBitset(words, inContainerIndex);
          if found {
            LeastMember(BitSet(words), low + 1, index);
            inContainerIndex := index;
            currentValue := highbits + index;
            hasValue := true;
            return true;
          }
        case ArrayC(vals) =>
          NextInArray(vals, inContainerIndex);
          if inContainerIndex + 1 < |vals| {
            inContainerIndex := inContainerIndex + 1;
            currentValue := highbits + vals[inContainerIndex];
            hasValue := true;
            return true;
          }
      }
      return false;
    }

    /** The run branch, which must not let the 32-bit value wrap around: then the iterator stays where it is. */
    method NextRun() returns (moved: bool, stuck: bool)
      requires Valid() && 0 <= containerIndex < parent.size && container.RunC?
      modifies this`runIndex, this`currentValue, this`hasValue
      ensures moved ==> !stuck && hasValue && At(currentValue)
      ensures moved ==> Least(Elems(container), old(currentValue) - highbits + 1, currentValue - highbits)
      ensures stuck ==> !moved && !hasValue && At(currentValue) && currentValue == old(currentValue)
      ensures stuck <==> old(currentValue) == 0xFFFF_FFFF
      ensures !moved && !stuck ==> NoneFrom(Elems(container), old(currentValue) - highbits + 1)
    {
      hide Denote, Canonical, Least, NoneFrom, Layout, Good;
      ghost var low := currentValue - highbits;
      GoodHere(parent.Keys(), parent.Slots(), containerIndex, container, inContainerIndex, runIndex, low);
      NextInRuns(container.runs, runIndex, low);
      if currentValue == 0xFFFF_FFFF {
        hasValue := false;
        return false, true;
      }
      var runs := container.runs;
      currentValue := currentValue + 1;
      if currentValue <= highbits + (runs[runIndex].value + runs[runIndex].length) {
        hasValue := true;
        return true, false;
      }
      if runIndex + 1 < |runs| {
        runIndex := runIndex + 1;
        currentValue := highbits + runs[runIndex].value;
        hasValue := true;
        return true, false;
      }
      return false, false;
    }

    /** `roaring_advance_uint32_iterator` */
    method Advance()
      requires Valid()
      modifies this
      ensures Valid()
      ensures old(containerIndex) >= parent.size ==> !hasValue && containerIndex == old(containerIndex)
      ensures old(containerIndex) < 0 ==>
        if hasValue then Least(parent.Values(), 0, currentValue) else NoneFrom(parent.Values(), 0)
      ensures 0 <= old(containerIndex) < parent.size ==>
        if hasValue then Least(parent.Values(), old(currentValue) + 1, currentValue)
        else NoneFrom(parent.Values(), old(currentValue) + 1)
      ensures old(containerIndex) < 0 && !hasValue ==> containerIndex == parent.size
      ensures 0 <= old(containerIndex) < parent.size && !hasValue ==>
        if old(currentValue) == 0xFFFF_FFFF && old(container).RunC?
        then containerIndex == old(containerIndex) && currentValue == old(currentValue)
        else containerIndex == parent.size
    {
      hide Whole, Elems, Good, Layout, Least, NoneFrom, Searched, Here;
      ghost var keys, cs := parent.Keys(), parent.Slots();
      if containerIndex >= parent.size {
        hasValue := false;
        return;
      }
      if containerIndex < 0 {
        NothingPassed(keys, cs);
        containerIndex := 0;
        LoadFirst(0);
        return;
      }
      AdvanceFromSlot();
    }

    /** The iterator stands in a container: the next value there, or the first of the next container. */
    method AdvanceFromSlot()
      requires Valid() && 0 <= containerIndex < parent.size
      modifies this
      ensures Valid()
      ensures hasValue ==> Least(parent.Values(), old(currentValue) + 1, currentValue)
      ensures !hasValue ==> NoneFrom(parent.Values(), old(currentValue) + 1)
      ensures !hasValue ==>
        if old(currentValue) == 0xFFFF_FFFF && old(container).RunC?
        then containerIndex == old(containerIndex) && currentValue == old(currentValue)
        else containerIndex == parent.size
    {
      hide Whole, Elems, Good, Layout, Least, NoneFrom, Searched, Here;
      ghost var keys, cs := parent.Keys(), parent.Slots();
      ghost var x: int, low: int := currentValue, currentValue - highbits;
      Bitmaps.LayoutIs(keys, cs);
      assert keys[containerIndex] == parent.keys[containerIndex] && cs[containerIndex] == container;
      GoodHere(keys, cs, containerIndex, container, inContainerIndex, runIndex, low);
      SearchedAround(keys, cs, containerIndex, low + 1);
      var moved, stuck := false, false;
      if container.RunC? {
        moved, stuck := NextRun();
      } else {
        moved := NextIndexed();
      }
      if stuck {
        LastValue(keys, cs);
        return;
      }
      if moved {
        LeastInSlot(keys, cs, containerIndex, x + 1, low + 1, currentValue - highbits);
        return;
      }
      SearchedNext(keys, cs, containerIndex, low + 1);
      BaseAfter(keys, containerIndex, x + 1);
      containerIndex := containerIndex + 1;
      LoadFirst(x + 1);
    }

    /** The bitset and array branches of `roaring_previous_uint32_iterator`. */
    method PreviousIndexed() returns (moved: bool)
      requires Valid() && 0 <= containerIndex < parent.size && !container.RunC?
      modifies this`inContainerIndex, this`currentValue, this`hasValue
      ensures moved ==> hasValue && At(currentValue)
      ensures moved ==> Greatest(Elems(container), old(currentValue) - highbits - 1, currentValue - highbits)
      ensures !moved ==> NoneUpTo(Elems(container), old(currentValue) - highbits - 1)
    {
      hide Elements, BitSet, Greatest, NoneUpTo, Layout, Good, Sorted;
      GoodHere(parent.Keys(), parent.Slots(), containerIndex, container, inContainerIndex, runIndex,
               currentValue - highbits);
      ghost var low := currentValue - highbits;
      match container {
        case BitsetC(words, _) =>
          var found, index := PreviousInBitset(words, inContainerIndex);
          if found {
            GreatestIn(BitSet(words), low - 1, index);
            inContainerIndex := index;
            currentValue := highbits + index;
            hasValue := true;
            return true;
          }
        case ArrayC(vals) =>
          NextInArray(vals, inContainerIndex);
          if inContainerIndex - 1 >= 0 {
            inContainerIndex := inContainerIndex - 1;
            currentValue := highbits + vals[inContainerIndex];
            hasValue := true;
            return true;
          }
      }
      return false;
    }

    /** The run branch, which must not let the 32-bit value wrap around. */
    method PreviousRun() returns (moved: bool, stuck: bool)
      requires Valid() && 0 <= containerIndex < parent.size && container.RunC?
      modifies this`runIndex, this`currentValue, this`hasValue
      ensures moved ==> !stuck && hasValue && At(currentValue)
      ensures moved ==> Greatest(Elems(container), old(currentValue) - highbits - 1, currentValue - highbits)
      ensures stuck ==> !moved && !hasValue && At(currentValue) && currentValue == old(currentValue)
      ensures stuck <==> old(currentValue) == 0
      ensures !moved && !stuck ==> NoneUpTo(Elems(container), old(currentValue) - highbits - 1)
    {
      hide Denote, Canonical, Greatest, NoneUpTo, Layout, Good;
      ghost var low := currentValue - highbits;
      GoodHere(parent.Keys(), parent.Slots(), containerIndex, container, inContainerIndex, runIndex, low);
      NextInRuns(container.runs, runIndex, low);
      if currentValue == 0 {
        hasValue := false;
        return false, true;
      }
      var runs := container.runs;
      currentValue := currentValue - 1;
      if currentValue >= highbits + runs[runIndex].value {
        hasValue := true;
        return true, false;
      }
      if runIndex - 1 >= 0 {
        runIndex := runIndex - 1;
        currentValue := highbits + (runs[runIndex].value + runs[runIndex].length);
        hasValue := true;
        return true, false;
      }
      return false, false;
    }

    /** `roaring_previous_uint32_iterator` */
    method Previous()
      requires Valid()
      modifies this
      ensures Valid()
      ensures old(containerIndex) < 0 ==> !hasValue && containerIndex == old(containerIndex)
      ensures 0 <= old(containerIndex) && old(containerIndex) >= parent.size ==>
        if hasValue then Greatest(parent.Values(), 0xFFFF_FFFF, currentValue)
          else NoneUpTo(parent.Values(), 0xFFFF_FFFF)
      ensures 0 <= old(containerIndex) < parent.size ==>
        if hasValue then Greatest(parent.Values(), old(currentValue) - 1, currentValue)
        else NoneUpTo(parent.Values(), old(currentValue) - 1)
      ensures 0 <= old(containerIndex) && old(containerIndex) >= parent.size && !hasValue ==> containerIndex == -1
      ensures 0 <= old(containerIndex) < parent.size && !hasValue ==>
        if old(currentValue) == 0 && old(container).RunC?
        then containerIndex == old(containerIndex) && currentValue == old(currentValue)
        else containerIndex == -1
    {
      hide Whole, Elems, Good, Layout, Greatest, NoneUpTo, SearchedDown, Here;
      ghost var keys, cs := parent.Keys(), parent.Slots();
      if containerIndex < 0 {
        hasValue := false;
        return;
      }
      if containerIndex >= parent.size {
        NothingPassed(keys, cs);
        containerIndex := parent.size - 1;
        LoadLast(0xFFFF_FFFF);
        return;
      }
      PreviousFromSlot();
    }

    /** The iterator stands in a container: the previous value there, or the last of the previous container. */
    method PreviousFromSlot()
      requires Valid() && 0 <= containerIndex < parent.size
      modifies this
      ensures Valid()
      ensures hasValue ==> Greatest(parent.Values(), old(currentValue) - 1, currentValue)
      ensures !hasValue ==> NoneUpTo(parent.Values(), old(currentValue) - 1)
      ensures !hasValue ==>
        if old(currentValue) == 0 && old(container).RunC?
        then containerIndex == old(containerIndex) && currentValue == old(currentValue)
        else containerIndex == -1
    {
      hide Whole, Elems, Good, Layout, Greatest, NoneUpTo, SearchedDown, Here;
      ghost var keys, cs := parent.Keys(), parent.Slots();
      ghost var x: int, low: int := currentValue, currentValue - highbits;
      Bitmaps.LayoutIs(keys, cs);
      assert keys[containerIndex] == parent.keys[containerIndex] && cs[containerIndex] == container;
      GoodHere(keys, cs, containerIndex, container, inContainerIndex, runIndex, low);
      SearchedAround(keys, cs, containerIndex, low);
      var moved, stuck := false, false;
      if container.RunC? {
        moved, stuck := PreviousRun();
      } else {
        moved := PreviousIndexed();
      }
      if stuck {
        LastValue(keys, cs);
        return;
      }
      if moved {
        GreatestInSlot(keys, cs, containerIndex, x - 1, low - 1, currentValue - highbits);
        return;
      }
      SearchedPrevious(keys, cs, containerIndex, low - 1);
      BaseBefore(keys, containerIndex, x - 1);
      containerIndex := containerIndex - 1;
      LoadLast(x - 1);
    }
  }

  /** What the validity of the iterator says about the container it is in. */
  lemma GoodHere(keys: seq<u16>, cs: seq<Container>, i: int, c: Container, inIndex: int, runIndex: int, v: int)
    requires Layout(keys, cs) && 0 <= i < |cs| && cs[i] == c && Here(c, inIndex, runIndex, v)
    ensures Good(c) && 0 <= v < 0x1_0000
    ensures c.BitsetC? ==> |c.words| == BITSET_WORDS
    ensures c.ArrayC? ==> Sorted(c.vals)
    ensures c.RunC? ==> Canonical(c.runs) && forall k :: 0 <= k < |c.runs| ==> c.runs[k].End() <= 0x1_0000
  {
  }

  /** The value that the iterator stands at is one of the bitmap. */
  lemma StandsAtMember(iter: Iterator)
    requires iter.Valid() && 0 <= iter.containerIndex < iter.parent.size
    ensures iter.currentValue in iter.parent.Values()
  {
    hide Whole, Elems, Good, Layout;
    var keys, cs, i := iter.parent.Keys(), iter.parent.Slots(), iter.containerIndex;
    assert keys[i] == iter.parent.keys[i] && cs[i] == iter.container;
    HereIsMember(iter.container, iter.inContainerIndex, iter.runIndex, iter.currentValue - iter.highbits);
    SlotMember(keys, cs, i, iter.currentValue - iter.highbits);
  }

  lemma HereIsMember(c: Container, inIndex: int, runIndex: int, v: int)
    requires Here(c, inIndex, runIndex, v)
    ensures v in Elems(c)
  {
    hide BitSet, Denote;
    if c.RunC? { DenoteMember(c.runs, runIndex, v); }
  }

  lemma LeastMember(s: set<int>, lo: int, x: int)
    requires Least(s, lo, x)
    ensures x in s
  {
  }

  lemma GreatestIn(s: set<int>, hi: int, x: int)
    requires Greatest(s, hi, x)
    ensures x in s
  {
  }

  /** No 32-bit value lies beyond the largest, or below 0. */
  lemma LastValue(keys: seq<u16>, cs: seq<Container>)
    requires |keys| == |cs|
    ensures NoneFrom(Whole(keys, cs), 0x1_0000_0000) && NoneUpTo(Whole(keys, cs), -1)
  {
  }

  lemma BaseAfter(keys: seq<u16>, i: nat, lo: int)
    requires Sorted(keys) && i < |keys| && lo <= BitmapQueries.Base(keys[i]) + 0x1_0000
    ensures i + 1 < |keys| ==> lo <= BitmapQueries.Base(keys[i + 1])
  {
  }

  lemma BaseBefore(keys: seq<u16>, i: nat, hi: int)
    requires Sorted(keys) && i < |keys| && BitmapQueries.Base(keys[i]) - 1 <= hi
    ensures i > 0 ==> BitmapQueries.Base(keys[i - 1]) + 0xFFFF <= hi
  {
  }

  /** The next value of the array or run list that the position is in. */
  lemma NextInArray(vals: seq<u16>, i: nat)
    requires Sorted(vals) && i < |vals|
    ensures i + 1 < |vals| ==> Least(Elements(vals), vals[i] as int + 1, vals[i + 1])
    ensures i + 1 == |vals| ==> NoneFrom(Elements(vals), vals[i] as int + 1)
    ensures i > 0 ==> Greatest(Elements(vals), vals[i] as int - 1, vals[i - 1])
    ensures i == 0 ==> NoneUpTo(Elements(vals), vals[i] as int - 1)
  {
  }

  lemma NextInRuns(runs: seq<Run>, i: nat, v: int)
    requires Canonical(runs) && i < |runs| && runs[i].Contains(v)
    ensures v + 1 < runs[i].End() ==> Least(Denote(runs), v + 1, v + 1)
    ensures v + 1 == runs[i].End() && i + 1 < |runs| ==> Least(Denote(runs), v + 1, runs[i + 1].value)
    ensures v + 1 == runs[i].End() && i + 1 == |runs| ==> NoneFrom(Denote(runs), v + 1)
    ensures runs[i].value < v ==> Greatest(Denote(runs), v - 1, v - 1)
    ensures runs[i].value == v && i > 0 ==> Greatest(Denote(runs), v - 1, runs[i - 1].End() - 1)
    ensures runs[i].value == v && i == 0 ==> NoneUpTo(Denote(runs), v - 1)
  {
    hide Denote, Canonical, Least, Greatest, NoneFrom, NoneUpTo;
    RunLeast(runs, i);
    if v + 1 < runs[i].End() { InsideRun(runs, i, v + 1); }
    if runs[i].value < v { InsideRun(runs, i, v - 1); }
    if i + 1 < |runs| { RunLeast(runs, i + 1); }
    if i > 0 { RunLeast(runs, i - 1); }
  }

  lemma SearchedIndex(keys: seq<u16>, cs: seq<Container>, i: int, lo: int)
    requires Searched(keys, cs, i, lo)
    ensures 0 <= i <= |keys| == |cs|
  {
  }

  lemma SearchedDownIndex(keys: seq<u16>, cs: seq<Container>, i: int, hi: int)
    requires SearchedDown(keys, cs, i, hi)
    ensures -1 <= i < |keys| == |cs|
  {
  }

  lemma WholeBounds(keys: seq<u16>, cs: seq<Container>)
    requires |keys| == |cs|
    ensures Whole(keys, cs) <= Range(0, 0x1_0000_0000)
  {
  }

  lemma LeastIsSmallest(s: set<int>, x: int, found: bool)
    requires s <= Range(0, 0x1_0000_0000)
    requires (found ==> Least(s, 0, x)) && (!found ==> NoneFrom(s, 0))
    ensures (found <==> s != {}) && (found ==> Smallest(s, x))
  {
  }

  lemma GreatestIsLargest(s: set<int>, x: int, found: bool)
    requires s <= Range(0, 0x1_0000_0000)
    requires (found ==> Greatest(s, 0xFFFF_FFFF, x)) && (!found ==> NoneUpTo(s, 0xFFFF_FFFF))
    ensures (found <==> s != {}) && (found ==> Largest(s, x))
  {
  }

  lemma LargestDecides(s: set<int>, x: int, lo: int)
    requires Largest(s, x)
    ensures NoneFrom(s, lo) <==> x < lo
  {
  }

  lemma NextBase(keys: seq<u16>, i: nat, val: u32)
    requires Sorted(keys) && i < |keys| && keys[i] == val / 0x1_0000
    ensures i + 1 < |keys| ==> val <= BitmapQueries.Base(keys[i + 1])
  {
  }

  lemma AboveKey(keys: seq<u16>, i: nat, val: u32)
    requires i < |keys| ==> val / 0x1_0000 < keys[i]
    ensures i < |keys| ==> val <= BitmapQueries.Base(keys[i])
  {
  }
}
