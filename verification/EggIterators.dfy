/** The public iterator, and the loops that callers write with it. */
module EggIterators {
  import opened IntSets
  import opened Ranks
  import opened ContainerCursors
  import opened Slots
  import opened RoaringArrays
  import opened Iterators
  import Bitmaps

  /** `egg_bitset_iter_init_first` */
  method InitFirst(iter: Iterator) returns (found: bool, value: u32)
    requires iter.parent.Valid()
    modifies iter
    ensures iter.Valid() && (found <==> iter.parent.Values() != {})
    ensures found == iter.hasValue && value == if found then iter.currentValue else 0
    ensures if found then Smallest(iter.parent.Values(), value) else value == 0
  {
    hide Whole, Layout, Smallest;
    iter.InitFirst();
    value := if iter.hasValue then iter.currentValue else 0;
    found := iter.hasValue;
  }

  /** `egg_bitset_iter_init_last` */
  method InitLast(iter: Iterator) returns (found: bool, value: u32)
    requires iter.parent.Valid()
    modifies iter
    ensures iter.Valid() && (found <==> iter.parent.Values() != {})
    ensures found == iter.hasValue && value == if found then iter.currentValue else 0
    ensures if found then Largest(iter.parent.Values(), value) else value == 0
  {
    hide Whole, Layout, Largest;
    iter.InitLast();
    value := if iter.hasValue then iter.currentValue else 0;
    found := iter.hasValue;
  }

  /** `egg_bitset_iter_init_at` */
  method InitAt(iter: Iterator, target: u32) returns (found: bool, value: u32)
    requires iter.parent.Valid()
    modifies iter
    ensures iter.Valid() && found == iter.hasValue && (found ==> value == iter.currentValue)
    ensures !found ==> value == 0
    ensures if found then Least(iter.parent.Values(), target, value)
      else NoneFrom(iter.parent.Values(), target) && value == 0
  {
    hide Whole, Layout, Least, NoneFrom;
    iter.InitFirst();
    iter.MoveEqualOrLarger(target);
    if !iter.hasValue {
      return false, 0;
    }
    return true, iter.currentValue;
  }

  /**
   `egg_bitset_iter_next`: from a value, from before the first one, or from behind the last. A failing step leaves the
   iterator behind the last container, but at the largest 32-bit value in a run it stays where it is.
   */
  method Next(iter: Iterator) returns (found: bool, value: u32)
    requires iter.Valid()
    modifies iter
    ensures iter.Valid() && found == iter.hasValue && (found ==> value == iter.currentValue)
    ensures !found ==> value == 0
    ensures old(iter.containerIndex) >= iter.parent.size ==> !found && iter.containerIndex == old(iter.containerIndex)
    ensures old(iter.containerIndex) < 0 ==>
      if found then Least(iter.parent.Values(), 0, value)
      else NoneFrom(iter.parent.Values(), 0) && iter.containerIndex == iter.parent.size
    ensures 0 <= old(iter.containerIndex) < iter.parent.size ==>
      if found then Least(iter.parent.Values(), old(iter.currentValue) + 1, value)
      else NoneFrom(iter.parent.Values(), old(iter.currentValue) + 1)
    ensures 0 <= old(iter.containerIndex) < iter.parent.size && !found ==>
      if old(iter.currentValue == 0xFFFF_FFFF && iter.container.RunC?)
      then iter.containerIndex == old(iter.containerIndex) && iter.currentValue == 0xFFFF_FFFF
      else iter.containerIndex == iter.parent.size
  {
    hide Whole, Layout, Least, NoneFrom;
    iter.Advance();
    if !iter.hasValue {
      return false, 0;
    }
    return true, iter.currentValue;
  }

  /**
   `egg_bitset_iter_previous`. A failing step leaves the iterator before the first container, but at 0 in a run it stays
   where it is.
   */
  method Previous(iter: Iterator) returns (found: bool, value: u32)
    requires iter.Valid()
    modifies iter
    ensures iter.Valid() && found == iter.hasValue && (found ==> value == iter.currentValue)
    ensures !found ==> value == 0
    ensures old(iter.containerIndex) < 0 ==> !found && iter.containerIndex == old(iter.containerIndex)
    ensures 0 <= old(iter.containerIndex) && old(iter.containerIndex) >= iter.parent.size ==>
      if found then Greatest(iter.parent.Values(), 0xFFFF_FFFF, value)
      else NoneUpTo(iter.parent.Values(), 0xFFFF_FFFF) && iter.containerIndex == -1
    ensures 0 <= old(iter.containerIndex) < iter.parent.size ==>
      if found then Greatest(iter.parent.Values(), old(iter.currentValue) - 1, value)
      else NoneUpTo(iter.parent.Values(), old(iter.currentValue) - 1)
    ensures 0 <= old(iter.containerIndex) < iter.parent.size && !found ==>
      if old(iter.currentValue == 0 && iter.container.RunC?)
      then iter.containerIndex == old(iter.containerIndex) && iter.currentValue == 0
      else iter.containerIndex == -1
  {
    hide Whole, Layout, Greatest, NoneUpTo;
    iter.Previous();
    if !iter.hasValue {
      return false, 0;
    }
    return true, iter.currentValue;
  }

  // ---------- one step there and one step back ----------

  /**
   A step back after a step forward, whether that succeeds or not, returns to the value exactly unless it is the largest
   32-bit value in a run.
   */
  method NextThenPrevious(iter: Iterator) returns (found: bool, value: u32)
    requires iter.Valid() && 0 <= iter.containerIndex < iter.parent.size
    modifies iter
    ensures found && value == old(iter.currentValue) <==> !old(iter.currentValue == 0xFFFF_FFFF && iter.container.RunC?)
    ensures old(iter.currentValue == 0xFFFF_FFFF && iter.container.RunC?) ==>
      if found then Greatest(iter.parent.Values(), 0xFFFF_FFFE, value) else NoneUpTo(iter.parent.Values(), 0xFFFF_FFFE)
  {
    hide Whole, Layout, Least, NoneFrom, Greatest, NoneUpTo;
    ghost var s, x := iter.parent.Values(), iter.currentValue;
    WholeBounds(iter.parent.Keys(), iter.parent.Slots());
    StandsAtMember(iter);
    var more, next := Next(iter);
    found, value := Previous(iter);
    BackDown(s, x, more, next, found, value);
  }

  lemma BackDown(s: set<int>, x: u32, more: bool, next: u32, found: bool, value: u32)
    requires x in s && s <= Range(0, 0x1_0000_0000)
    requires if more then Least(s, x as int + 1, next) else NoneFrom(s, x as int + 1)
    ensures more ==> x < next && next <= 0xFFFF_FFFF
    ensures (if found then Greatest(s, if more then next - 1 else 0xFFFF_FFFF, value)
      else NoneUpTo(s, if more then next - 1 else 0xFFFF_FFFF)) ==> found && value == x
    ensures found && Greatest(s, x as int - 1, value) ==> value < x
  {
  }

  /** Likewise the other way round, but for 0 in a run. */
  method PreviousThenNext(iter: Iterator) returns (found: bool, value: u32)
    requires iter.Valid() && 0 <= iter.containerIndex < iter.parent.size
    modifies iter
    ensures found && value == old(iter.currentValue) <==> !old(iter.currentValue == 0 && iter.container.RunC?)
    ensures old(iter.currentValue == 0 && iter.container.RunC?) ==>
      if found then Least(iter.parent.Values(), 1, value) else NoneFrom(iter.parent.Values(), 1)
  {
    hide Whole, Layout, Least, NoneFrom, Greatest, NoneUpTo;
    ghost var s, x := iter.parent.Values(), iter.currentValue;
    WholeBounds(iter.parent.Keys(), iter.parent.Slots());
    StandsAtMember(iter);
    var more, next := Previous(iter);
    found, value := Next(iter);
    BackUp(s, x, more, next, found, value);
  }

  lemma BackUp(s: set<int>, x: u32, more: bool, next: u32, found: bool, value: u32)
    requires x in s && s <= Range(0, 0x1_0000_0000)
    requires if more then Greatest(s, x as int - 1, next) else NoneUpTo(s, x as int - 1)
    ensures more ==> next < x
    ensures (if found then Least(s, if more then next as int + 1 else 0, value)
      else NoneFrom(s, if more then next as int + 1 else 0)) ==> found && value == x
    ensures found && Least(s, x as int + 1, value) ==> x < value
  {
  }

  /** The two largest values in a run: from the last value forward, and back, is not the last value. */
  method TopIsLeft() returns (last: u32, more: bool, found: bool, value: u32)
    ensures last == 0xFFFF_FFFF && !more && found && value == 0xFFFF_FFFE
  {
    hide Whole, Layout, Least, NoneFrom, Greatest, NoneUpTo, Largest;
    var x := new RoaringArray();
    Bitmaps.AddRangeClosed(x, 0xFFFF_FFFE, 0xFFFF_FFFF);
    TwoValues(x.Values(), 0xFFFF_FFFE, 0xFFFF_FFFF);
    var iter := new Iterator(x);
    var any;
    any, last := InitLast(iter);
    InOnlySlot(iter);
    more, value := Next(iter);
    TopHasNoNext(x.Values(), more, value);
    found, value := Previous(iter);
    BelowTop(x.Values(), found, value);
  }

  lemma TwoValues(s: set<int>, x: int, y: int)
    requires y == x + 1 && s == {} + Range(x, y + 1)
    ensures s == {x, y} && s != {}
    ensures forall z :: (Largest(s, z) <==> z == y) && (Smallest(s, z) <==> z == x)
  {
    assert x in s && y in s;
  }

  /** A bitmap of one container, and where the iterator must be. */
  lemma InOnlySlot(iter: Iterator)
    requires iter.Valid() && iter.hasValue && |iter.parent.Slots()| == 1
    ensures 0 <= iter.containerIndex < iter.parent.size && iter.container == iter.parent.Slots()[0]
  {
    hide Layout;
  }

  lemma TopHasNoNext(s: set<int>, more: bool, next: u32)
    requires s == {0xFFFF_FFFE, 0xFFFF_FFFF}
    requires if more then Least(s, 0x1_0000_0000, next) else NoneFrom(s, 0x1_0000_0000)
    ensures !more
  {
  }

  lemma BelowTop(s: set<int>, found: bool, value: u32)
    requires s == {0xFFFF_FFFE, 0xFFFF_FFFF}
    requires if found then Greatest(s, 0xFFFF_FFFE, value) else NoneUpTo(s, 0xFFFF_FFFE)
    ensures found && value == 0xFFFF_FFFE
  {
    assert 0xFFFF_FFFE in s;
  }

  /** The two smallest values in a run: from the first value back, and forward, is not the first value. */
  method BottomIsLeft() returns (first: u32, more: bool, found: bool, value: u32)
    ensures first == 0 && !more && found && value == 1
  {
    hide Whole, Layout, Least, NoneFrom, Greatest, NoneUpTo, Smallest;
    var x := new RoaringArray();
    Bitmaps.AddRangeClosed(x, 0, 1);
    TwoValues(x.Values(), 0, 1);
    var iter := new Iterator(x);
    var any;
    any, first := InitFirst(iter);
    InOnlySlot(iter);
    more, value := Previous(iter);
    BottomHasNoPrevious(x.Values(), more, value);
    found, value := Next(iter);
    AboveBottom(x.Values(), found, value);
  }

  lemma BottomHasNoPrevious(s: set<int>, more: bool, next: u32)
    requires s == {0, 1} && if more then Greatest(s, -1, next) else NoneUpTo(s, -1)
    ensures !more
  {
  }

  lemma AboveBottom(s: set<int>, found: bool, value: u32)
    requires s == {0, 1} && if found then Least(s, 1, value) else NoneFrom(s, 1)
    ensures found && value == 1
  {
    assert 1 in s;
  }

  // ---------- loops to the end ----------

  /** The values visited so far, and the one that comes next. */
  ghost predicate Climbing(s: set<int>, lo: int, visits: seq<int>, found: bool, value: int) {
    && visits != [] && Least(s, lo, visits[0])
    && (forall i :: 0 <= i < |visits| - 1 ==> Least(s, visits[i] + 1, visits[i + 1]))
    && if found then Least(s, visits[|visits| - 1] + 1, value) else NoneFrom(s, visits[|visits| - 1] + 1)
  }

  lemma ClimbOn(s: set<int>, lo: int, visits: seq<int>, value: int, found': bool, value': int)
    requires Climbing(s, lo, visits, true, value)
    requires if found' then Least(s, value + 1, value') else NoneFrom(s, value + 1)
    ensures Climbing(s, lo, visits + [value], found', value')
  {
    hide Least, NoneFrom;
  }

  /** The loop that callers write around `egg_bitset_iter_next`, from the first value on. */
  method VisitAll(iter: Iterator) returns (visits: seq<int>, value: u32)
    requires iter.parent.Valid()
    modifies iter
    ensures forall i, j :: 0 <= i < j < |visits| ==> visits[i] < visits[j]
    ensures forall x :: x in visits <==> x in iter.parent.Values()
    ensures !iter.hasValue && value == 0
  {
    hide Whole, Layout, Least, NoneFrom, Smallest;
    ghost var s := iter.parent.Values();
    WholeBounds(iter.parent.Keys(), iter.parent.Slots());
    var found;
    found, value := InitFirst(iter);
    FromTheFirst(s, found, value);
    visits, value := VisitRest(iter, 0, found, value);
    AscentVisitsAll(s, 0, visits);
  }

  /** The same from a target on, with `egg_bitset_iter_init_at`. */
  method VisitFrom(iter: Iterator, target: u32) returns (visits: seq<int>, value: u32)
    requires iter.parent.Valid()
    modifies iter
    ensures forall i, j :: 0 <= i < j < |visits| ==> visits[i] < visits[j]
    ensures forall x :: x in visits <==> x in iter.parent.Values() && target <= x
    ensures !iter.hasValue && value == 0
  {
    hide Whole, Layout, Least, NoneFrom;
    var found;
    found, value := InitAt(iter, target);
    visits, value := VisitRest(iter, target, found, value);
    AscentVisitsAll(iter.parent.Values(), target, visits);
  }

  lemma FromTheFirst(s: set<int>, found: bool, value: int)
    requires s <= Range(0, 0x1_0000_0000) && (found <==> s != {}) && (found ==> Smallest(s, value))
    ensures if found then Least(s, 0, value) else NoneFrom(s, 0)
    ensures forall x :: x in s ==> 0 <= x
  {
  }

  /** Visits, and asks for the next value until there is none. */
  method VisitRest(iter: Iterator, ghost lo: int, found: bool, value: u32) returns (visits: seq<int>, last: u32)
    requires iter.Valid() && found == iter.hasValue && value == if found then iter.currentValue else 0
    requires if found then Least(iter.parent.Values(), lo, value) else NoneFrom(iter.parent.Values(), lo)
    modifies iter
    ensures Ascent(iter.parent.Values(), lo, visits) && !iter.hasValue && last == 0
  {
    hide Whole, Layout, Least, NoneFrom, Climbing;
    ghost var s := iter.parent.Values();
    visits, last := [], value;
    if found {
      visits := [value as int];
      var more, next := Next(iter);
      ClimbStart(s, lo, value, more, next);
      while more
        invariant iter.Valid() && iter.parent.Values() == s && more == iter.hasValue
        invariant next == if more then iter.currentValue else 0
        invariant Climbing(s, lo, visits, more, next)
        decreases if more then 0x1_0000_0000 - (next as int) else 0
      {
        ghost var seen := next;
        visits := visits + [next];
        more, next := Next(iter);
        ClimbOn(s, lo, visits[..|visits| - 1], seen, more, next);
        assert visits == visits[..|visits| - 1] + [seen];
        if more { LeastIsLarger(s, seen + 1, next); }
      }
      last := next;
    }
    ClimbEnd(s, lo, visits, found);
  }

  lemma ClimbStart(s: set<int>, lo: int, value: int, found': bool, value': int)
    requires Least(s, lo, value) && if found' then Least(s, value + 1, value') else NoneFrom(s, value + 1)
    ensures Climbing(s, lo, [value], found', value')
  {
    hide Least, NoneFrom;
  }

  lemma LeastIsLarger(s: set<int>, lo: int, x: int)
    requires Least(s, lo, x)
    ensures lo <= x
  {
  }

  lemma ClimbEnd(s: set<int>, lo: int, visits: seq<int>, found: bool)
    requires if found then exists v: int :: Climbing(s, lo, visits, false, v) else visits == [] && NoneFrom(s, lo)
    ensures Ascent(s, lo, visits)
  {
    hide Least, NoneFrom;
  }

  // ---------- and backwards ----------

  /** The values visited so far on the way down, and the one that comes next. */
  ghost predicate Descending(s: set<int>, hi: int, visits: seq<int>, found: bool, value: int) {
    && visits != [] && Greatest(s, hi, visits[0])
    && (forall i :: 0 <= i < |visits| - 1 ==> Greatest(s, visits[i] - 1, visits[i + 1]))
    && if found then Greatest(s, visits[|visits| - 1] - 1, value) else NoneUpTo(s, visits[|visits| - 1] - 1)
  }

  lemma DescendOn(s: set<int>, hi: int, visits: seq<int>, value: int, found': bool, value': int)
    requires Descending(s, hi, visits, true, value)
    requires if found' then Greatest(s, value - 1, value') else NoneUpTo(s, value - 1)
    ensures Descending(s, hi, visits + [value], found', value')
  {
    hide Greatest, NoneUpTo;
  }

  /** The loop around `egg_bitset_iter_previous`, from the last value on. */
  method VisitAllBack(iter: Iterator) returns (visits: seq<int>, value: u32)
    requires iter.parent.Valid()
    modifies iter
    ensures forall i, j :: 0 <= i < j < |visits| ==> visits[i] > visits[j]
    ensures forall x :: x in visits <==> x in iter.parent.Values()
    ensures !iter.hasValue && value == 0
  {
    hide Whole, Layout, Greatest, NoneUpTo, Largest, Descending;
    ghost var s := iter.parent.Values();
    WholeBounds(iter.parent.Keys(), iter.parent.Slots());
    var found;
    found, value := InitLast(iter);
    FromTheLast(s, found, value);
    visits := [];
    if found {
      visits := [value as int];
      var more, next := Previous(iter);
      DescendStart(s, value, more, next);
      while more
        invariant iter.Valid() && iter.parent.Values() == s && more == iter.hasValue
        invariant next == if more then iter.currentValue else 0
        invariant Descending(s, 0xFFFF_FFFF, visits, more, next)
        decreases if more then next as int + 1 else 0
      {
        ghost var seen := next;
        visits := visits + [next];
        more, next := Previous(iter);
        DescendOn(s, 0xFFFF_FFFF, visits[..|visits| - 1], seen, more, next);
        assert visits == visits[..|visits| - 1] + [seen];
        if more { GreatestIsSmaller(s, seen - 1, next); }
      }
      value := next;
    }
    DescendEnd(s, visits, found);
    DescentVisitsAll(s, 0xFFFF_FFFF, visits);
  }

  lemma FromTheLast(s: set<int>, found: bool, value: int)
    requires s <= Range(0, 0x1_0000_0000) && (found <==> s != {}) && (found ==> Largest(s, value))
    ensures if found then Greatest(s, 0xFFFF_FFFF, value) else NoneUpTo(s, 0xFFFF_FFFF)
    ensures forall x :: x in s ==> x <= 0xFFFF_FFFF
  {
  }

  lemma DescendStart(s: set<int>, value: int, found': bool, value': int)
    requires Greatest(s, 0xFFFF_FFFF, value)
    requires if found' then Greatest(s, value - 1, value') else NoneUpTo(s, value - 1)
    ensures Descending(s, 0xFFFF_FFFF, [value], found', value')
  {
    hide Greatest, NoneUpTo;
  }

  lemma GreatestIsSmaller(s: set<int>, hi: int, x: int)
    requires Greatest(s, hi, x)
    ensures x <= hi
  {
  }

  lemma DescendEnd(s: set<int>, visits: seq<int>, found: bool)
    requires if found then exists v: int :: Descending(s, 0xFFFF_FFFF, visits, false, v)
      else visits == [] && NoneUpTo(s, 0xFFFF_FFFF)
    ensures Descent(s, 0xFFFF_FFFF, visits)
  {
    hide Greatest, NoneUpTo;
  }
}
