/** The public bitset: what its operations mean for the set of its values. */
module EggBitsets {
  import opened IntSets
  import opened Ranks
  import opened ContainerCursors
  import opened BitsetOps
  import opened Slots
  import opened RoaringArrays
  import opened Iterators
  import opened Splices
  import opened BitmapEquality
  import BitmapOps
  import BitmapQueries
  import Bitmaps
  import Overruns

  /** A bitmap keeps its buffers or gets new ones. */
  twostate predicate Kept(r: RoaringArray)
    reads r
  {
    && (r.keys == old(r.keys) || fresh(r.keys))
    && (r.containers == old(r.containers) || fresh(r.containers))
  }

  /** A new iterator, at the first value from `target` on. */
  method IteratorAt(r: RoaringArray, target: u32) returns (iter: Iterator)
    requires r.Valid()
    ensures fresh(iter) && iter.Valid() && iter.parent == r
    ensures if iter.hasValue then Least(r.Values(), target, iter.currentValue) else NoneFrom(r.Values(), target)
  {
    hide Layout, Whole;
    iter := new Iterator(r);
    iter.MoveEqualOrLarger(target);
  }

  class EggBitset {
    const roaring: RoaringArray

    ghost predicate Valid()
      reads roaring, roaring.keys, roaring.containers
    {
      roaring.Valid()
    }

    ghost function Values(): set<int>
      requires roaring.Fits()
      reads roaring, roaring.keys, roaring.containers
    {
      roaring.Values()
    }

    /** `egg_bitset_new_empty` */
    constructor ()
      ensures Valid() && Values() == {} && fresh(roaring) && fresh(roaring.keys) && fresh(roaring.containers)
    {
      roaring := new RoaringArray();
    }

    /** `egg_bitset_copy` */
    method Copy() returns (copy: EggBitset)
      requires Valid()
      ensures fresh(copy) && fresh(copy.roaring) && fresh(copy.roaring.keys) && fresh(copy.roaring.containers)
      ensures copy.Valid() && copy.Values() == Values()
    {
      hide Layout, Whole;
      copy := new EggBitset();
      if roaring.size != 0 {
        BitmapOps.Overwrite(copy.roaring, roaring);
      } else {
        BitmapOps.NoSlots(roaring.Keys(), roaring.Slots());
      }
    }

    /** `egg_bitset_equals` */
    method Equals(other: EggBitset) returns (b: bool)
      requires Valid() && other.Valid()
      ensures b <==> Values() == other.Values()
    {
      if this == other {
        return true;
      }
      b := BitmapEquality.Equals(roaring, other.roaring);
    }

    /** `egg_bitset_get_nth`: 0 when there is no such value, or the 32-bit rank wraps around. */
    method GetNth(nth: u32) returns (value: u32)
      requires Valid()
      ensures nth < |Values()| && !BitmapQueries.RankWraps(roaring.Keys(), roaring.Slots(), nth) ==>
        Selects(Values(), nth, value)
      ensures nth >= |Values()| || BitmapQueries.RankWraps(roaring.Keys(), roaring.Slots(), nth) ==> value == 0
      ensures nth < |Values()| && (nth < 0xFFFF_0000 || |Values()| < 0x1_0000_0000) ==>
        value as int in Values() && |set x | x in Values() && x < value| == nth
    {
      var valid, element := BitmapQueries.Select(roaring, nth);
      value := if valid then element else 0;
    }

    /** `egg_bitset_get_size_in_range`: 0 when the guard fails, as there is nothing between its ends. */
    method GetSizeInRange(first: u32, last: u32) returns (size: int)
      requires Valid()
      ensures size == |Values() * Range(first, last + 1)|
    {
      hide Layout, Whole;
      if last < first {
        BitmapQueries.EmptyPart(Values(), first, last + 1);
        return 0;
      }
      size := BitmapQueries.RangeCardinality(roaring, first, last + 1);
    }

    /** `egg_bitset_remove_all` */
    method RemoveAll()
      requires Valid()
      modifies roaring
      ensures Valid() && Values() == {} && Kept(roaring)
    {
      BitmapOps.Clear(roaring);
    }

    /** `egg_bitset_add` */
    method Add(value: u32) returns (added: bool)
      requires Valid()
      modifies roaring, roaring.keys, roaring.containers
      ensures Valid() && Kept(roaring)
      ensures Values() == old(Values()) + {value as int} && (added <==> value !in old(Values()))
    {
      added := Bitmaps.AddChecked(roaring, value);
    }

    /** `egg_bitset_remove` */
    method Remove(value: u32) returns (removed: bool)
      requires Valid()
      modifies roaring, roaring.keys, roaring.containers
      ensures Valid() && Kept(roaring)
      ensures Values() == old(Values()) - {value as int} && (removed <==> value in old(Values()))
    {
      removed := Bitmaps.RemoveChecked(roaring, value);
    }

    /** `egg_bitset_add_range_closed`: nothing happens when the guard fails, as the range is empty. */
    method AddRangeClosed(first: u32, last: u32)
      requires Valid()
      modifies roaring, roaring.keys, roaring.containers
      ensures Valid() && Kept(roaring) && Values() == old(Values()) + Range(first, last + 1)
    {
      hide Layout, Whole;
      if first > last {
        Bitmaps.NoRange(Values(), first, last);
        return;
      }
      Bitmaps.AddRangeClosed(roaring, first, last);
    }

    /** `egg_bitset_remove_range_closed` */
    method RemoveRangeClosed(first: u32, last: u32)
      requires Valid()
      modifies roaring, roaring.keys, roaring.containers
      ensures Valid() && Kept(roaring) && Values() == old(Values()) - Range(first, last + 1)
    {
      hide Layout, Whole;
      if first > last {
        Bitmaps.NoRange(Values(), first, last);
        return;
      }
      Bitmaps.RemoveRangeClosed(roaring, first, last);
    }

    /**
     `egg_bitset_add_range`: the sums are 32-bit sums, and the range may end at the largest value. A range that would
     end behind it fails the guard.
     */
    method AddRange(start: u32, nItems: u32)
      requires Valid()
      modifies roaring, roaring.keys, roaring.containers
      ensures Valid() && Kept(roaring) && Values() == old(Values()) + Stretch(start, nItems)
      ensures forall x: int :: x in Values() <==> x in old(Values()) || start <= x < start + nItems <= 0x1_0000_0000
    {
      hide Layout, Whole;
      StretchMeans(start, nItems);
      if nItems == 0 {
        NoStretch(Values(), start, nItems);
        return;
      }
      var end := (start + nItems) % 0x1_0000_0000;
      if !(end == 0 || end > start) {
        NoStretch(Values(), start, nItems);
        return;
      }
      var last := (end - 1) % 0x1_0000_0000;
      Bitmaps.AddRangeClosed(roaring, start, last);
    }

    /** `egg_bitset_remove_range` */
    method RemoveRange(start: u32, nItems: u32)
      requires Valid()
      modifies roaring, roaring.keys, roaring.containers
      ensures Valid() && Kept(roaring) && Values() == old(Values()) - Stretch(start, nItems)
      ensures forall x: int :: x in Values() <==> x in old(Values()) && !(start <= x < start + nItems <= 0x1_0000_0000)
    {
      hide Layout, Whole;
      StretchMeans(start, nItems);
      if nItems == 0 {
        NoStretch(Values(), start, nItems);
        return;
      }
      var end := (start + nItems) % 0x1_0000_0000;
      if !(end == 0 || end > start) {
        NoStretch(Values(), start, nItems);
        return;
      }
      var last := (end - 1) % 0x1_0000_0000;
      Bitmaps.RemoveRangeClosed(roaring, start, last);
    }

    /** `egg_bitset_add_rectangle`, all in 32 bits; a stride of 0 would be a division by zero. */
    method AddRectangle(start: u32, width: u32, height: u32, stride: u32)
      requires Valid() && stride > 0
      modifies roaring, roaring.keys, roaring.containers
      ensures Valid() && Kept(roaring)
      ensures Values() == old(Values()) +
        if (start % stride + width) % 0x1_0000_0000 <= stride && 0xFFFF_FFFF - start >= height * stride % 0x1_0000_0000
        then WrappedRows(start, width, height, stride) else {}
      ensures height * stride < 0x1_0000_0000 <= start + height * stride ==> Values() == old(Values())
    {
      hide Layout, Whole, WrappedRows;
      ghost var s := Values();
      NoWrappedRows(s, start, width, height, stride);
      if !((start % stride + width) % 0x1_0000_0000 <= stride) {
        return;
      }
      if !(0xFFFF_FFFF - start >= height * stride % 0x1_0000_0000) {
        return;
      }
      if width == 0 || height == 0 {
        return;
      }
      var i: u32 := 0;
      while i < height
        invariant i <= height && Valid() && Kept(roaring) && Values() == s + WrappedRows(start, width, i, stride)
      {
        NextWrappedRow(s, start, width, i, stride);
        AddRange((i * stride + start) % 0x1_0000_0000, width);
        i := i + 1;
      }
    }

    /** `egg_bitset_remove_rectangle`, whose guard lets a row run over the edge of the grid. */
    method RemoveRectangle(start: u32, width: u32, height: u32, stride: u32)
      requires Valid()
      modifies roaring, roaring.keys, roaring.containers
      ensures Valid() && Kept(roaring)
      ensures Values() == old(Values()) -
        if width <= stride && 0xFFFF_FFFF - start >= height * stride % 0x1_0000_0000
        then WrappedRows(start, width, height, stride) else {}
      ensures height * stride < 0x1_0000_0000 <= start + height * stride ==> Values() == old(Values())
    {
      hide Layout, Whole, WrappedRows;
      ghost var s := Values();
      NoWrappedRows(s, start, width, height, stride);
      if !(width <= stride) {
        return;
      }
      if !(0xFFFF_FFFF - start >= height * stride % 0x1_0000_0000) {
        return;
      }
      if width == 0 || height == 0 {
        return;
      }
      var i: u32 := 0;
      while i < height
        invariant i <= height && Valid() && Kept(roaring) && Values() == s - WrappedRows(start, width, i, stride)
      {
        NextWrappedRow(s, start, width, i, stride);
        RemoveRange((i * stride + start) % 0x1_0000_0000, width);
        i := i + 1;
      }
    }

    /** Two bitsets that are not the same object share no buffer. */
    ghost predicate MayMeet(other: EggBitset)
      reads roaring, other.roaring
    {
      this != other ==> BitmapOps.Distinct(roaring, other.roaring)
    }

    /** An intersection with another bitset stays within its buffers; nothing else can leave them. */
    ghost predicate Room(op: Op, other: EggBitset)
      requires roaring.Fits() && other.roaring.Fits()
      reads roaring, roaring.keys, roaring.containers
      reads other.roaring, other.roaring.keys, other.roaring.containers
    {
      op == AndOp && this != other ==>
        BitmapOps.AllFit(roaring.Keys(), roaring.Slots(), other.roaring.Keys(), other.roaring.Slots())
    }

    /**
     `egg_bitset_union`, `egg_bitset_intersect`, `egg_bitset_subtract` and `egg_bitset_difference`: says whether every
     store stayed within its buffer.
     */
    method Combine(op: Op, other: EggBitset) returns (room: bool)
      requires Valid() && other.Valid() && MayMeet(other)
      modifies roaring, roaring.keys, roaring.containers
      ensures room <==> old(Room(op, other))
      ensures Kept(roaring) && roaring.Fits()
      ensures room ==> Valid() && Values() == SetOp(op, old(Values()), old(other.Values()))
      ensures room && op == OrOp ==> Values() == old(Values()) + old(other.Values())
      ensures room && op == AndOp ==> Values() == old(Values()) * old(other.Values())
      ensures room && op == AndNotOp ==> Values() == old(Values()) - old(other.Values())
      ensures room && op == XorOp ==>
        Values() == (old(Values()) - old(other.Values())) + (old(other.Values()) - old(Values()))
      ensures !room ==> op == AndOp && this != other
      ensures !room ==> exists k: u16 ::
        var p, q := UnderKey(old(Values()), k), UnderKey(old(other.Values()), k);
        || (2048 <= |p| < |q| <= 4096 && p <= q && exists v :: v in q && forall x :: x in p ==> x < v)
        || (2048 <= |q| < |p| <= 4096 && q <= p && exists v :: v in p && forall x :: x in q ==> x < v)
      ensures this != other ==> other.Valid() && other.Values() == old(other.Values())
      ensures this != other ==> BitmapOps.Distinct(roaring, other.roaring)
    {
      hide Layout, Whole, BitmapOps.AllFit, Overruns.MayOverrun, UnderKey;
      room := true;
      Overruns.OverrunNeedsHazard(roaring.Keys(), roaring.Slots(), other.roaring.Keys(), other.roaring.Slots());
      Overruns.MayOverrunMeans(Values(), other.Values());
      if this == other {
        WithItself(op, Values());
        if op == XorOp || op == AndNotOp {
          BitmapOps.Clear(roaring);
        }
        return;
      }
      match op {
        case OrOp => BitmapOps.OrXorInplace(OrOp, roaring, other.roaring);
        case XorOp => BitmapOps.OrXorInplace(XorOp, roaring, other.roaring);
        case AndOp => room := BitmapOps.AndInplace(roaring, other.roaring);
        case AndNotOp => BitmapOps.AndNotInplace(roaring, other.roaring);
      }
    }

    /** The body of the shift loops: adds the moved value and goes on to the next one. */
    method MoveOne(original: EggBitset, iter: Iterator, target: u32, ghost d: int)
      requires Valid() && original.Valid() && iter.Valid() && iter.parent == original.roaring
      requires BitmapOps.Distinct(roaring, original.roaring)
      requires iter.hasValue && iter.currentValue in original.Values() && target == iter.currentValue + d
      requires Values() == Moved(Passed(original.Values(), iter.hasValue, iter.currentValue), d)
      modifies roaring, roaring.keys, roaring.containers, iter
      ensures Valid() && Kept(roaring) && original.Valid() && original.Values() == old(original.Values())
      ensures BitmapOps.Distinct(roaring, original.roaring) && iter.Valid()
      ensures iter.hasValue ==> iter.currentValue in original.Values() && old(iter.currentValue) < iter.currentValue
      ensures Values() == Moved(Passed(original.Values(), iter.hasValue, iter.currentValue), d)
    {
      hide Layout, Whole, Moved;
      ghost var value := iter.currentValue;
      var _ := Add(target);
      iter.Advance();
      PassOne(original.Values(), d, value, iter.hasValue, iter.currentValue);
    }

    /** `egg_bitset_shift_left`: smaller values are discarded. */
    method ShiftLeft(amount: u32)
      requires Valid()
      modifies roaring, roaring.keys, roaring.containers
      ensures Valid() && Kept(roaring) && Values() == Moved(old(Values()), -(amount as int))
      ensures forall y: int {:trigger y in Values()} :: y in Values() <==> 0 <= y && y + amount in old(Values())
    {
      hide Layout, Whole, Moved;
      WholeBounds(roaring.Keys(), roaring.Slots());
      MovedLeft(Values(), amount, -(amount as int));
      if amount == 0 {
        MovedNowhere(Values());
        return;
      }
      RefillLeft(amount);
    }

    /** From a copy, starting at the first value that stays. */
    method RefillLeft(amount: u32)
      requires Valid()
      modifies roaring, roaring.keys, roaring.containers
      ensures Valid() && Kept(roaring) && Values() == Moved(old(Values()), -(amount as int))
    {
      hide Layout, Whole, Moved, Least, NoneFrom, Passed;
      ghost var s := Values();
      var original := Copy();
      RemoveAll();
      var iter := IteratorAt(original.roaring, amount);
      NothingMoved(s, -(amount as int), amount, iter.hasValue, iter.currentValue);
      LeftLoop(original, iter, amount);
    }

    method LeftLoop(original: EggBitset, iter: Iterator, amount: u32)
      requires Valid() && original.Valid() && iter.Valid() && iter.parent == original.roaring
      requires BitmapOps.Distinct(roaring, original.roaring)
      requires iter.hasValue ==> iter.currentValue in original.Values() && amount <= iter.currentValue
      requires Values() == Moved(Passed(original.Values(), iter.hasValue, iter.currentValue), -(amount as int))
      modifies roaring, roaring.keys, roaring.containers, iter
      ensures Valid() && Kept(roaring) && Values() == Moved(old(original.Values()), -(amount as int))
    {
      hide Layout, Whole, Moved;
      ghost var s := original.Values();
      while iter.hasValue
        invariant Valid() && Kept(roaring) && original.Valid() && original.Values() == s && iter.Valid()
        invariant BitmapOps.Distinct(roaring, original.roaring)
        invariant iter.hasValue ==> iter.currentValue in s && amount <= iter.currentValue
        invariant Values() == Moved(Passed(s, iter.hasValue, iter.currentValue), -(amount as int))
        decreases if iter.hasValue then 0x1_0000_0000 - iter.currentValue else 0
      {
        MoveOne(original, iter, iter.currentValue - amount, -(amount as int));
      }
    }

    /** `egg_bitset_shift_right`: values that end up too large are discarded. */
    method ShiftRight(amount: u32)
      requires Valid()
      modifies roaring, roaring.keys, roaring.containers
      ensures Valid() && Kept(roaring) && Values() == Moved(old(Values()), amount)
      ensures forall y: int {:trigger y in Values()} ::
        y in Values() <==> y < 0x1_0000_0000 && y - amount in old(Values())
    {
      hide Layout, Whole, Moved;
      ghost var s := Values();
      WholeBounds(roaring.Keys(), roaring.Slots());
      MovedRight(s, amount);
      if amount == 0 {
        MovedNowhere(s);
        return;
      }
      var original := Copy();
      RemoveAll();
      var iter := new Iterator(original.roaring);
      iter.InitFirst();
      NothingBefore(s, amount, iter.hasValue, iter.currentValue);
      RightLoop(original, iter, amount);
    }

    method RightLoop(original: EggBitset, iter: Iterator, amount: u32)
      requires Valid() && original.Valid() && iter.Valid() && iter.parent == original.roaring
      requires BitmapOps.Distinct(roaring, original.roaring)
      requires iter.hasValue ==> iter.currentValue in original.Values()
      requires Values() == Moved(Passed(original.Values(), iter.hasValue, iter.currentValue), amount)
      modifies roaring, roaring.keys, roaring.containers, iter
      ensures Valid() && Kept(roaring) && Values() == Moved(old(original.Values()), amount)
    {
      hide Layout, Whole, Moved;
      ghost var s := original.Values();
      while iter.hasValue && iter.currentValue <= 0xFFFF_FFFF - amount
        invariant Valid() && Kept(roaring) && original.Valid() && original.Values() == s && iter.Valid()
        invariant BitmapOps.Distinct(roaring, original.roaring)
        invariant iter.hasValue ==> iter.currentValue in s
        invariant Values() == Moved(Passed(s, iter.hasValue, iter.currentValue), amount)
        decreases if iter.hasValue then 0x1_0000_0000 - iter.currentValue else 0
      {
        MoveOne(original, iter, iter.currentValue + amount, amount);
      }
      if iter.hasValue { MovedAbove(s, amount, iter.currentValue); }
    }

    /** `egg_bitset_splice`: nothing happens when a guard against overflow fails. */
    method Splice(position: u32, removed: u32, added: u32)
      requires Valid()
      modifies roaring, roaring.keys, roaring.containers
      ensures Valid() && Kept(roaring)
      ensures position + removed < 0x1_0000_0000 && position + added < 0x1_0000_0000 ==>
        Values() == Spliced(old(Values()), position, removed, added)
      ensures position + removed < 0x1_0000_0000 && position + added < 0x1_0000_0000 ==>
        forall y: int {:trigger y in Values()} :: y in Values() <==>
          && 0 <= y < 0x1_0000_0000
          && if y < position then y in old(Values()) else position + added <= y && y - added + removed in old(Values())
      ensures position + removed >= 0x1_0000_0000 || position + added >= 0x1_0000_0000 ==> Values() == old(Values())
    {
      hide Layout, Whole, Moved, Spliced;
      if !((position + removed) % 0x1_0000_0000 >= position) {
        return;
      }
      if !((position + added) % 0x1_0000_0000 >= position) {
        return;
      }
      ghost var s := Values();
      WholeBounds(roaring.Keys(), roaring.Slots());
      SplicedMeans(s, position, removed, added);
      RemoveRange(position, removed);
      if removed != added {
        Paste(position, removed, added);
        Assembled(s, position, removed, added);
      } else {
        SamePlaces(s, position, removed);
      }
    }

    /** The second half of `egg_bitset_splice`: the values behind the splice move on a copy, and come back. */
    method Paste(position: u32, removed: u32, added: u32)
      requires Valid()
      modifies roaring, roaring.keys, roaring.containers
      ensures Valid() && Kept(roaring)
      ensures var cut := old(Values());
        Values() == (cut - Range(position, 0x1_0000_0000)) + Moved(cut - Range(0, position), added - removed)
    {
      hide Layout, Whole, Moved;
      var shift := CopyFrom(position);
      RemoveRangeClosed(position, 0xFFFF_FFFF);
      shift.Shift(removed, added);
      var _ := Combine(OrOp, shift);
    }

    /** A copy without the values before `position`. */
    method CopyFrom(position: u32) returns (shift: EggBitset)
      requires Valid()
      ensures fresh(shift) && fresh(shift.roaring) && fresh(shift.roaring.keys) && fresh(shift.roaring.containers)
      ensures shift.Valid() && shift.Values() == Values() - Range(0, position)
    {
      hide Layout, Whole;
      shift := Copy();
      shift.RemoveRange(0, position);
    }

    /** Shifts to the right or to the left, whichever the splice needs. */
    method Shift(removed: u32, added: u32)
      requires Valid()
      modifies roaring, roaring.keys, roaring.containers
      ensures Valid() && Kept(roaring) && Values() == Moved(old(Values()), added - removed)
    {
      hide Layout, Whole, Moved;
      if added > removed {
        ShiftRight(added - removed);
      } else {
        ShiftLeft(removed - added);
      }
    }
  }
}
