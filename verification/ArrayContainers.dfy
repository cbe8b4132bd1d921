/** The array container: a growable buffer of sorted values. */
module ArrayContainers {
  import opened IntSets
  import opened Ranks
  import opened SortedArrays
  import opened ArrayKernels
  import Memory

  class ArrayContainer {
    var vals: array<u16>
    var cardinality: nat

    ghost predicate Valid()
      reads this, vals
    {
      cardinality <= vals.Length && Sorted(vals[..cardinality])
    }

    ghost function View(): seq<u16>
      requires cardinality <= vals.Length
      reads this, vals
    {
      vals[..cardinality]
    }

    constructor (capacity: nat)
      ensures Valid() && View() == [] && fresh(vals) && vals.Length == capacity
    {
      vals := new u16[capacity](_ => 0);
      cardinality := 0;
    }

    /** `array_container_grow` that keeps the contents. */
    method Grow(min: nat)
      requires cardinality <= vals.Length
      modifies this`vals
      ensures fresh(vals) && vals.Length >= min && vals.Length >= cardinality && View() == old(View())
    {
      var newCapacity := if vals.Length < min then min else vals.Length;
      var grown := new u16[newCapacity](_ => 0);
      Memory.Copy(grown, 0, vals, 0, cardinality);
      vals := grown;
    }

    /** `array_container_append` */
    method Append(pos: u16)
      requires cardinality <= vals.Length
      modifies this, vals
      ensures cardinality <= vals.Length && View() == old(View()) + [pos]
      ensures vals == old(vals) || fresh(vals)
    {
      if cardinality == vals.Length {
        Grow(vals.Length + 1);
      }
      vals[cardinality] := pos;
      cardinality := cardinality + 1;
    }

    /** Opens a slot at `index` by moving the tail up, and stores `value` there. */
    method InsertAt(index: nat, value: u16)
      requires index <= cardinality <= vals.Length
      modifies this, vals
      ensures cardinality <= vals.Length && View() == old(View())[..index] + [value] + old(View())[index..]
      ensures vals == old(vals) || fresh(vals)
    {
      if cardinality == vals.Length {
        Grow(vals.Length + 1);
      }
      Memory.Move(vals, index + 1, index, cardinality - index);
      vals[index] := value;
      cardinality := cardinality + 1;
    }

    /** `array_container_try_add`: 1 when added, 0 when already present, -1 when there is no room left. */
    method TryAdd(value: u16, maxCardinality: nat) returns (r: int)
      requires Valid()
      modifies this, vals
      ensures Valid() && (vals == old(vals) || fresh(vals))
      ensures r == 1 <==> value !in old(Elements(View())) && old(cardinality) < maxCardinality
      ensures r == 0 <==> value in old(Elements(View()))
      ensures r == -1 <==> value !in old(Elements(View())) && old(cardinality) >= maxCardinality
      ensures r == 1 ==>
        Elements(View()) == old(Elements(View())) + {value as int} && cardinality == old(cardinality) + 1
      ensures r != 1 ==> View() == old(View())
    {
      hide Sorted, Elements;
      ghost var s := View();
      if (cardinality == 0 || vals[cardinality - 1] < value) && cardinality < maxCardinality {
        LargerThanLast(s, value);
        SortedSnoc(s, value);
        ElementsSnoc(s, value);
        Append(value);
        return 1;
      }
      assert vals[0..0 + cardinality] == s;
      var loc := BinarySearch(vals, 0, cardinality, value);
      SearchDecides(s, value, loc);
      if loc >= 0 {
        return 0;
      } else if cardinality < maxCardinality {
        InsertSorted(s, -loc - 1, value);
        InsertAt(-loc - 1, value);
        return 1;
      }
      return -1;
    }

    /** `array_container_remove` */
    method Remove(pos: u16) returns (isPresent: bool)
      requires Valid()
      modifies this`cardinality, vals
      ensures Valid()
      ensures Elements(View()) == old(Elements(View())) - {pos as int}
      ensures isPresent <==> pos in old(Elements(View()))
    {
      ghost var s := View();
      assert vals[0..0 + cardinality] == s;
      var idx := BinarySearch(vals, 0, cardinality, pos);
      SearchDecides(s, pos, idx);
      isPresent := idx >= 0;
      if isPresent {
        RemoveSorted(s, idx);
        RemoveRange(idx, 1);
      }
    }

    /** `array_container_remove_range`: drops `count` values from index `pos` on. */
    method RemoveRange(pos: nat, count: nat)
      requires pos + count <= cardinality <= vals.Length
      modifies this`cardinality, vals
      ensures cardinality <= vals.Length
      ensures View() == old(View())[..pos] + old(View())[pos + count..]
    {
      if count != 0 {
        Memory.Move(vals, pos, pos + count, cardinality - pos - count);
        cardinality := cardinality - count;
      }
    }

    /** `array_container_contains`: a binary search that ends in a linear scan. */
    method Contains(pos: u16) returns (b: bool)
      requires Valid()
      ensures b <==> pos in Elements(View())
    {
      ghost var s := View();
      assert forall i :: 0 <= i < |s| ==> s[i] == vals[i];
      var low, high := 0, cardinality - 1;
      while high >= low + 16
        invariant 0 <= low <= high + 1 <= cardinality
        invariant forall i :: 0 <= i < low ==> s[i] < pos
        invariant forall i :: high < i < |s| ==> pos < s[i]
      {
        var middleIndex := (low + high) / 2;
        var middleValue := vals[middleIndex];
        if middleValue < pos {
          low := middleIndex + 1;
        } else if middleValue > pos {
          high := middleIndex - 1;
        } else {
          return true;
        }
      }
      var i := low;
      while i <= high
        invariant low <= i <= high + 1
        invariant forall k :: 0 <= k < i ==> s[k] < pos
      {
        var v := vals[i];
        if v == pos {
          return true;
        }
        if v > pos {
          return false;
        }
        i := i + 1;
      }
      return false;
    }

    /** `count_less` on the first `len` values. */
    method CountLess(len: nat, ikey: u16) returns (r: nat)
      requires Valid() && len <= cardinality
      ensures r <= len && LowerBound(View()[..len], ikey, r)
    {
      if len == 0 {
        return 0;
      }
      assert vals[0..0 + len] == View()[..len];
      var pos := BinarySearch(vals, 0, len, ikey);
      r := if pos >= 0 then pos else -(pos + 1);
    }

    /** `count_greater` */
    method CountGreater(ikey: u16) returns (r: nat)
      requires Valid()
      ensures r <= cardinality && LowerBound(View(), ikey + 1, cardinality - r)
    {
      if cardinality == 0 {
        return 0;
      }
      assert vals[0..0 + cardinality] == View();
      var pos := BinarySearch(vals, 0, cardinality, ikey);
      if pos >= 0 {
        r := cardinality - (pos + 1);
      } else {
        r := cardinality - (-pos - 1);
      }
    }

    /** `array_container_add_range_nvals`: the values `min .. max` take the place of those between the two counts. */
    method AddRangeNvals(min: u16, max: u16, nvalsLess: nat, nvalsGreater: nat)
      requires cardinality <= vals.Length && min <= max && nvalsLess + nvalsGreater <= cardinality
      requires cardinality <= nvalsLess + (max - min + 1) + nvalsGreater
      modifies this, vals
      ensures cardinality <= vals.Length && (vals == old(vals) || fresh(vals))
      ensures View() == old(View())[..nvalsLess] + Stretch16(min, max) + old(View())[old(cardinality) - nvalsGreater..]
    {
      ghost var s := View();
      var unionCardinality := nvalsLess + (max - min + 1) + nvalsGreater;
      if unionCardinality > vals.Length {
        Grow(unionCardinality);
      }
      PlaceStretch(min, max, nvalsLess, nvalsGreater);
      cardinality := unionCardinality;
    }

    /** The move of the tail and the writing of the new values, in a buffer with room for them. */
    method PlaceStretch(min: u16, max: u16, nvalsLess: nat, nvalsGreater: nat)
      requires cardinality <= vals.Length && min <= max && nvalsLess + nvalsGreater <= cardinality
      requires cardinality <= nvalsLess + (max - min + 1) + nvalsGreater <= vals.Length
      modifies vals
      ensures var i, j, d := nvalsLess, nvalsLess + (max - min + 1),
        nvalsLess + (max - min + 1) + nvalsGreater - cardinality;
        && (forall k :: 0 <= k < i ==> vals[k] == old(vals[k]))
        && (forall k :: i <= k < j ==> vals[k] == min + (k - i))
        && (forall k :: j <= k < j + nvalsGreater ==> vals[k] == old(vals[k - d]))
    {
      MoveTail(nvalsLess + (max - min + 1), nvalsGreater);
      FillStretch(min, max, nvalsLess);
    }

    /** Moves the last `count` values to index `to`. */
    method MoveTail(to: nat, count: nat)
      requires count <= cardinality <= vals.Length && to + count <= vals.Length
      modifies vals
      ensures forall k :: 0 <= k < to ==> vals[k] == old(vals[k])
      ensures forall k :: to <= k < to + count ==> vals[k] == old(vals[k - to + cardinality - count])
    {
      ghost var a := vals[..];
      Memory.Move(vals, to, cardinality - count, count);
      forall k | 0 <= k < to ensures vals[k] == a[k] { assert vals[..][k] == a[k]; }
      forall k | to <= k < to + count ensures vals[k] == a[k - to + cardinality - count] {
        assert vals[..][k] == a[k - to + cardinality - count];
      }
    }

    /** The loop that writes the new values. */
    method FillStretch(min: u16, max: u16, at: nat)
      requires min <= max && at + (max - min + 1) <= vals.Length
      modifies vals
      ensures forall k :: at <= k < at + (max - min + 1) ==> vals[k] == min + (k - at)
      ensures forall k :: 0 <= k < vals.Length && (k < at || at + (max - min + 1) <= k) ==> vals[k] == old(vals[k])
    {
      var i := 0;
      while i <= max - min
        invariant 0 <= i <= max - min + 1
        invariant forall k :: at <= k < at + i ==> vals[k] == min + (k - at)
        invariant forall k :: 0 <= k < vals.Length && (k < at || at + i <= k) ==> vals[k] == old(vals[k])
      {
        vals[at + i] := min + i;
        i := i + 1;
      }
    }

    /** `array_container_rank` */
    method Rank(x: u16) returns (r: nat)
      requires Valid()
      ensures r == RankOf(Elements(View()), x)
    {
      assert vals[0..0 + cardinality] == View();
      var idx := BinarySearch(vals, 0, cardinality, x);
      CountBelow(View(), x + 1, if idx >= 0 then idx + 1 else -idx - 1);
      r := if idx >= 0 then idx + 1 else -idx - 1;
    }

    /** `array_container_select`, with the same 32-bit sum. */
    method Select(startRank: u32, rank: u32) returns (found: bool, startRank': u32, element: u32)
      requires Valid() && startRank <= rank && startRank + cardinality <= 0x1_0000_0000
      ensures startRank + cardinality < 0x1_0000_0000 ==>
        Selected(Elements(View()), startRank, rank, found, startRank', element)
      ensures startRank + cardinality == 0x1_0000_0000 ==> !found
    {
      SortedSize(View());
      if (startRank + cardinality) % 0x1_0000_0000 <= rank {
        return false, (startRank + cardinality) % 0x1_0000_0000, 0;
      }
      SelectedAt(View(), rank - startRank);
      return true, startRank, vals[rank - startRank];
    }

    /** `array_container_minimum` */
    method Minimum() returns (x: u16)
      requires Valid()
      ensures cardinality > 0 ==> Smallest(Elements(View()), x)
    {
      if cardinality == 0 {
        return 0;
      }
      assert View()[0] == vals[0];
      return vals[0];
    }

    /** `array_container_maximum` */
    method Maximum() returns (x: u16)
      requires Valid()
      ensures cardinality > 0 ==> Largest(Elements(View()), x)
    {
      if cardinality == 0 {
        return 0;
      }
      assert View()[cardinality - 1] == vals[cardinality - 1];
      return vals[cardinality - 1];
    }

    /** `array_container_index_equalorlarger` */
    method IndexEqualOrLarger(x: u16) returns (index: int)
      requires Valid()
      ensures -1 <= index < cardinality
      ensures LowerBound(View(), x, if index == -1 then cardinality else index)
    {
      assert vals[0..0 + cardinality] == View();
      var idx := BinarySearch(vals, 0, cardinality, x);
      if idx >= 0 {
        return idx;
      }
      var candidate := -idx - 1;
      if candidate < cardinality {
        return candidate;
      }
      return -1;
    }
  }

  /** The values `min .. max`. */
  function Stretch16(min: u16, max: u16): (s: seq<u16>)
    requires min <= max
    ensures |s| == max - min + 1 && (forall i :: 0 <= i < |s| ==> s[i] == min + i)
  {
    seq(max - min + 1, i requires 0 <= i < max - min + 1 => min + i)
  }

  lemma Stretch16Denotes(min: u16, max: u16)
    requires min <= max
    ensures Sorted(Stretch16(min, max)) && Elements(Stretch16(min, max)) == Range(min, max + 1)
  {
    var s := Stretch16(min, max);
    forall x ensures x in Elements(s) <==> min <= x <= max {
      if min <= x <= max { assert s[x - min] == x; }
    }
  }

  lemma LargerThanLast(s: seq<u16>, x: u16)
    requires Sorted(s) && (s == [] || s[|s| - 1] < x)
    ensures x !in Elements(s)
  {
  }

  lemma SearchDecides(s: seq<u16>, key: u16, r: int)
    requires SearchResult(s, key, r)
    ensures r >= 0 <==> key in Elements(s)
  {
  }

  lemma InsertSorted(s: seq<u16>, p: nat, x: u16)
    requires Sorted(s) && p <= |s|
    requires (forall i :: 0 <= i < p ==> s[i] < x) && (forall i :: p <= i < |s| ==> x < s[i])
    ensures Sorted(s[..p] + [x] + s[p..]) && Elements(s[..p] + [x] + s[p..]) == Elements(s) + {x as int}
  {
  }

  lemma RemoveSorted(s: seq<u16>, p: nat)
    requires Sorted(s) && p < |s|
    ensures Sorted(s[..p] + s[p + 1..]) && Elements(s[..p] + s[p + 1..]) == Elements(s) - {s[p] as int}
  {
  }

  /** The values below `x` are those before its lower bound. */
  lemma CountBelow(s: seq<u16>, x: int, p: nat)
    requires Sorted(s) && LowerBound(s, x, p)
    ensures Below(Elements(s), x) == Elements(s[..p]) && |Below(Elements(s), x)| == p
  {
    forall y ensures y in Below(Elements(s), x) <==> y in Elements(s[..p]) {
      if y in Below(Elements(s), x) {
        var k :| 0 <= k < |s| && s[k] == y;
        assert k < p;
        assert s[..p][k] == y;
      }
    }
    SortedSize(s[..p]);
  }

  lemma SelectedAt(s: seq<u16>, k: nat)
    requires Sorted(s) && k < |s|
    ensures Selects(Elements(s), k, s[k])
  {
    CountBelow(s, s[k], k);
  }
}
