/** The sorted array of keys and containers behind a bitmap. */
module RoaringArrays {
  import opened IntSets
  import opened SortedArrays
  import opened ArrayKernels
  import opened Containers
  import opened Slots
  import Memory

  /** `MAX_CONTAINERS` */
  const MAX_CONTAINERS: nat := 65536

  class RoaringArray {
    var keys: array<u16>
    var containers: array<Container>
    var size: nat

    /** The two buffers have the same capacity, and room for the slots in use. */
    ghost predicate Fits()
      reads this
    {
      size <= keys.Length == containers.Length && size <= MAX_CONTAINERS && keys != containers as object
    }

    ghost function Keys(): seq<u16>
      requires Fits()
      reads this, keys
    {
      keys[..size]
    }

    ghost function Slots(): seq<Container>
      requires Fits()
      reads this, containers
    {
      containers[..size]
    }

    ghost predicate Valid()
      reads this, keys, containers
    {
      Fits() && Layout(Keys(), Slots())
    }

    /** The set of values of the bitmap. */
    ghost function Values(): set<int>
      requires Fits()
      reads this, keys, containers
    {
      Whole(Keys(), Slots())
    }

    /** `ra_init` */
    constructor ()
      ensures Valid() && size == 0 && Values() == {} && fresh(keys) && fresh(containers)
    {
      keys := new u16[0];
      containers := new Container[0];
      size := 0;
    }

    /** `ra_init_with_capacity` */
    constructor WithCapacity(cap: nat)
      ensures Valid() && size == 0 && keys.Length == cap && fresh(keys) && fresh(containers)
    {
      keys := new u16[cap];
      containers := new Container[cap];
      size := 0;
    }

    /** `realloc_array` */
    method Realloc(newCapacity: nat)
      requires Fits() && size <= newCapacity
      modifies this`keys, this`containers
      ensures Fits() && keys.Length == newCapacity && fresh(keys) && fresh(containers)
      ensures Keys() == old(Keys()) && Slots() == old(Slots())
    {
      var newKeys := new u16[newCapacity](_ => 0);
      var newContainers := new Container[newCapacity](_ => ArrayC([]));
      Memory.Copy(newKeys, 0, keys, 0, size);
      Memory.Copy(newContainers, 0, containers, 0, size);
      keys := newKeys;
      containers := newContainers;
    }

    /** `extend_array`: a new capacity is never more than one slot for every key. */
    method ExtendArray(k: nat)
      requires Fits() && size + k <= MAX_CONTAINERS
      modifies this`keys, this`containers
      ensures Fits() && size + k <= keys.Length && (keys == old(keys) || keys.Length <= MAX_CONTAINERS)
      ensures (keys == old(keys) && containers == old(containers)) || (fresh(keys) && fresh(containers))
      ensures Keys() == old(Keys()) && Slots() == old(Slots())
    {
      var desiredSize := size + k;
      if desiredSize > keys.Length {
        var newCapacity := if size < 1024 then 2 * desiredSize else 5 * desiredSize / 4;
        if newCapacity > MAX_CONTAINERS {
          newCapacity := MAX_CONTAINERS;
        }
        Realloc(newCapacity);
      }
    }

    /** `ra_get_index`: the index of key `x`, or `-(p + 1)` for its insertion point `p`. */
    method GetIndex(x: u16) returns (r: int)
      requires Fits() && Sorted(Keys())
      ensures SearchResult(Keys(), x, r)
    {
      if size == 0 || keys[size - 1] == x {
        return size - 1;
      }
      assert keys[0..0 + size] == Keys();
      r := BinarySearch(keys, 0, size, x);
    }

    /** `ra_advance_until` */
    method AdvanceTo(x: u16, pos: int) returns (r: int)
      requires Fits() && Sorted(Keys()) && -1 <= pos
      ensures FirstFrom(Keys(), pos, x, r)
    {
      r := AdvanceUntil(keys, pos, size, x);
    }

    /** `count_less` on the first `len` keys. */
    method CountLess(len: nat, ikey: u16) returns (r: nat)
      requires Fits() && Sorted(Keys()) && len <= size
      ensures r <= len && LowerBound(Keys()[..len], ikey, r)
    {
      if len == 0 {
        return 0;
      }
      assert keys[0..0 + len] == Keys()[..len];
      var pos := BinarySearch(keys, 0, len, ikey);
      r := if pos >= 0 then pos else -(pos + 1);
    }

    /** `count_greater` on the keys. */
    method CountGreater(ikey: u16) returns (r: nat)
      requires Fits() && Sorted(Keys())
      ensures r <= size && LowerBound(Keys(), ikey + 1, size - r)
    {
      if size == 0 {
        return 0;
      }
      assert keys[0..0 + size] == Keys();
      var pos := BinarySearch(keys, 0, size, ikey);
      if pos >= 0 {
        r := size - (pos + 1);
      } else {
        r := size - (-pos - 1);
      }
    }

    /** `ra_set_container_at_index` */
    method SetContainer(i: nat, c: Container)
      requires Fits() && i < size
      modifies containers
      ensures Slots() == old(Slots())[i := c]
    {
      containers[i] := c;
    }

    /** `ra_replace_key_and_container_at_index` */
    method Replace(i: nat, key: u16, c: Container)
      requires Fits() && i < size
      modifies keys, containers
      ensures Keys() == old(Keys())[i := key] && Slots() == old(Slots())[i := c]
    {
      keys[i] := key;
      containers[i] := c;
    }

    /** `ra_insert_new_key_value_at` */
    method InsertAt(i: nat, key: u16, c: Container)
      requires Fits() && i <= size < MAX_CONTAINERS
      modifies this, keys, containers
      ensures Fits() && (keys == old(keys) || fresh(keys)) && (containers == old(containers) || fresh(containers))
      ensures Keys() == old(Keys())[..i] + [key] + old(Keys())[i..]
      ensures Slots() == old(Slots())[..i] + [c] + old(Slots())[i..]
    {
      ExtendArray(1);
      OpenAt(keys, size, i, key);
      OpenAt(containers, size, i, c);
      size := size + 1;
    }

    /** `ra_remove_at_index` */
    method RemoveAt(i: nat)
      requires Fits() && i < size
      modifies this`size, keys, containers
      ensures Fits()
      ensures Keys() == old(Keys())[..i] + old(Keys())[i + 1..]
      ensures Slots() == old(Slots())[..i] + old(Slots())[i + 1..]
    {
      CloseAt(containers, size, i);
      CloseAt(keys, size, i);
      size := size - 1;
    }

    /** `ra_downsize` */
    method Downsize(newLength: nat)
      requires Fits() && newLength <= size
      modifies this`size
      ensures Fits() && Keys() == old(Keys())[..newLength] && Slots() == old(Slots())[..newLength]
    {
      size := newLength;
    }

    /** `ra_append` */
    method Append(key: u16, c: Container)
      requires Fits() && size < MAX_CONTAINERS
      modifies this, keys, containers
      ensures Fits() && (keys == old(keys) || fresh(keys)) && (containers == old(containers) || fresh(containers))
      ensures Keys() == old(Keys()) + [key] && Slots() == old(Slots()) + [c]
    {
      ExtendArray(1);
      keys[size] := key;
      containers[size] := c;
      size := size + 1;
    }

    /** The body of the loops of `ra_append_copy_range` and `ra_append_move_range`, for which room has been made. */
    method Push(key: u16, c: Container)
      requires Fits() && size < keys.Length && size < MAX_CONTAINERS
      modifies this`size, keys, containers
      ensures Fits() && size == old(size) + 1
      ensures Keys() == old(Keys()) + [key] && Slots() == old(Slots()) + [c]
    {
      keys[size] := key;
      containers[size] := c;
      size := size + 1;
    }

    /** `ra_shift_tail` to the right: opens `distance` slots of unspecified content before the last `count`. */
    method ShiftTailRight(count: nat, distance: nat)
      requires Fits() && count <= size && size + distance <= MAX_CONTAINERS
      modifies this, keys, containers
      ensures Fits() && size == old(size) + distance
      ensures (keys == old(keys) || fresh(keys)) && (containers == old(containers) || fresh(containers))
      ensures Keys()[..size - distance - count] == old(Keys())[..old(size) - count]
      ensures Slots()[..size - distance - count] == old(Slots())[..old(size) - count]
      ensures Keys()[size - count..] == old(Keys())[old(size) - count..]
      ensures Slots()[size - count..] == old(Slots())[old(size) - count..]
    {
      if distance > 0 {
        ExtendArray(distance);
      }
      SpreadTail(keys, size, count, distance);
      SpreadTail(containers, size, count, distance);
      size := size + distance;
    }

    /** `ra_shift_tail` to the left, and `ra_copy_range` followed by `ra_downsize`: drops the slots `[to, from)`. */
    method CloseGap(to: nat, from: nat)
      requires Fits() && to <= from <= size
      modifies this`size, keys, containers
      ensures Fits()
      ensures Keys() == old(Keys())[..to] + old(Keys())[from..]
      ensures Slots() == old(Slots())[..to] + old(Slots())[from..]
    {
      SlideDown(keys, size, to, from);
      SlideDown(containers, size, to, from);
      size := to + (size - from);
    }
  }

  // ---------- block moves ----------

  /** Opens a slot at `i` in the first `n` elements, and fills it. */
  method OpenAt<T>(a: array<T>, n: nat, i: nat, x: T)
    requires i <= n < a.Length
    modifies a
    ensures a[..n + 1] == old(a[..n])[..i] + [x] + old(a[..n])[i..]
  {
    Memory.Move(a, i + 1, i, n - i);
    a[i] := x;
  }

  /** Closes the slot at `i` of the first `n` elements. */
  method CloseAt<T>(a: array<T>, n: nat, i: nat)
    requires i < n <= a.Length
    modifies a
    ensures a[..n - 1] == old(a[..n])[..i] + old(a[..n])[i + 1..]
  {
    Memory.Move(a, i, i + 1, n - i - 1);
  }

  /** Moves the last `count` of the first `n` elements up by `distance`. */
  method SpreadTail<T>(a: array<T>, n: nat, count: nat, distance: nat)
    requires count <= n && n + distance <= a.Length
    modifies a
    ensures a[..n + distance][..n - count] == old(a[..n])[..n - count]
    ensures a[..n + distance][n + distance - count..] == old(a[..n])[n - count..]
  {
    var srcpos := n - count;
    var dstpos := srcpos + distance;
    ghost var s := a[..n];
    MoveBlock(a, n, dstpos, srcpos, count);
    assert a[..n + distance][..n - count] == s[..n - count];
    assert a[..n + distance][dstpos..] == a[dstpos..dstpos + count];
  }

  /** Moves the elements from `from` on down to `to`. */
  method SlideDown<T>(a: array<T>, n: nat, to: nat, from: nat)
    requires to <= from <= n <= a.Length
    modifies a
    ensures a[..to + (n - from)] == old(a[..n])[..to] + old(a[..n])[from..]
  {
    ghost var s := a[..n];
    MoveBlock(a, n, to, from, n - from);
    assert a[..to] == s[..to] && a[..to + (n - from)] == a[..to] + a[to..to + (n - from)];
  }

  /** Moves `count` of the first `n` elements from `src` to `dst`. */
  method MoveBlock<T>(a: array<T>, n: nat, dst: nat, src: nat, count: nat)
    requires dst + count <= a.Length && src + count <= n <= a.Length
    modifies a
    ensures forall k :: 0 <= k < dst ==> a[k] == old(a[k])
    ensures a[dst..dst + count] == old(a[..n])[src..src + count]
  {
    ghost var s := a[..];
    Memory.Move(a, dst, src, count);
    forall k | 0 <= k < dst ensures a[k] == s[k] { assert a[..][k] == s[k]; }
    assert a[dst..dst + count] == s[src..src + count];
  }
}
