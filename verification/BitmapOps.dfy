/** The in-place set operations on whole bitmaps: the second operand is only read. */
module BitmapOps {
  import opened IntSets
  import opened SortedArrays
  import opened ArrayKernels
  import opened BitsetOps
  import opened Containers
  import opened ContainerUpdates
  import opened Slots
  import opened SlotMerges
  import opened RoaringArrays
  import Bitmaps
  import ContainerOps
  import ContainerQueries
  import Memory

  /** Two bitmaps that share no buffer. */
  ghost predicate Distinct(x1: RoaringArray, x2: RoaringArray)
    reads x1, x2
  {
    && x1 != x2
    && x1.keys != x2.keys && x1.keys != x2.containers as object
    && x1.containers != x2.keys as object && x1.containers != x2.containers
  }

  /** The slots of a bitmap that the walk of an in-place operation reads. */
  ghost predicate Reads(x: RoaringArray, keys: seq<u16>, cs: seq<Container>)
    reads x, x.keys, x.containers
  {
    x.Fits() && x.Keys() == keys && x.Slots() == cs
  }

  // ---------- the walk of or and xor ----------

  /** The first `pos1` slots are done; behind them stand the old slots from `i` on. */
  ghost predicate Walk(op: Op, kk: seq<u16>, cc: seq<Container>, pos1: nat,
                       keys1: seq<u16>, cs1: seq<Container>, i: nat, keys2: seq<u16>, cs2: seq<Container>, j: nat)
  {
    && pos1 <= |kk| == |cc| && i <= |keys1| == |cs1| && j <= |keys2| == |cs2|
    && kk[pos1..] == keys1[i..] && cc[pos1..] == cs1[i..]
    && Combined(op, kk[..pos1], cc[..pos1], keys1, cs1, i, keys2, cs2, j)
  }

  lemma WalkFacts(op: Op, kk: seq<u16>, cc: seq<Container>, pos1: nat,
                  keys1: seq<u16>, cs1: seq<Container>, i: nat, keys2: seq<u16>, cs2: seq<Container>, j: nat)
    requires Walk(op, kk, cc, pos1, keys1, cs1, i, keys2, cs2, j)
    ensures pos1 <= |kk| == |cc| && i <= |keys1| == |cs1| && j <= |keys2| == |cs2| && |kk| - pos1 == |keys1| - i
    ensures pos1 < |kk| ==> kk[pos1] == keys1[i] && cc[pos1] == cs1[i]
  {
  }

  lemma WalkStart(op: Op, keys1: seq<u16>, cs1: seq<Container>, keys2: seq<u16>, cs2: seq<Container>)
    requires |keys1| == |cs1| && |keys2| == |cs2|
    ensures Walk(op, keys1, cs1, 0, keys1, cs1, 0, keys2, cs2, 0)
  {
  }

  /** Dropping the first element of equal tails. */
  lemma TailNext<T>(a: seq<T>, p: nat, b: seq<T>, q: nat)
    requires p < |a| && q <= |b| && a[p..] == b[q..]
    ensures q < |b| && a[p + 1..] == b[q + 1..] && a[p] == b[q] && a[..p + 1] == a[..p] + [b[q]]
  {
  }

  /** A slot of the first operand alone stays where it is. */
  lemma WalkKeep(op: Op, kk: seq<u16>, cc: seq<Container>, pos1: nat,
                 keys1: seq<u16>, cs1: seq<Container>, i: nat, keys2: seq<u16>, cs2: seq<Container>, j: nat)
    requires Layout(keys1, cs1) && Layout(keys2, cs2) && Walk(op, kk, cc, pos1, keys1, cs1, i, keys2, cs2, j)
    requires Holds(op, true, false) && pos1 < |kk| && (j < |keys2| ==> kk[pos1] < keys2[j])
    ensures Walk(op, kk, cc, pos1 + 1, keys1, cs1, i + 1, keys2, cs2, j)
  {
    hide Combined, Layout, Holds;
    TailNext(kk, pos1, keys1, i);
    TailNext(cc, pos1, cs1, i);
    CombinedFirst(op, kk[..pos1], cc[..pos1], keys1, cs1, i, keys2, cs2, j);
  }

  /** The combination of two slots takes the place of the first. */
  lemma WalkPut(op: Op, kk: seq<u16>, cc: seq<Container>, pos1: nat,
                keys1: seq<u16>, cs1: seq<Container>, i: nat, keys2: seq<u16>, cs2: seq<Container>, j: nat,
                c: Container)
    requires Layout(keys1, cs1) && Layout(keys2, cs2) && Walk(op, kk, cc, pos1, keys1, cs1, i, keys2, cs2, j)
    requires pos1 < |kk| && i < |keys1| && j < |keys2| && kk[pos1] == keys2[j]
    requires Leaves(Just(c), SetOp(op, Elems(cs1[i]), Elems(cs2[j]))) && Dense(c)
    ensures Walk(op, kk, cc[pos1 := c], pos1 + 1, keys1, cs1, i + 1, keys2, cs2, j + 1)
  {
    hide Combined, Layout, Elems, SetOp;
    TailNext(kk, pos1, keys1, i);
    TailNext(cc, pos1, cs1, i);
    CombinedBoth(op, kk[..pos1], cc[..pos1], keys1, cs1, i, keys2, cs2, j, Just(c));
    assert cc[pos1 := c][..pos1 + 1] == cc[..pos1] + [c] && cc[pos1 := c][pos1 + 1..] == cc[pos1 + 1..];
  }

  /** Two slots that cancel out: the first is removed. */
  lemma WalkDrop(op: Op, kk: seq<u16>, cc: seq<Container>, pos1: nat,
                 keys1: seq<u16>, cs1: seq<Container>, i: nat, keys2: seq<u16>, cs2: seq<Container>, j: nat)
    requires Layout(keys1, cs1) && Layout(keys2, cs2) && Walk(op, kk, cc, pos1, keys1, cs1, i, keys2, cs2, j)
    requires pos1 < |kk| && i < |keys1| && j < |keys2| && kk[pos1] == keys2[j]
    requires Leaves(Nothing, SetOp(op, Elems(cs1[i]), Elems(cs2[j])))
    ensures Walk(op, kk[..pos1] + kk[pos1 + 1..], cc[..pos1] + cc[pos1 + 1..], pos1,
                 keys1, cs1, i + 1, keys2, cs2, j + 1)
  {
    hide Combined, Layout, Elems, SetOp;
    TailNext(kk, pos1, keys1, i);
    TailNext(cc, pos1, cs1, i);
    CombinedBoth(op, kk[..pos1], cc[..pos1], keys1, cs1, i, keys2, cs2, j, Nothing);
    assert kk[..pos1] + [] == kk[..pos1] && cc[..pos1] + [] == cc[..pos1];
    Cut(kk, pos1);
    Cut(cc, pos1);
  }

  lemma Cut<T>(a: seq<T>, p: nat)
    requires p < |a|
    ensures (a[..p] + a[p + 1..])[..p] == a[..p] && (a[..p] + a[p + 1..])[p..] == a[p + 1..]
  {
  }

  /** A slot of the second operand alone is inserted. */
  lemma WalkInsert(op: Op, kk: seq<u16>, cc: seq<Container>, pos1: nat,
                   keys1: seq<u16>, cs1: seq<Container>, i: nat, keys2: seq<u16>, cs2: seq<Container>, j: nat)
    requires Layout(keys1, cs1) && Layout(keys2, cs2) && Walk(op, kk, cc, pos1, keys1, cs1, i, keys2, cs2, j)
    requires Holds(op, false, true) && j < |keys2| && (pos1 < |kk| ==> keys2[j] < kk[pos1])
    ensures Walk(op, kk[..pos1] + [keys2[j]] + kk[pos1..], cc[..pos1] + [cs2[j]] + cc[pos1..], pos1 + 1,
                 keys1, cs1, i, keys2, cs2, j + 1)
    ensures |kk| < MAX_CONTAINERS
  {
    hide Combined, Layout, Holds;
    WalkFacts(op, kk, cc, pos1, keys1, cs1, i, keys2, cs2, j);
    CombinedSecond(op, kk[..pos1], cc[..pos1], keys1, cs1, i, keys2, cs2, j);
    Wedge(kk, pos1, keys2[j]);
    Wedge(cc, pos1, cs2[j]);
    CombinedFacts(op, kk[..pos1] + [keys2[j]], cc[..pos1] + [cs2[j]], keys1, cs1, i, keys2, cs2, j + 1);
    Bitmaps.LayoutParts(keys1, cs1, i);
    BoundedBy(op, kk[..pos1], cc[..pos1], keys1, cs1, i, keys2, cs2, j);
    Bitmaps.LayoutConcat(kk[..pos1] + [keys2[j]], cc[..pos1] + [cs2[j]], kk[pos1..], cc[pos1..]);
    Bitmaps.LayoutIs(kk[..pos1] + [keys2[j]] + kk[pos1..], cc[..pos1] + [cs2[j]] + cc[pos1..]);
    SortedRoom(kk[..pos1] + [keys2[j]] + kk[pos1..]);
  }

  lemma Wedge<T>(a: seq<T>, p: nat, x: T)
    requires p <= |a|
    ensures (a[..p] + [x] + a[p..])[..p + 1] == a[..p] + [x] && (a[..p] + [x] + a[p..])[p + 1..] == a[p..]
  {
  }

  lemma BoundedBy(op: Op, outK: seq<u16>, outC: seq<Container>,
                  keys1: seq<u16>, cs1: seq<Container>, i: nat, keys2: seq<u16>, cs2: seq<Container>, j: nat)
    requires Combined(op, outK, outC, keys1, cs1, i, keys2, cs2, j)
    ensures outK != [] && i < |keys1| ==> outK[|outK| - 1] < keys1[i]
  {
  }

  /** Distinct keys: never more than one slot for each. */
  lemma SortedRoom(keys: seq<u16>)
    requires Sorted(keys)
    ensures |keys| <= MAX_CONTAINERS
  {
    SortedSize(keys);
    RangeSize(0, 0x1_0000);
    ArrayBounds(keys);
    SubsetSize(Elements(keys), Range(0, 0x1_0000));
  }

  /** The walk is over when one operand is used up and the rest of the other is in place. */
  lemma WalkEnd(op: Op, kk: seq<u16>, cc: seq<Container>, pos1: nat,
                keys1: seq<u16>, cs1: seq<Container>, i: nat, keys2: seq<u16>, cs2: seq<Container>)
    requires Layout(keys1, cs1) && Layout(keys2, cs2) && Walk(op, kk, cc, pos1, keys1, cs1, i, keys2, cs2, |keys2|)
    requires Holds(op, true, false)
    ensures Layout(kk, cc) && Whole(kk, cc) == SetOp(op, Whole(keys1, cs1), Whole(keys2, cs2))
  {
    hide Combined, Layout, Holds, SetOp;
    CombinedRest(op, kk[..pos1], cc[..pos1], keys1, cs1, i, keys2, cs2);
    assert kk == kk[..pos1] + keys1[i..] && cc == cc[..pos1] + cs1[i..];
    CombinedDone(op, kk, cc, keys1, cs1, keys2, cs2);
  }

  /** One turn of the loop of `roaring_bitmap_or_inplace` or `roaring_bitmap_xor_inplace`. */
  method WalkStep(op: Op, x1: RoaringArray, x2: RoaringArray, pos1: nat, pos2: nat,
                  ghost keys1: seq<u16>, ghost cs1: seq<Container>, ghost i: nat,
                  ghost keys2: seq<u16>, ghost cs2: seq<Container>)
    returns (pos1': nat, pos2': nat, ghost i': nat)
    requires (op == OrOp || op == XorOp) && Layout(keys1, cs1) && Layout(keys2, cs2)
    requires x1.Fits() && Distinct(x1, x2) && Reads(x2, keys2, cs2) && pos1 < x1.size && pos2 < x2.size
    requires Walk(op, x1.Keys(), x1.Slots(), pos1, keys1, cs1, i, keys2, cs2, pos2)
    modifies x1, x1.keys, x1.containers
    ensures x1.Fits() && Distinct(x1, x2) && Reads(x2, keys2, cs2) && pos1' <= x1.size && pos2' <= x2.size
    ensures (x1.keys == old(x1.keys) || fresh(x1.keys)) && (x1.containers == old(x1.containers) || fresh(x1.containers))
    ensures Walk(op, x1.Keys(), x1.Slots(), pos1', keys1, cs1, i', keys2, cs2, pos2')
    ensures i <= i' && pos2 <= pos2' && i + pos2 < i' + pos2' && i' <= |keys1|
  {
    hide Walk, Layout, Elems, SetOp, Leaves;
    ghost var kk, cc := x1.Keys(), x1.Slots();
    WalkFacts(op, kk, cc, pos1, keys1, cs1, i, keys2, cs2, pos2);
    var s1, s2 := x1.keys[pos1], x2.keys[pos2];
    assert s1 == kk[pos1] && s2 == keys2[pos2];
    if s1 == s2 {
      assert x1.containers[pos1] == cc[pos1] && x2.containers[pos2] == cs2[pos2];
      var _, l := BothSlots(op, x1.containers[pos1], x2.containers[pos2], keys1, cs1, i, keys2, cs2, pos2);
      i' := i + 1;
      if l.Just? {
        WalkPut(op, kk, cc, pos1, keys1, cs1, i, keys2, cs2, pos2, l.container);
        x1.SetContainer(pos1, l.container);
        pos1', pos2' := pos1 + 1, pos2 + 1;
      } else {
        WalkDrop(op, kk, cc, pos1, keys1, cs1, i, keys2, cs2, pos2);
        x1.RemoveAt(pos1);
        pos1', pos2' := pos1, pos2 + 1;
      }
    } else if s1 < s2 {
      WalkKeep(op, kk, cc, pos1, keys1, cs1, i, keys2, cs2, pos2);
      pos1', pos2', i' := pos1 + 1, pos2, i + 1;
    } else {
      var c2 := x2.containers[pos2];
      assert c2 == cs2[pos2];
      WalkInsert(op, kk, cc, pos1, keys1, cs1, i, keys2, cs2, pos2);
      x1.InsertAt(pos1, s2, c2);
      pos1', pos2', i' := pos1 + 1, pos2 + 1, i;
    }
  }

  /**
   The two containers of a common key: a full container is left alone by or. Only an intersection can run out of room.
   */
  method BothSlots(op: Op, c1: Container, c2: Container, ghost keys1: seq<u16>, ghost cs1: seq<Container>, ghost i: nat,
                   ghost keys2: seq<u16>, ghost cs2: seq<Container>, ghost j: nat)
    returns (room: bool, l: Left)
    requires Layout(keys1, cs1) && Layout(keys2, cs2) && i < |cs1| && j < |cs2| && c1 == cs1[i] && c2 == cs2[j]
    ensures room <==> (op == AndOp ==> ContainerOps.Fitting(cs1[i], cs2[j]))
    ensures room ==> Leaves(l, SetOp(op, Elems(cs1[i]), Elems(cs2[j]))) && LeavesDense(l)
  {
    hide Elems, Good, Dense, Containers.Valid, ContainerOps.Fitting;
    room := true;
    Bitmaps.GoodAt(cs1, i);
    Bitmaps.GoodAt(cs2, j);
    var c;
    match op {
      case OrOp =>
        var full := ContainerQueries.IsFull(c1);
        if full {
          ElemsBounds(c2);
          FullOr(Elems(c2));
          c := c1;
        } else {
          c := ContainerOps.Or(c1, c2);
        }
      case AndOp =>
        room, c := ContainerOps.And(c1, c2);
        if !room {
          return false, Nothing;
        }
      case XorOp =>
        c := ContainerOps.ExclusiveOr(c1, c2);
      case AndNotOp =>
        c := ContainerOps.AndNot(c1, c2);
    }
    var nonzero := ContainerQueries.NonZero(c);
    l := if nonzero then Just(c) else Nothing;
  }

  lemma FullOr(s: set<int>)
    requires s <= Range(0, 0x1_0000)
    ensures Range(0, 0x1_0000) + s == Range(0, 0x1_0000)
  {
  }

  /** `ra_append_copy_range`: the rest of the second operand. */
  method AppendCopyRange(op: Op, x1: RoaringArray, x2: RoaringArray, start: nat,
                         ghost keys1: seq<u16>, ghost cs1: seq<Container>, ghost keys2: seq<u16>,
                         ghost cs2: seq<Container>)
    requires (op == OrOp || op == XorOp) && Layout(keys1, cs1) && Layout(keys2, cs2)
    requires x1.Fits() && Distinct(x1, x2) && Reads(x2, keys2, cs2) && start <= x2.size
    requires Walk(op, x1.Keys(), x1.Slots(), x1.size, keys1, cs1, |keys1|, keys2, cs2, start)
    modifies x1, x1.keys, x1.containers
    ensures x1.Fits() && Distinct(x1, x2) && Reads(x2, keys2, cs2)
    ensures Walk(op, x1.Keys(), x1.Slots(), x1.size, keys1, cs1, |keys1|, keys2, cs2, |keys2|)
    ensures (x1.keys == old(x1.keys) || fresh(x1.keys)) && (x1.containers == old(x1.containers) || fresh(x1.containers))
  {
    hide Walk, Layout;
    var i := start;
    while i < x2.size
      invariant start <= i <= x2.size && x1.Fits() && Distinct(x1, x2) && Reads(x2, keys2, cs2)
      invariant (x1.keys == old(x1.keys) || fresh(x1.keys))
      invariant (x1.containers == old(x1.containers) || fresh(x1.containers))
      invariant Walk(op, x1.Keys(), x1.Slots(), x1.size, keys1, cs1, |keys1|, keys2, cs2, i)
    {
      ghost var kk, cc := x1.Keys(), x1.Slots();
      WalkInsert(op, kk, cc, x1.size, keys1, cs1, |keys1|, keys2, cs2, i);
      assert kk[..x1.size] == kk && cc[..x1.size] == cc && kk[x1.size..] == [] && cc[x1.size..] == [];
      assert x2.keys[i] == keys2[i] && x2.containers[i] == cs2[i];
      assert kk[..x1.size] + [keys2[i]] + kk[x1.size..] == kk + [keys2[i]];
      assert cc[..x1.size] + [cs2[i]] + cc[x1.size..] == cc + [cs2[i]];
      x1.Append(x2.keys[i], x2.containers[i]);
      i := i + 1;
    }
  }

  /** `ra_overwrite` of a bitmap without copy-on-write. */
  method Overwrite(x1: RoaringArray, x2: RoaringArray)
    requires x1.Fits() && x2.Fits() && Distinct(x1, x2)
    modifies x1, x1.keys, x1.containers
    ensures x1.Fits() && x1.Keys() == x2.Keys() && x1.Slots() == x2.Slots() && Distinct(x1, x2)
    ensures (x1.keys == old(x1.keys) || fresh(x1.keys)) && (x1.containers == old(x1.containers) || fresh(x1.containers))
    ensures x2.Keys() == old(x2.Keys()) && x2.Slots() == old(x2.Slots())
  {
    if x1.keys.Length < x2.size {
      x1.Realloc(x2.size);
    }
    x1.size := x2.size;
    CopySlots(x1, x2);
  }

  /** The slots of `x2`, copied into buffers with room for them. */
  method CopySlots(x1: RoaringArray, x2: RoaringArray)
    requires x1.Fits() && x2.Fits() && Distinct(x1, x2) && x1.size == x2.size
    modifies x1.keys, x1.containers
    ensures x1.Keys() == x2.Keys() && x1.Slots() == x2.Slots()
    ensures x2.Keys() == old(x2.Keys()) && x2.Slots() == old(x2.Slots())
  {
    Memory.Copy(x1.keys, 0, x2.keys, 0, x2.size);
    Memory.Copy(x1.containers, 0, x2.containers, 0, x2.size);
  }

  lemma EmptyOperand(op: Op, s: set<int>)
    ensures op == OrOp || op == XorOp ==> SetOp(op, {}, s) == s && SetOp(op, s, {}) == s
    ensures SetOp(AndNotOp, s, {}) == s && SetOp(AndNotOp, {}, s) == {}
  {
  }

  lemma NoSlots(keys: seq<u16>, cs: seq<Container>)
    requires |keys| == |cs| == 0
    ensures Whole(keys, cs) == {}
  {
  }

  /** `roaring_bitmap_or_inplace` and `roaring_bitmap_xor_inplace` on distinct bitmaps. */
  method OrXorInplace(op: Op, x1: RoaringArray, x2: RoaringArray)
    requires (op == OrOp || op == XorOp) && x1.Valid() && x2.Valid() && Distinct(x1, x2)
    modifies x1, x1.keys, x1.containers
    ensures x1.Valid() && Distinct(x1, x2)
    ensures x1.Values() == SetOp(op, old(x1.Values()), old(x2.Values()))
    ensures x2.Valid() && x2.Keys() == old(x2.Keys()) && x2.Slots() == old(x2.Slots())
    ensures (x1.keys == old(x1.keys) || fresh(x1.keys)) && (x1.containers == old(x1.containers) || fresh(x1.containers))
  {
    hide Walk, Layout, SetOp, Whole;
    ghost var keys1, cs1, keys2, cs2 := x1.Keys(), x1.Slots(), x2.Keys(), x2.Slots();
    Bitmaps.LayoutIs(keys1, cs1);
    Bitmaps.LayoutIs(keys2, cs2);
    EmptyOperand(op, x1.Values());
    EmptyOperand(op, x2.Values());
    if x2.size == 0 {
      NoSlots(keys2, cs2);
      return;
    }
    if x1.size == 0 {
      NoSlots(keys1, cs1);
      Overwrite(x1, x2);
      return;
    }
    var pos1: nat, pos2: nat := 0, 0;
    ghost var i: nat := 0;
    WalkStart(op, keys1, cs1, keys2, cs2);
    while pos1 < x1.size && pos2 < x2.size
      invariant x1.Fits() && Distinct(x1, x2) && Reads(x2, keys2, cs2)
      invariant pos1 <= x1.size && pos2 <= x2.size && i <= |keys1|
      invariant (x1.keys == old(x1.keys) || fresh(x1.keys))
      invariant (x1.containers == old(x1.containers) || fresh(x1.containers))
      invariant Walk(op, x1.Keys(), x1.Slots(), pos1, keys1, cs1, i, keys2, cs2, pos2)
      decreases |keys1| - i + |keys2| - pos2
    {
      pos1, pos2, i := WalkStep(op, x1, x2, pos1, pos2, keys1, cs1, i, keys2, cs2);
    }
    WalkFacts(op, x1.Keys(), x1.Slots(), pos1, keys1, cs1, i, keys2, cs2, pos2);
    if pos1 == x1.size {
      AppendCopyRange(op, x1, x2, pos2, keys1, cs1, keys2, cs2);
      WalkEnd(op, x1.Keys(), x1.Slots(), x1.size, keys1, cs1, |keys1|, keys2, cs2);
    } else {
      WalkEnd(op, x1.Keys(), x1.Slots(), pos1, keys1, cs1, i, keys2, cs2);
    }
  }

  // ---------- the walk of and and andnot ----------

  /** The result so far fills the first `n` slots; the old slots from `i` on have not moved. */
  ghost predicate Shrunk(op: Op, kk: seq<u16>, cc: seq<Container>, n: nat,
                         keys1: seq<u16>, cs1: seq<Container>, i: nat, keys2: seq<u16>, cs2: seq<Container>, j: nat)
  {
    && n <= i <= |kk| == |cc| == |keys1| == |cs1| && j <= |keys2| == |cs2|
    && kk[i..] == keys1[i..] && cc[i..] == cs1[i..]
    && Combined(op, kk[..n], cc[..n], keys1, cs1, i, keys2, cs2, j)
  }

  lemma ShrunkFacts(op: Op, kk: seq<u16>, cc: seq<Container>, n: nat,
                    keys1: seq<u16>, cs1: seq<Container>, i: nat, keys2: seq<u16>, cs2: seq<Container>, j: nat)
    requires Shrunk(op, kk, cc, n, keys1, cs1, i, keys2, cs2, j)
    ensures n <= i <= |kk| == |cc| == |keys1| == |cs1| && j <= |keys2| == |cs2|
    ensures i < |kk| ==> kk[i] == keys1[i] && cc[i] == cs1[i]
  {
  }

  lemma ShrunkStart(op: Op, keys1: seq<u16>, cs1: seq<Container>, keys2: seq<u16>, cs2: seq<Container>)
    requires |keys1| == |cs1| && |keys2| == |cs2|
    ensures Shrunk(op, keys1, cs1, 0, keys1, cs1, 0, keys2, cs2, 0)
  {
  }

  /** A store at slot `n`, behind the slots that are still to be read. */
  lemma StoreBehind<T>(a: seq<T>, n: nat, i: nat, x: T)
    requires n <= i < |a|
    ensures a[n := x][..n + 1] == a[..n] + [x] && a[n := x][i + 1..] == a[i + 1..]
  {
  }

  /** The combination of two slots goes to slot `n`, or is dropped. */
  lemma ShrunkBoth(op: Op, kk: seq<u16>, cc: seq<Container>, n: nat,
                   keys1: seq<u16>, cs1: seq<Container>, i: nat, keys2: seq<u16>, cs2: seq<Container>, j: nat, l: Left)
    requires Layout(keys1, cs1) && Layout(keys2, cs2) && Shrunk(op, kk, cc, n, keys1, cs1, i, keys2, cs2, j)
    requires i < |kk| && j < |keys2| && kk[i] == keys2[j]
    requires Leaves(l, SetOp(op, Elems(cs1[i]), Elems(cs2[j]))) && LeavesDense(l)
    ensures l.Just? ==> Shrunk(op, kk[n := kk[i]], cc[n := l.container], n + 1, keys1, cs1, i + 1, keys2, cs2, j + 1)
    ensures l.Nothing? ==> Shrunk(op, kk, cc, n, keys1, cs1, i + 1, keys2, cs2, j + 1)
  {
    hide Combined, Layout, Elems, SetOp, Leaves;
    TailNext(kk, i, keys1, i);
    TailNext(cc, i, cs1, i);
    CombinedBoth(op, kk[..n], cc[..n], keys1, cs1, i, keys2, cs2, j, l);
    StoreBehind(kk, n, i, kk[i]);
    if l.Just? {
      StoreBehind(cc, n, i, l.container);
    } else {
      assert kk[..n] + [] == kk[..n] && cc[..n] + [] == cc[..n];
    }
  }

  /** A slot of the first operand alone: andnot moves it to slot `n`, and drops it. */
  lemma ShrunkFirst(op: Op, kk: seq<u16>, cc: seq<Container>, n: nat,
                    keys1: seq<u16>, cs1: seq<Container>, i: nat, keys2: seq<u16>, cs2: seq<Container>, j: nat)
    requires Layout(keys1, cs1) && Layout(keys2, cs2) && Shrunk(op, kk, cc, n, keys1, cs1, i, keys2, cs2, j)
    requires i < |kk| && (j < |keys2| ==> kk[i] < keys2[j])
    ensures Holds(op, true, false) ==>
      Shrunk(op, kk[n := kk[i]], cc[n := cc[i]], n + 1, keys1, cs1, i + 1, keys2, cs2, j)
    ensures !Holds(op, true, false) ==> Shrunk(op, kk, cc, n, keys1, cs1, i + 1, keys2, cs2, j)
  {
    hide Combined, Layout, Holds;
    TailNext(kk, i, keys1, i);
    TailNext(cc, i, cs1, i);
    CombinedFirst(op, kk[..n], cc[..n], keys1, cs1, i, keys2, cs2, j);
    StoreBehind(kk, n, i, kk[i]);
    StoreBehind(cc, n, i, cc[i]);
  }

  /** Slots of the second operand alone are passed. */
  lemma ShrunkSkip(op: Op, kk: seq<u16>, cc: seq<Container>, n: nat,
                   keys1: seq<u16>, cs1: seq<Container>, i: nat, keys2: seq<u16>, cs2: seq<Container>, j: nat, j': int)
    requires Layout(keys1, cs1) && Layout(keys2, cs2) && Shrunk(op, kk, cc, n, keys1, cs1, i, keys2, cs2, j)
    requires !Holds(op, false, true) && i < |kk| && j < |keys2| && keys2[j] < kk[i] && FirstFrom(keys2, j, kk[i], j')
    ensures j < j' <= |keys2| && Shrunk(op, kk, cc, n, keys1, cs1, i, keys2, cs2, j')
  {
    hide Combined, Layout, Holds;
    TailNext(kk, i, keys1, i);
    CombinedSkipSecond(op, kk[..n], cc[..n], keys1, cs1, i, keys2, cs2, j, j');
  }

  /** The intersections of the first `i` containers with those of the same key stay within their buffers. */
  ghost predicate FitUpTo(keys1: seq<u16>, cs1: seq<Container>, i: nat, keys2: seq<u16>, cs2: seq<Container>) {
    && |keys1| == |cs1| && |keys2| == |cs2| && i <= |keys1|
    && forall p, q :: 0 <= p < i && 0 <= q < |keys2| && keys1[p] == keys2[q] ==> ContainerOps.Fitting(cs1[p], cs2[q])
  }

  /** The intersections under every common key do. */
  ghost predicate AllFit(keys1: seq<u16>, cs1: seq<Container>, keys2: seq<u16>, cs2: seq<Container>) {
    FitUpTo(keys1, cs1, |keys1|, keys2, cs2)
  }

  lemma FitNext(keys1: seq<u16>, cs1: seq<Container>, i: nat, keys2: seq<u16>, cs2: seq<Container>, j: nat)
    requires Sorted(keys2) && FitUpTo(keys1, cs1, i, keys2, cs2) && i < |keys1| && j < |keys2| && keys1[i] == keys2[j]
    ensures ContainerOps.Fitting(cs1[i], cs2[j]) ==> FitUpTo(keys1, cs1, i + 1, keys2, cs2)
    ensures !ContainerOps.Fitting(cs1[i], cs2[j]) ==> !AllFit(keys1, cs1, keys2, cs2)
  {
    hide ContainerOps.Fitting;
  }

  /** A slot between two of the other bitmap meets nothing. */
  lemma FitPass(op: Op, kk: seq<u16>, cc: seq<Container>, n: nat,
                keys1: seq<u16>, cs1: seq<Container>, i: nat, keys2: seq<u16>, cs2: seq<Container>, j: nat)
    requires Layout(keys1, cs1) && Layout(keys2, cs2) && Shrunk(op, kk, cc, n, keys1, cs1, i, keys2, cs2, j)
    requires FitUpTo(keys1, cs1, i, keys2, cs2) && i < |keys1| && (j < |keys2| ==> keys1[i] < keys2[j])
    ensures FitUpTo(keys1, cs1, i + 1, keys2, cs2)
  {
    hide ContainerOps.Fitting, Good;
    Apart(op, kk, cc, n, keys1, cs1, i, keys2, cs2, j);
    forall q | 0 <= q < |keys2| ensures keys1[i] != keys2[q] {
      if q < j { assert keys2[q] <= keys2[j - 1]; } else { assert keys2[j] <= keys2[q]; }
    }
  }

  lemma Apart(op: Op, kk: seq<u16>, cc: seq<Container>, n: nat,
              keys1: seq<u16>, cs1: seq<Container>, i: nat, keys2: seq<u16>, cs2: seq<Container>, j: nat)
    requires Shrunk(op, kk, cc, n, keys1, cs1, i, keys2, cs2, j)
    ensures i <= |keys1| && j <= |keys2| && (j > 0 && i < |keys1| ==> keys2[j - 1] < keys1[i])
  {
  }

  /** Nothing is left to meet. */
  lemma {:induction false} FitRest(kk: seq<u16>, cc: seq<Container>, n: nat,
                                   keys1: seq<u16>, cs1: seq<Container>, i: nat, keys2: seq<u16>, cs2: seq<Container>,
                                   j: nat)
    requires Layout(keys1, cs1) && Layout(keys2, cs2) && Shrunk(AndOp, kk, cc, n, keys1, cs1, i, keys2, cs2, j)
    requires FitUpTo(keys1, cs1, i, keys2, cs2) && (i == |keys1| || j == |keys2|)
    ensures AllFit(keys1, cs1, keys2, cs2)
  {
    hide ContainerOps.Fitting, Good;
    Apart(AndOp, kk, cc, n, keys1, cs1, i, keys2, cs2, j);
    forall p, q | i <= p < |keys1| && 0 <= q < |keys2| ensures keys1[p] != keys2[q] {
      assert keys2[q] <= keys2[j - 1] && keys1[i] <= keys1[p];
    }
  }

  /** One turn of the loop of `roaring_bitmap_and_inplace`: stops at an intersection that leaves its buffer. */
  method AndStep(x1: RoaringArray, x2: RoaringArray, n: nat, pos1: nat, pos2: nat,
                 ghost keys1: seq<u16>, ghost cs1: seq<Container>, ghost keys2: seq<u16>, ghost cs2: seq<Container>)
    returns (room: bool, n': nat, pos1': nat, pos2': nat)
    requires Layout(keys1, cs1) && Layout(keys2, cs2)
    requires x1.Fits() && Distinct(x1, x2) && Reads(x2, keys2, cs2) && pos1 < x1.size && pos2 < x2.size
    requires Shrunk(AndOp, x1.Keys(), x1.Slots(), n, keys1, cs1, pos1, keys2, cs2, pos2)
    requires FitUpTo(keys1, cs1, pos1, keys2, cs2)
    modifies x1.keys, x1.containers
    ensures x1.Fits() && Distinct(x1, x2) && Reads(x2, keys2, cs2) && pos1' <= x1.size && pos2' <= x2.size
    ensures room ==> Shrunk(AndOp, x1.Keys(), x1.Slots(), n', keys1, cs1, pos1', keys2, cs2, pos2')
    ensures if room then FitUpTo(keys1, cs1, pos1', keys2, cs2) else !AllFit(keys1, cs1, keys2, cs2)
    ensures room ==> pos1 <= pos1' && pos2 <= pos2' && pos1 + pos2 < pos1' + pos2'
  {
    hide Shrunk, Layout, Elems, SetOp, Leaves, Sorted, FitUpTo, AllFit;
    Bitmaps.LayoutIs(keys2, cs2);
    ghost var kk, cc := x1.Keys(), x1.Slots();
    ShrunkFacts(AndOp, kk, cc, n, keys1, cs1, pos1, keys2, cs2, pos2);
    var s1, s2 := x1.keys[pos1], x2.keys[pos2];
    assert s1 == kk[pos1] && s2 == keys2[pos2];
    room, n', pos1', pos2' := true, n, pos1, pos2;
    if s1 == s2 {
      assert x1.containers[pos1] == cc[pos1] && x2.containers[pos2] == cs2[pos2];
      var l;
      room, l := BothSlots(AndOp, x1.containers[pos1], x2.containers[pos2], keys1, cs1, pos1, keys2, cs2, pos2);
      FitNext(keys1, cs1, pos1, keys2, cs2, pos2);
      if !room {
        return;
      }
      ShrunkBoth(AndOp, kk, cc, n, keys1, cs1, pos1, keys2, cs2, pos2, l);
      if l.Just? {
        x1.Replace(n, s1, l.container);
        n' := n + 1;
      }
      pos1', pos2' := pos1 + 1, pos2 + 1;
    } else if s1 < s2 {
      pos1' := AdvanceFreeing(x1, s2, n, pos1, pos2, keys1, cs1, keys2, cs2);
    } else {
      pos2' := x2.AdvanceTo(s1, pos2);
      ShrunkSkip(AndOp, kk, cc, n, keys1, cs1, pos1, keys2, cs2, pos2, pos2');
    }
  }

  /** `ra_advance_until_freeing` */
  method AdvanceFreeing(x1: RoaringArray, x: u16, n: nat, from: nat, ghost j: nat,
                        ghost keys1: seq<u16>, ghost cs1: seq<Container>, ghost keys2: seq<u16>,
                        ghost cs2: seq<Container>)
    returns (pos: nat)
    requires Layout(keys1, cs1) && Layout(keys2, cs2) && x1.Fits() && j < |keys2| && x == keys2[j]
    requires from < x1.size && x1.keys[from] < x
    requires Shrunk(AndOp, x1.Keys(), x1.Slots(), n, keys1, cs1, from, keys2, cs2, j) &&
      FitUpTo(keys1, cs1, from, keys2, cs2)
    ensures from < pos <= x1.size && Shrunk(AndOp, x1.Keys(), x1.Slots(), n, keys1, cs1, pos, keys2, cs2, j)
    ensures FitUpTo(keys1, cs1, pos, keys2, cs2)
  {
    hide Shrunk, Layout, FitUpTo;
    pos := from;
    while pos < x1.size && x1.keys[pos] < x
      invariant from <= pos <= x1.size && (pos == from ==> x1.keys[from] < x)
      invariant Shrunk(AndOp, x1.Keys(), x1.Slots(), n, keys1, cs1, pos, keys2, cs2, j)
      invariant FitUpTo(keys1, cs1, pos, keys2, cs2)
    {
      assert x1.Keys()[pos] == x1.keys[pos];
      ShrunkFacts(AndOp, x1.Keys(), x1.Slots(), n, keys1, cs1, pos, keys2, cs2, j);
      FitPass(AndOp, x1.Keys(), x1.Slots(), n, keys1, cs1, pos, keys2, cs2, j);
      ShrunkFirst(AndOp, x1.Keys(), x1.Slots(), n, keys1, cs1, pos, keys2, cs2, j);
      pos := pos + 1;
    }
  }

  /** Nothing more of either operand contributes: the first `n` slots are the result. */
  lemma AndEnd(kk: seq<u16>, cc: seq<Container>, n: nat,
               keys1: seq<u16>, cs1: seq<Container>, i: nat, keys2: seq<u16>, cs2: seq<Container>, j: nat)
    requires Layout(keys1, cs1) && Layout(keys2, cs2) && Shrunk(AndOp, kk, cc, n, keys1, cs1, i, keys2, cs2, j)
    requires i == |keys1| || j == |keys2|
    ensures n <= |kk| == |cc| && Layout(kk[..n], cc[..n])
    ensures Whole(kk[..n], cc[..n]) == Whole(keys1, cs1) * Whole(keys2, cs2)
  {
    hide Combined, Layout, Whole;
    if i == |keys1| {
      CombinedDropRest(AndOp, kk[..n], cc[..n], keys1, cs1, keys2, cs2, j);
    } else {
      CombinedRest(AndOp, kk[..n], cc[..n], keys1, cs1, i, keys2, cs2);
    }
    CombinedDone(AndOp, kk[..n], cc[..n], keys1, cs1, keys2, cs2);
  }

  /**
   `roaring_bitmap_and_inplace` on distinct bitmaps. The intersection is right exactly when no container intersection
   leaves its buffer; `room` says so.
   */
  method AndInplace(x1: RoaringArray, x2: RoaringArray) returns (room: bool)
    requires x1.Valid() && x2.Valid() && Distinct(x1, x2)
    modifies x1`size, x1.keys, x1.containers
    ensures room <==> AllFit(old(x1.Keys()), old(x1.Slots()), old(x2.Keys()), old(x2.Slots()))
    ensures var keys1, cs1, keys2, cs2 := old(x1.Keys()), old(x1.Slots()), old(x2.Keys()), old(x2.Slots());
      (forall p, q :: 0 <= p < |keys1| && 0 <= q < |keys2| && keys1[p] == keys2[q] ==>
        && (cs1[p].RunC? && cs2[q].BitsetC? ==> |Elems(cs1[p])| > 4096 || |Elems(cs1[p])| <= |Elems(cs2[q])|)
        && (cs1[p].BitsetC? && cs2[q].RunC? ==> |Elems(cs2[q])| > 4096 || |Elems(cs2[q])| <= |Elems(cs1[p])|))
      ==> room
    ensures x1.Fits() && (room ==> x1.Valid() && x1.Values() == old(x1.Values()) * old(x2.Values()))
    ensures x2.Valid() && x2.Keys() == old(x2.Keys()) && x2.Slots() == old(x2.Slots())
  {
    hide Shrunk, Layout, Whole, FitUpTo, AllFit, Elems;
    ghost var keys1, cs1, keys2, cs2 := x1.Keys(), x1.Slots(), x2.Keys(), x2.Slots();
    Bitmaps.LayoutIs(keys1, cs1);
    Bitmaps.LayoutIs(keys2, cs2);
    HarmlessFit(keys1, cs1, keys2, cs2);
    var pos1: nat, pos2: nat, intersectionSize: nat := 0, 0, 0;
    ShrunkStart(AndOp, keys1, cs1, keys2, cs2);
    FitStart(keys1, cs1, keys2, cs2);
    while pos1 < x1.size && pos2 < x2.size
      invariant x1.Fits() && Distinct(x1, x2) && Reads(x2, keys2, cs2)
      invariant pos1 <= x1.size == |keys1| && pos2 <= x2.size
      invariant Shrunk(AndOp, x1.Keys(), x1.Slots(), intersectionSize, keys1, cs1, pos1, keys2, cs2, pos2)
      invariant FitUpTo(keys1, cs1, pos1, keys2, cs2)
      decreases x1.size - pos1 + x2.size - pos2
    {
      room, intersectionSize, pos1, pos2 := AndStep(x1, x2, intersectionSize, pos1, pos2, keys1, cs1, keys2, cs2);
      if !room {
        return;
      }
    }
    FitRest(x1.Keys(), x1.Slots(), intersectionSize, keys1, cs1, pos1, keys2, cs2, pos2);
    AndEnd(x1.Keys(), x1.Slots(), intersectionSize, keys1, cs1, pos1, keys2, cs2, pos2);
    x1.Downsize(intersectionSize);
    room := true;
  }

  lemma FitAll(keys1: seq<u16>, cs1: seq<Container>, keys2: seq<u16>, cs2: seq<Container>)
    requires |keys1| == |cs1| && |keys2| == |cs2|
    requires forall p, q :: 0 <= p < |keys1| && 0 <= q < |keys2| && keys1[p] == keys2[q] ==>
      ContainerOps.Fitting(cs1[p], cs2[q])
    ensures AllFit(keys1, cs1, keys2, cs2)
  {
    hide ContainerOps.Fitting;
  }

  /** Containers that always have room: of other kinds, of more than 4096 values, or of no more than the bitset. */
  lemma HarmlessFit(keys1: seq<u16>, cs1: seq<Container>, keys2: seq<u16>, cs2: seq<Container>)
    requires |keys1| == |cs1| && |keys2| == |cs2|
    ensures
      (forall p, q :: 0 <= p < |keys1| && 0 <= q < |keys2| && keys1[p] == keys2[q] ==>
        && (cs1[p].RunC? && cs2[q].BitsetC? ==> |Elems(cs1[p])| > 4096 || |Elems(cs1[p])| <= |Elems(cs2[q])|)
        && (cs1[p].BitsetC? && cs2[q].RunC? ==> |Elems(cs2[q])| > 4096 || |Elems(cs2[q])| <= |Elems(cs1[p])|))
      ==> AllFit(keys1, cs1, keys2, cs2)
  {
    hide Elems, AllFit, ContainerOps.Fitting;
    if forall p, q :: 0 <= p < |keys1| && 0 <= q < |keys2| && keys1[p] == keys2[q] ==>
        && (cs1[p].RunC? && cs2[q].BitsetC? ==> |Elems(cs1[p])| > 4096 || |Elems(cs1[p])| <= |Elems(cs2[q])|)
        && (cs1[p].BitsetC? && cs2[q].RunC? ==> |Elems(cs2[q])| > 4096 || |Elems(cs2[q])| <= |Elems(cs1[p])|)
    {
      forall p, q | 0 <= p < |keys1| && 0 <= q < |keys2| && keys1[p] == keys2[q]
        ensures ContainerOps.Fitting(cs1[p], cs2[q])
      {
        ContainerOps.FittingMeans(cs1[p], cs2[q]);
      }
      FitAll(keys1, cs1, keys2, cs2);
    }
  }

  lemma FitStart(keys1: seq<u16>, cs1: seq<Container>, keys2: seq<u16>, cs2: seq<Container>)
    requires |keys1| == |cs1| && |keys2| == |cs2|
    ensures FitUpTo(keys1, cs1, 0, keys2, cs2)
  {
  }

  /** One turn of the loop of `roaring_bitmap_andnot_inplace`. */
  method AndNotStep(x1: RoaringArray, x2: RoaringArray, n: nat, pos1: nat, pos2: nat,
                    ghost keys1: seq<u16>, ghost cs1: seq<Container>, ghost keys2: seq<u16>, ghost cs2: seq<Container>)
    returns (n': nat, pos1': nat, pos2': nat)
    requires Layout(keys1, cs1) && Layout(keys2, cs2)
    requires x1.Fits() && Distinct(x1, x2) && Reads(x2, keys2, cs2) && pos1 < x1.size && pos2 < x2.size
    requires Shrunk(AndNotOp, x1.Keys(), x1.Slots(), n, keys1, cs1, pos1, keys2, cs2, pos2)
    modifies x1.keys, x1.containers
    ensures x1.Fits() && Distinct(x1, x2) && Reads(x2, keys2, cs2) && pos1' <= x1.size && pos2' <= x2.size
    ensures Shrunk(AndNotOp, x1.Keys(), x1.Slots(), n', keys1, cs1, pos1', keys2, cs2, pos2')
    ensures pos1 <= pos1' && pos2 <= pos2' && pos1 + pos2 < pos1' + pos2'
  {
    hide Shrunk, Layout, Elems, SetOp, Leaves, Sorted;
    Bitmaps.LayoutIs(keys2, cs2);
    ghost var kk, cc := x1.Keys(), x1.Slots();
    ShrunkFacts(AndNotOp, kk, cc, n, keys1, cs1, pos1, keys2, cs2, pos2);
    var s1, s2 := x1.keys[pos1], x2.keys[pos2];
    assert s1 == kk[pos1] && s2 == keys2[pos2];
    n', pos1', pos2' := n, pos1, pos2;
    if s1 == s2 {
      assert x1.containers[pos1] == cc[pos1] && x2.containers[pos2] == cs2[pos2];
      var _, l := BothSlots(AndNotOp, x1.containers[pos1], x2.containers[pos2], keys1, cs1, pos1, keys2, cs2, pos2);
      ShrunkBoth(AndNotOp, kk, cc, n, keys1, cs1, pos1, keys2, cs2, pos2, l);
      if l.Just? {
        x1.Replace(n, s1, l.container);
        n' := n + 1;
      }
      pos1', pos2' := pos1 + 1, pos2 + 1;
    } else if s1 < s2 {
      ShrunkFirst(AndNotOp, kk, cc, n, keys1, cs1, pos1, keys2, cs2, pos2);
      if pos1 != n {
        assert x1.containers[pos1] == cc[pos1];
        x1.Replace(n, s1, x1.containers[pos1]);
      } else {
        assert kk[n := kk[pos1]] == kk && cc[n := cc[pos1]] == cc;
      }
      n', pos1' := n + 1, pos1 + 1;
    } else {
      pos2' := x2.AdvanceTo(s1, pos2);
      ShrunkSkip(AndNotOp, kk, cc, n, keys1, cs1, pos1, keys2, cs2, pos2, pos2');
    }
  }

  lemma AndNotEnd(kk: seq<u16>, cc: seq<Container>, n: nat,
                  keys1: seq<u16>, cs1: seq<Container>, i: nat, keys2: seq<u16>, cs2: seq<Container>, j: nat)
    requires Layout(keys1, cs1) && Layout(keys2, cs2) && Shrunk(AndNotOp, kk, cc, n, keys1, cs1, i, keys2, cs2, j)
    requires i == |keys1| || j == |keys2|
    ensures n <= i <= |kk| == |cc| && Layout(kk[..n] + kk[i..], cc[..n] + cc[i..])
    ensures Whole(kk[..n] + kk[i..], cc[..n] + cc[i..]) == Whole(keys1, cs1) - Whole(keys2, cs2)
  {
    hide Combined, Layout, Whole;
    if i == |keys1| {
      CombinedDropRest(AndNotOp, kk[..n], cc[..n], keys1, cs1, keys2, cs2, j);
      assert kk[..n] + kk[i..] == kk[..n] && cc[..n] + cc[i..] == cc[..n];
    } else {
      CombinedRest(AndNotOp, kk[..n], cc[..n], keys1, cs1, i, keys2, cs2);
    }
    CombinedDone(AndNotOp, kk[..n] + kk[i..], cc[..n] + cc[i..], keys1, cs1, keys2, cs2);
  }

  /** `roaring_bitmap_andnot_inplace` on distinct bitmaps. */
  method AndNotInplace(x1: RoaringArray, x2: RoaringArray)
    requires x1.Valid() && x2.Valid() && Distinct(x1, x2)
    modifies x1, x1.keys, x1.containers
    ensures x1.Valid() && x1.Values() == old(x1.Values()) - old(x2.Values())
    ensures x2.Valid() && x2.Keys() == old(x2.Keys()) && x2.Slots() == old(x2.Slots())
    ensures (x1.keys == old(x1.keys) || fresh(x1.keys)) && (x1.containers == old(x1.containers) || fresh(x1.containers))
  {
    hide Layout, Whole;
    ghost var keys1, cs1, keys2, cs2 := x1.Keys(), x1.Slots(), x2.Keys(), x2.Slots();
    Bitmaps.LayoutIs(keys1, cs1);
    Bitmaps.LayoutIs(keys2, cs2);
    EmptyOperand(AndNotOp, x1.Values());
    EmptyOperand(AndNotOp, x2.Values());
    if x2.size == 0 {
      NoSlots(keys2, cs2);
      return;
    }
    if x1.size == 0 {
      NoSlots(keys1, cs1);
      Clear(x1);
      return;
    }
    AndNotWalk(x1, x2, keys1, cs1, keys2, cs2);
  }

  /** The loop of `roaring_bitmap_andnot_inplace`, and the left slide of the rest. */
  method AndNotWalk(x1: RoaringArray, x2: RoaringArray,
                    ghost keys1: seq<u16>, ghost cs1: seq<Container>, ghost keys2: seq<u16>, ghost cs2: seq<Container>)
    requires Layout(keys1, cs1) && Layout(keys2, cs2) && Distinct(x1, x2)
    requires Reads(x1, keys1, cs1) && Reads(x2, keys2, cs2)
    modifies x1`size, x1.keys, x1.containers
    ensures x1.Valid() && x1.Values() == Whole(keys1, cs1) - Whole(keys2, cs2)
    ensures Reads(x2, keys2, cs2)
  {
    hide Shrunk, Layout, Whole;
    var length1 := x1.size;
    var pos1: nat, pos2: nat, intersectionSize: nat := 0, 0, 0;
    Bitmaps.LayoutIs(keys2, cs2);
    ShrunkStart(AndNotOp, keys1, cs1, keys2, cs2);
    while pos1 < length1 && pos2 < x2.size
      invariant x1.Fits() && Distinct(x1, x2) && Reads(x2, keys2, cs2)
      invariant pos1 <= x1.size == length1 == |keys1| && pos2 <= x2.size
      invariant Shrunk(AndNotOp, x1.Keys(), x1.Slots(), intersectionSize, keys1, cs1, pos1, keys2, cs2, pos2)
      decreases length1 - pos1 + x2.size - pos2
    {
      intersectionSize, pos1, pos2 := AndNotStep(x1, x2, intersectionSize, pos1, pos2, keys1, cs1, keys2, cs2);
    }
    AndNotEnd(x1.Keys(), x1.Slots(), intersectionSize, keys1, cs1, pos1, keys2, cs2, pos2);
    x1.CloseGap(intersectionSize, pos1);
  }

  /** `roaring_bitmap_clear` */
  method Clear(x: RoaringArray)
    requires x.Fits()
    modifies x
    ensures x.Valid() && x.Values() == {} && fresh(x.keys) && fresh(x.containers)
  {
    x.size := 0;
    x.Realloc(0);
    NoSlots(x.Keys(), x.Slots());
  }
}
