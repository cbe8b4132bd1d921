/** Unions of whole bitmaps that leave their containers lazy, and the repair afterwards. */
module LazyBitmaps {
  import opened IntSets
  import opened SortedArrays
  import opened Bitsets
  import opened BitsetOps
  import opened Runs
  import opened Containers
  import opened ContainerUpdates
  import opened LazyContainers
  import opened Slots
  import opened SlotMerges
  import opened RoaringArrays
  import opened BitmapOps
  import Bitmaps
  import ContainerOps

  // ---------- what a lazy container stands for ----------

  ghost predicate AllLazy(cs: seq<Container>) {
    forall i :: 0 <= i < |cs| ==> LazyGood(cs[i])
  }

  /** Keys strictly increase, no container is empty, and unknown cardinalities are marked as such. */
  ghost predicate LazyLayout(keys: seq<u16>, cs: seq<Container>) {
    |keys| == |cs| && Sorted(keys) && AllLazy(cs)
  }

  ghost predicate IsStandIn(d: Container, c: Container) {
    Good(d) && Elems(d) == Elems(c)
  }

  /** Every set of 16-bit values is that of a sorted array. */
  lemma {:induction false} SortedListing(s: set<int>, n: nat) returns (vals: seq<u16>)
    requires s <= Range(0, n) && n <= 0x1_0000
    ensures Sorted(vals) && Elements(vals) == s
    decreases n
  {
    hide Elements, Sorted;
    if n == 0 {
      vals := [];
      NothingListed(s);
    } else {
      vals := SortedListing(s - {n - 1}, n - 1);
      if n - 1 in s {
        LastBelow(vals, n - 1);
        SortedSnoc(vals, n - 1);
        ElementsSnoc(vals, n - 1);
        vals := vals + [n - 1];
        assert s - {n - 1} + {n - 1} == s;
      } else {
        assert s - {n - 1} == s;
      }
    }
  }

  lemma NothingListed(s: set<int>)
    requires s <= Range(0, 0)
    ensures Sorted([]) && Elements([]) == s
  {
  }

  lemma StandInExists(c: Container)
    requires LazyGood(c)
    ensures exists d :: IsStandIn(d, c)
  {
    hide BitSet, Denote, Canonical, Elements, Sorted;
    if c.BitsetC? {
      var s := BitSet(c.words);
      ElemsBounds(BitsetC(c.words, |s|));
      if |s| >= 2048 {
        assert IsStandIn(BitsetC(c.words, |s|), c);
      } else {
        var vals := SortedListing(s, 0x1_0000);
        SortedSize(vals);
        assert IsStandIn(ArrayC(vals), c);
      }
    } else {
      assert IsStandIn(c, c);
    }
  }

  /** A container of the same set that satisfies the full invariant. */
  ghost function StandIn(c: Container): (d: Container)
    ensures LazyGood(c) ==> IsStandIn(d, c)
  {
    if LazyGood(c) then
      StandInExists(c);
      var d :| IsStandIn(d, c); d
    else c
  }

  ghost function Shadow(cs: seq<Container>): (ds: seq<Container>)
    ensures |ds| == |cs|
  {
    seq(|cs|, i requires 0 <= i < |cs| => StandIn(cs[i]))
  }

  lemma ShadowGood(keys: seq<u16>, cs: seq<Container>)
    requires LazyLayout(keys, cs)
    ensures |keys| == |cs| && Layout(keys, Shadow(cs))
  {
  }

  lemma StandInIs(c: Container)
    ensures LazyGood(c) ==> Good(StandIn(c)) && Elems(StandIn(c)) == Elems(c)
  {
  }

  /** The shadow of a list of slots stands for the same set. */
  lemma ShadowWhole(keys: seq<u16>, cs: seq<Container>)
    requires |keys| == |cs| && AllLazy(cs)
    ensures Whole(keys, Shadow(cs)) == Whole(keys, cs)
  {
    hide At;
    forall k | 0 <= k < 0x1_0000 ensures At(keys, Shadow(cs), k) == At(keys, cs, k) { ShadowAt(keys, cs, k); }
    WholeSame(keys, Shadow(cs), keys, cs);
  }

  lemma {:induction false} ShadowAt(keys: seq<u16>, cs: seq<Container>, k: int)
    requires |keys| == |cs| && AllLazy(cs)
    ensures At(keys, Shadow(cs), k) == At(keys, cs, k)
    decreases |keys|
  {
    hide Elems, StandIn, LazyGood;
    if keys != [] {
      var n := |keys| - 1;
      assert LazyGood(cs[n]);
      StandInIs(cs[n]);
      assert Shadow(cs)[..n] == Shadow(cs[..n]);
      ShadowAt(keys[..n], cs[..n], k);
    }
  }

  lemma ShadowConcat(cs: seq<Container>, ds: seq<Container>)
    ensures Shadow(cs + ds) == Shadow(cs) + Shadow(ds)
  {
  }

  lemma ShadowOne(c: Container)
    ensures Shadow([c]) == [StandIn(c)]
  {
  }

  /** The shadows of the changes that the walk makes. */
  lemma ShadowPut(cs: seq<Container>, p: nat, c: Container)
    requires p < |cs|
    ensures Shadow(cs)[p] == StandIn(cs[p]) && Shadow(cs[p := c]) == Shadow(cs)[p := StandIn(c)]
  {
  }

  lemma ShadowWedge(cs: seq<Container>, p: nat, c: Container)
    requires p <= |cs|
    ensures Shadow(cs[..p] + [c] + cs[p..]) == Shadow(cs)[..p] + [StandIn(c)] + Shadow(cs)[p..]
  {
  }

  lemma AllLazyAt(cs: seq<Container>, i: nat)
    requires AllLazy(cs) && i < |cs|
    ensures LazyGood(cs[i])
  {
  }

  lemma AllLazyPut(cs: seq<Container>, p: nat, c: Container)
    requires AllLazy(cs) && LazyGood(c)
    ensures p < |cs| ==> AllLazy(cs[p := c])
    ensures p <= |cs| ==> AllLazy(cs[..p] + [c] + cs[p..])
    ensures AllLazy(cs + [c])
  {
  }

  lemma LazyLayoutIs(keys: seq<u16>, cs: seq<Container>)
    requires LazyLayout(keys, cs)
    ensures |keys| == |cs| && Sorted(keys) && AllLazy(cs)
  {
  }

  lemma LayoutIsLazy(keys: seq<u16>, cs: seq<Container>)
    requires Layout(keys, cs)
    ensures LazyLayout(keys, cs)
  {
  }

  /** A lazy union of two containers, as the walk over the shadows sees it. */
  lemma UnionLeaves(c: Container, c1: Container, c2: Container)
    requires LazyGood(c1) && LazyGood(c2) && LazyUnion(c, c1, c2)
    ensures LazyGood(c) && Dense(StandIn(c))
    ensures Leaves(Just(StandIn(c)), SetOp(OrOp, Elems(StandIn(c1)), Elems(StandIn(c2))))
  {
  }

  /** A bitmap under lazy operations. */
  ghost predicate LazyBitmap(x: RoaringArray)
    reads x, x.keys, x.containers
  {
    x.Fits() && LazyLayout(x.Keys(), x.Slots())
  }

  // ---------- in place ----------

  /** The walk of an in-place union, over the shadows of the containers. */
  ghost predicate LazyWalk(kk: seq<u16>, cc: seq<Container>, pos1: nat,
                           keys1: seq<u16>, cs1: seq<Container>, i: nat, keys2: seq<u16>, cs2: seq<Container>, j: nat)
  {
    |kk| == |cc| && AllLazy(cc) && Walk(OrOp, kk, Shadow(cc), pos1, keys1, Shadow(cs1), i, keys2, Shadow(cs2), j)
  }

  lemma LazyWalkFacts(kk: seq<u16>, cc: seq<Container>, pos1: nat,
                      keys1: seq<u16>, cs1: seq<Container>, i: nat, keys2: seq<u16>, cs2: seq<Container>, j: nat)
    requires LazyWalk(kk, cc, pos1, keys1, cs1, i, keys2, cs2, j)
    ensures pos1 <= |kk| == |cc| && i <= |keys1| == |cs1| && j <= |keys2| == |cs2| && |kk| - pos1 == |keys1| - i
    ensures pos1 < |kk| ==> kk[pos1] == keys1[i]
    ensures AllLazy(cc)
  {
  }

  lemma LazyWalkKeep(kk: seq<u16>, cc: seq<Container>, pos1: nat,
                     keys1: seq<u16>, cs1: seq<Container>, i: nat, keys2: seq<u16>, cs2: seq<Container>, j: nat)
    requires LazyLayout(keys1, cs1) && LazyLayout(keys2, cs2) && LazyWalk(kk, cc, pos1, keys1, cs1, i, keys2, cs2, j)
    requires pos1 < |kk| && (j < |keys2| ==> kk[pos1] < keys2[j])
    ensures LazyWalk(kk, cc, pos1 + 1, keys1, cs1, i + 1, keys2, cs2, j)
  {
    hide Walk, AllLazy, LazyLayout, Layout, Shadow;
    ShadowGood(keys1, cs1);
    ShadowGood(keys2, cs2);
    WalkKeep(OrOp, kk, Shadow(cc), pos1, keys1, Shadow(cs1), i, keys2, Shadow(cs2), j);
  }

  lemma LazyWalkPut(kk: seq<u16>, cc: seq<Container>, pos1: nat,
                    keys1: seq<u16>, cs1: seq<Container>, i: nat, keys2: seq<u16>, cs2: seq<Container>, j: nat,
                    c: Container)
    requires LazyLayout(keys1, cs1) && LazyLayout(keys2, cs2) && LazyWalk(kk, cc, pos1, keys1, cs1, i, keys2, cs2, j)
    requires pos1 < |kk| && j < |keys2| && kk[pos1] == keys2[j] && LazyUnion(c, cc[pos1], cs2[j])
    ensures LazyWalk(kk, cc[pos1 := c], pos1 + 1, keys1, cs1, i + 1, keys2, cs2, j + 1)
  {
    hide Walk, AllLazy, LazyLayout, Layout, Shadow, StandIn, LazyUnion, Leaves, Elems, SetOp, LazyGood;
    LazyLayoutIs(keys2, cs2);
    ShadowGood(keys1, cs1);
    ShadowGood(keys2, cs2);
    WalkFacts(OrOp, kk, Shadow(cc), pos1, keys1, Shadow(cs1), i, keys2, Shadow(cs2), j);
    AllLazyAt(cc, pos1);
    AllLazyAt(cs2, j);
    UnionLeaves(c, cc[pos1], cs2[j]);
    ShadowPut(cc, pos1, c);
    ShadowPut(cs2, j, c);
    AllLazyPut(cc, pos1, c);
    WalkPut(OrOp, kk, Shadow(cc), pos1, keys1, Shadow(cs1), i, keys2, Shadow(cs2), j, StandIn(c));
  }

  lemma LazyWalkInsert(kk: seq<u16>, cc: seq<Container>, pos1: nat,
                       keys1: seq<u16>, cs1: seq<Container>, i: nat, keys2: seq<u16>, cs2: seq<Container>, j: nat)
    requires LazyLayout(keys1, cs1) && LazyLayout(keys2, cs2) && LazyWalk(kk, cc, pos1, keys1, cs1, i, keys2, cs2, j)
    requires j < |keys2| && (pos1 < |kk| ==> keys2[j] < kk[pos1])
    ensures |keys2| == |cs2| && pos1 <= |kk| == |cc|
    ensures LazyWalk(kk[..pos1] + [keys2[j]] + kk[pos1..], cc[..pos1] + [cs2[j]] + cc[pos1..], pos1 + 1,
                     keys1, cs1, i, keys2, cs2, j + 1)
    ensures |kk| < MAX_CONTAINERS
  {
    hide Walk, AllLazy, LazyLayout, Layout, Shadow, StandIn, LazyGood;
    LazyLayoutIs(keys2, cs2);
    ShadowGood(keys1, cs1);
    ShadowGood(keys2, cs2);
    WalkFacts(OrOp, kk, Shadow(cc), pos1, keys1, Shadow(cs1), i, keys2, Shadow(cs2), j);
    AllLazyAt(cs2, j);
    ShadowPut(cs2, j, cs2[j]);
    ShadowWedge(cc, pos1, cs2[j]);
    AllLazyPut(cc, pos1, cs2[j]);
    WalkInsert(OrOp, kk, Shadow(cc), pos1, keys1, Shadow(cs1), i, keys2, Shadow(cs2), j);
  }

  lemma LazyWalkStart(keys1: seq<u16>, cs1: seq<Container>, keys2: seq<u16>, cs2: seq<Container>)
    requires LazyLayout(keys1, cs1) && LazyLayout(keys2, cs2)
    ensures LazyWalk(keys1, cs1, 0, keys1, cs1, 0, keys2, cs2, 0)
  {
  }

  lemma LazyWalkEnd(kk: seq<u16>, cc: seq<Container>, pos1: nat,
                    keys1: seq<u16>, cs1: seq<Container>, i: nat, keys2: seq<u16>, cs2: seq<Container>)
    requires LazyLayout(keys1, cs1) && LazyLayout(keys2, cs2)
    requires LazyWalk(kk, cc, pos1, keys1, cs1, i, keys2, cs2, |keys2|)
    ensures |keys1| == |cs1| && |keys2| == |cs2|
    ensures LazyLayout(kk, cc) && Whole(kk, cc) == Whole(keys1, cs1) + Whole(keys2, cs2)
  {
    hide Walk, AllLazy, Sorted, Layout, Shadow, Whole;
    ShadowGood(keys1, cs1);
    ShadowGood(keys2, cs2);
    WalkEnd(OrOp, kk, Shadow(cc), pos1, keys1, Shadow(cs1), i, keys2, Shadow(cs2));
    Bitmaps.LayoutIs(kk, Shadow(cc));
    ShadowWhole(keys1, cs1);
    ShadowWhole(keys2, cs2);
    ShadowWhole(kk, cc);
  }

  /** The containers of a common key: a container known to be full is left alone. */
  method BothInplace(c1: Container, c2: Container) returns (c: Container)
    requires LazyGood(c1) && LazyGood(c2)
    ensures LazyUnion(c, c1, c2)
  {
    hide LazyGood, Elems;
    var full := IsFull(c1);
    if full {
      LazyBounds(c2);
      FullOr(Elems(c2));
      c := c1;
    } else {
      c := LazyIor(c1, c2);
    }
  }

  lemma LazyBounds(c: Container)
    requires LazyGood(c)
    ensures Elems(c) <= Range(0, 0x1_0000)
  {
    hide BitSet, Denote, Canonical, Elements, Sorted;
    ElemsBounds(if c.BitsetC? then BitsetC(c.words, |BitSet(c.words)|) else c);
  }

  /** One turn of the loop of `roaring_bitmap_lazy_or_inplace`. */
  method LazyWalkStep(x1: RoaringArray, x2: RoaringArray, pos1: nat, pos2: nat,
                      ghost keys1: seq<u16>, ghost cs1: seq<Container>, ghost i: nat,
                      ghost keys2: seq<u16>, ghost cs2: seq<Container>)
    returns (pos1': nat, pos2': nat, ghost i': nat)
    requires LazyLayout(keys1, cs1) && LazyLayout(keys2, cs2)
    requires x1.Fits() && Distinct(x1, x2) && Reads(x2, keys2, cs2) && pos1 < x1.size && pos2 < x2.size
    requires LazyWalk(x1.Keys(), x1.Slots(), pos1, keys1, cs1, i, keys2, cs2, pos2)
    modifies x1, x1.keys, x1.containers
    ensures x1.Fits() && Distinct(x1, x2) && Reads(x2, keys2, cs2) && pos1' <= x1.size && pos2' <= x2.size
    ensures (x1.keys == old(x1.keys) || fresh(x1.keys)) && (x1.containers == old(x1.containers) || fresh(x1.containers))
    ensures LazyWalk(x1.Keys(), x1.Slots(), pos1', keys1, cs1, i', keys2, cs2, pos2')
    ensures i <= i' && pos2 <= pos2' && i + pos2 < i' + pos2' && i' <= |keys1|
  {
    hide LazyWalk, LazyLayout, LazyUnion, LazyGood, AllLazy;
    ghost var kk, cc := x1.Keys(), x1.Slots();
    LazyWalkFacts(kk, cc, pos1, keys1, cs1, i, keys2, cs2, pos2);
    LazyLayoutIs(keys2, cs2);
    var s1, s2 := x1.keys[pos1], x2.keys[pos2];
    var c2 := x2.containers[pos2];
    assert s1 == kk[pos1] && s2 == keys2[pos2] && c2 == cs2[pos2];
    if s1 == s2 {
      var c1 := x1.containers[pos1];
      assert c1 == cc[pos1];
      AllLazyAt(cc, pos1);
      AllLazyAt(cs2, pos2);
      var c := BothInplace(c1, c2);
      LazyWalkPut(kk, cc, pos1, keys1, cs1, i, keys2, cs2, pos2, c);
      x1.SetContainer(pos1, c);
      pos1', pos2', i' := pos1 + 1, pos2 + 1, i + 1;
    } else if s1 < s2 {
      LazyWalkKeep(kk, cc, pos1, keys1, cs1, i, keys2, cs2, pos2);
      pos1', pos2', i' := pos1 + 1, pos2, i + 1;
    } else {
      LazyWalkInsert(kk, cc, pos1, keys1, cs1, i, keys2, cs2, pos2);
      x1.InsertAt(pos1, s2, c2);
      pos1', pos2', i' := pos1 + 1, pos2 + 1, i;
    }
  }

  /** `ra_append_copy_range` in an in-place lazy union. */
  method LazyAppend(x1: RoaringArray, x2: RoaringArray, start: nat,
                    ghost keys1: seq<u16>, ghost cs1: seq<Container>, ghost keys2: seq<u16>, ghost cs2: seq<Container>)
    requires LazyLayout(keys1, cs1) && LazyLayout(keys2, cs2)
    requires x1.Fits() && Distinct(x1, x2) && Reads(x2, keys2, cs2) && start <= x2.size
    requires LazyWalk(x1.Keys(), x1.Slots(), x1.size, keys1, cs1, |keys1|, keys2, cs2, start)
    modifies x1, x1.keys, x1.containers
    ensures x1.Fits() && Distinct(x1, x2) && Reads(x2, keys2, cs2)
    ensures LazyWalk(x1.Keys(), x1.Slots(), x1.size, keys1, cs1, |keys1|, keys2, cs2, |keys2|)
    ensures (x1.keys == old(x1.keys) || fresh(x1.keys)) && (x1.containers == old(x1.containers) || fresh(x1.containers))
  {
    hide LazyWalk, LazyLayout;
    var i := start;
    while i < x2.size
      invariant start <= i <= x2.size && x1.Fits() && Distinct(x1, x2) && Reads(x2, keys2, cs2)
      invariant (x1.keys == old(x1.keys) || fresh(x1.keys))
      invariant (x1.containers == old(x1.containers) || fresh(x1.containers))
      invariant LazyWalk(x1.Keys(), x1.Slots(), x1.size, keys1, cs1, |keys1|, keys2, cs2, i)
    {
      ghost var kk, cc := x1.Keys(), x1.Slots();
      LazyWalkInsert(kk, cc, x1.size, keys1, cs1, |keys1|, keys2, cs2, i);
      assert x2.keys[i] == keys2[i] && x2.containers[i] == cs2[i];
      assert kk[..x1.size] + [keys2[i]] + kk[x1.size..] == kk + [keys2[i]];
      assert cc[..x1.size] + [cs2[i]] + cc[x1.size..] == cc + [cs2[i]];
      x1.Append(x2.keys[i], x2.containers[i]);
      i := i + 1;
    }
  }

  /** `roaring_bitmap_lazy_or_inplace` */
  method LazyOrInplace(x1: RoaringArray, x2: RoaringArray)
    requires LazyBitmap(x1) && LazyBitmap(x2) && Distinct(x1, x2)
    modifies x1, x1.keys, x1.containers
    ensures LazyBitmap(x1) && Distinct(x1, x2) && x1.Values() == old(x1.Values()) + old(x2.Values())
    ensures x2.Fits() && x2.Keys() == old(x2.Keys()) && x2.Slots() == old(x2.Slots())
    ensures (x1.keys == old(x1.keys) || fresh(x1.keys)) && (x1.containers == old(x1.containers) || fresh(x1.containers))
  {
    hide LazyWalk, LazyLayout, Whole;
    ghost var keys1, cs1, keys2, cs2 := x1.Keys(), x1.Slots(), x2.Keys(), x2.Slots();
    LazyLayoutIs(keys1, cs1);
    if x2.size == 0 {
      NoSlots(keys2, cs2);
      return;
    }
    if x1.size == 0 {
      NoSlots(keys1, cs1);
      Overwrite(x1, x2);
      return;
    }
    var pos1: nat, pos2: nat := 0, 0;
    ghost var i: nat := 0;
    LazyWalkStart(keys1, cs1, keys2, cs2);
    while pos1 < x1.size && pos2 < x2.size
      invariant x1.Fits() && Distinct(x1, x2) && Reads(x2, keys2, cs2)
      invariant pos1 <= x1.size && pos2 <= x2.size && i <= |keys1|
      invariant (x1.keys == old(x1.keys) || fresh(x1.keys))
      invariant (x1.containers == old(x1.containers) || fresh(x1.containers))
      invariant LazyWalk(x1.Keys(), x1.Slots(), pos1, keys1, cs1, i, keys2, cs2, pos2)
      decreases |keys1| - i + |keys2| - pos2
    {
      pos1, pos2, i := LazyWalkStep(x1, x2, pos1, pos2, keys1, cs1, i, keys2, cs2);
    }
    LazyWalkFacts(x1.Keys(), x1.Slots(), pos1, keys1, cs1, i, keys2, cs2, pos2);
    if pos1 == x1.size {
      LazyAppend(x1, x2, pos2, keys1, cs1, keys2, cs2);
      LazyWalkEnd(x1.Keys(), x1.Slots(), x1.size, keys1, cs1, |keys1|, keys2, cs2);
    } else {
      LazyWalkEnd(x1.Keys(), x1.Slots(), pos1, keys1, cs1, i, keys2, cs2);
    }
  }

  // ---------- into a new bitmap ----------

  /** The slots appended so far are the union of the slots passed. */
  ghost predicate Merging(outK: seq<u16>, outC: seq<Container>,
                          keys1: seq<u16>, cs1: seq<Container>, i: nat, keys2: seq<u16>, cs2: seq<Container>, j: nat)
  {
    AllLazy(outC) && Combined(OrOp, outK, Shadow(outC), keys1, Shadow(cs1), i, keys2, Shadow(cs2), j)
  }

  lemma MergingFacts(outK: seq<u16>, outC: seq<Container>,
                     keys1: seq<u16>, cs1: seq<Container>, i: nat, keys2: seq<u16>, cs2: seq<Container>, j: nat)
    requires Merging(outK, outC, keys1, cs1, i, keys2, cs2, j)
    ensures |keys1| == |cs1| && |keys2| == |cs2| && |outK| == |outC| <= MAX_CONTAINERS && i <= |keys1| && j <= |keys2|
  {
    hide Combined, Layout, Shadow;
    CombinedFacts(OrOp, outK, Shadow(outC), keys1, Shadow(cs1), i, keys2, Shadow(cs2), j);
    Bitmaps.LayoutIs(outK, Shadow(outC));
    SortedRoom(outK);
  }

  lemma MergingStart(keys1: seq<u16>, cs1: seq<Container>, keys2: seq<u16>, cs2: seq<Container>)
    requires |keys1| == |cs1| && |keys2| == |cs2|
    ensures Merging([], [], keys1, cs1, 0, keys2, cs2, 0)
  {
  }

  /** The union does not depend on the order of its operands. */
  lemma MergingSwap(outK: seq<u16>, outC: seq<Container>,
                    keys1: seq<u16>, cs1: seq<Container>, i: nat, keys2: seq<u16>, cs2: seq<Container>, j: nat)
    requires Merging(outK, outC, keys1, cs1, i, keys2, cs2, j)
    ensures Merging(outK, outC, keys2, cs2, j, keys1, cs1, i)
  {
  }

  /** A slot of the first operand alone. */
  lemma MergingFirst(outK: seq<u16>, outC: seq<Container>,
                     keys1: seq<u16>, cs1: seq<Container>, i: nat, keys2: seq<u16>, cs2: seq<Container>, j: nat)
    requires LazyLayout(keys1, cs1) && LazyLayout(keys2, cs2) && Merging(outK, outC, keys1, cs1, i, keys2, cs2, j)
    requires i < |keys1| && (j < |keys2| ==> keys1[i] < keys2[j])
    ensures |keys1| == |cs1|
    ensures Merging(outK + [keys1[i]], outC + [cs1[i]], keys1, cs1, i + 1, keys2, cs2, j)
  {
    hide Combined, Layout, LazyLayout, AllLazy, Shadow, StandIn, LazyGood;
    LazyLayoutIs(keys1, cs1);
    ShadowGood(keys1, cs1);
    ShadowGood(keys2, cs2);
    AllLazyAt(cs1, i);
    AllLazyPut(outC, 0, cs1[i]);
    ShadowPut(cs1, i, cs1[i]);
    ShadowConcat(outC, [cs1[i]]);
    ShadowOne(cs1[i]);
    CombinedFirst(OrOp, outK, Shadow(outC), keys1, Shadow(cs1), i, keys2, Shadow(cs2), j);
  }

  /** Both slots of a common key. */
  lemma MergingBoth(outK: seq<u16>, outC: seq<Container>,
                    keys1: seq<u16>, cs1: seq<Container>, i: nat, keys2: seq<u16>, cs2: seq<Container>, j: nat,
                    c: Container)
    requires LazyLayout(keys1, cs1) && LazyLayout(keys2, cs2) && Merging(outK, outC, keys1, cs1, i, keys2, cs2, j)
    requires i < |keys1| == |cs1| && j < |keys2| == |cs2| && keys1[i] == keys2[j] && LazyUnion(c, cs1[i], cs2[j])
    ensures Merging(outK + [keys1[i]], outC + [c], keys1, cs1, i + 1, keys2, cs2, j + 1)
  {
    hide Combined, Layout, LazyLayout, AllLazy, Shadow, StandIn, LazyGood, LazyUnion, Leaves, SetOp, Elems;
    LazyLayoutIs(keys1, cs1);
    LazyLayoutIs(keys2, cs2);
    ShadowGood(keys1, cs1);
    ShadowGood(keys2, cs2);
    AllLazyAt(cs1, i);
    AllLazyAt(cs2, j);
    UnionLeaves(c, cs1[i], cs2[j]);
    AllLazyPut(outC, 0, c);
    ShadowPut(cs1, i, c);
    ShadowPut(cs2, j, c);
    ShadowConcat(outC, [c]);
    ShadowOne(c);
    CombinedBoth(OrOp, outK, Shadow(outC), keys1, Shadow(cs1), i, keys2, Shadow(cs2), j, Just(StandIn(c)));
  }

  /** The rest of the first operand, once the second is used up. */
  lemma {:induction false} MergingRest(outK: seq<u16>, outC: seq<Container>,
                                       keys1: seq<u16>, cs1: seq<Container>, i: nat, keys2: seq<u16>,
                                       cs2: seq<Container>)
    requires LazyLayout(keys1, cs1) && LazyLayout(keys2, cs2)
    requires Merging(outK, outC, keys1, cs1, i, keys2, cs2, |keys2|) && i <= |keys1| == |cs1|
    ensures Merging(outK + keys1[i..], outC + cs1[i..], keys1, cs1, |keys1|, keys2, cs2, |keys2|)
    decreases |keys1| - i
  {
    hide Merging, LazyLayout;
    if i < |keys1| {
      MergingFirst(outK, outC, keys1, cs1, i, keys2, cs2, |keys2|);
      MergingRest(outK + [keys1[i]], outC + [cs1[i]], keys1, cs1, i + 1, keys2, cs2);
      assert outK + keys1[i..] == outK + [keys1[i]] + keys1[i + 1..];
      assert outC + cs1[i..] == outC + [cs1[i]] + cs1[i + 1..];
    } else {
      assert outK + keys1[i..] == outK && outC + cs1[i..] == outC;
    }
  }

  lemma MergingEnd(outK: seq<u16>, outC: seq<Container>,
                   keys1: seq<u16>, cs1: seq<Container>, keys2: seq<u16>, cs2: seq<Container>)
    requires LazyLayout(keys1, cs1) && LazyLayout(keys2, cs2)
    requires Merging(outK, outC, keys1, cs1, |keys1|, keys2, cs2, |keys2|)
    ensures |keys1| == |cs1| && |keys2| == |cs2|
    ensures LazyLayout(outK, outC) && Whole(outK, outC) == Whole(keys1, cs1) + Whole(keys2, cs2)
  {
    hide Combined, AllLazy, Sorted, Layout, Shadow, Whole;
    ShadowGood(keys1, cs1);
    ShadowGood(keys2, cs2);
    CombinedDone(OrOp, outK, Shadow(outC), keys1, Shadow(cs1), keys2, Shadow(cs2));
    Bitmaps.LayoutIs(outK, Shadow(outC));
    ShadowWhole(keys1, cs1);
    ShadowWhole(keys2, cs2);
    ShadowWhole(outK, outC);
  }

  lemma SliceNext<T>(out: seq<T>, s: seq<T>, start: nat, i: nat)
    requires start <= i < |s|
    ensures out + s[start..i + 1] == out + s[start..i] + [s[i]]
  {
  }

  lemma SliceBounds<T>(out: seq<T>, s: seq<T>, start: nat)
    requires start <= |s|
    ensures out + s[start..start] == out && s[start..|s|] == s[start..]
  {
  }

  method PushSlot(answer: RoaringArray, x: RoaringArray, i: nat, ghost start: nat,
                  ghost kk: seq<u16>, ghost cc: seq<Container>, ghost xk: seq<u16>, ghost xc: seq<Container>)
    requires answer.Fits() && Distinct(answer, x) && Reads(x, xk, xc) && start <= i < x.size
    requires answer.size < answer.keys.Length && answer.size < MAX_CONTAINERS
    requires answer.Keys() == kk + xk[start..i] && answer.Slots() == cc + xc[start..i]
    modifies answer`size, answer.keys, answer.containers
    ensures answer.Fits() && Reads(x, xk, xc) && answer.size == old(answer.size) + 1
    ensures answer.Keys() == kk + xk[start..i + 1] && answer.Slots() == cc + xc[start..i + 1]
  {
    assert x.keys[i] == xk[i] && x.containers[i] == xc[i];
    SliceNext(kk, xk, start, i);
    SliceNext(cc, xc, start, i);
    answer.Push(x.keys[i], x.containers[i]);
  }

  /** `ra_append_copy_range`, and `ra_append_move_range` of a bitmap that is given up. */
  method AppendRange(answer: RoaringArray, x: RoaringArray, start: nat)
    requires answer.Fits() && x.Fits() && Distinct(answer, x) && start <= x.size
    requires answer.size + x.size - start <= MAX_CONTAINERS
    modifies answer, answer.keys, answer.containers
    ensures answer.Fits() && Distinct(answer, x) && x.Fits() && x.Keys() == old(x.Keys()) && x.Slots() == old(x.Slots())
    ensures answer.Keys() == old(answer.Keys()) + x.Keys()[start..]
    ensures answer.Slots() == old(answer.Slots()) + x.Slots()[start..]
    ensures (answer.keys == old(answer.keys) || fresh(answer.keys))
    ensures (answer.containers == old(answer.containers) || fresh(answer.containers))
  {
    answer.ExtendArray(x.size - start);
    ghost var kk, cc, xk, xc := answer.Keys(), answer.Slots(), x.Keys(), x.Slots();
    SliceBounds(kk, xk, start);
    SliceBounds(cc, xc, start);
    var i := start;
    while i < x.size
      invariant start <= i <= x.size && answer.Fits() && Distinct(answer, x) && Reads(x, xk, xc)
      invariant answer.size == |kk| + i - start && answer.size + x.size - i <= answer.keys.Length
      invariant (answer.keys == old(answer.keys) || fresh(answer.keys))
      invariant (answer.containers == old(answer.containers) || fresh(answer.containers))
      invariant answer.Keys() == kk + xk[start..i] && answer.Slots() == cc + xc[start..i]
    {
      PushSlot(answer, x, i, start, kk, cc, xk, xc);
      i := i + 1;
    }
  }

  /** The containers of a common key; `lazyInputs` says which of the two functions asks. */
  method BothFresh(lazyInputs: bool, c1: Container, c2: Container) returns (c: Container)
    requires LazyGood(c1) && LazyGood(c2)
    ensures LazyUnion(c, c1, c2)
  {
    hide LazyGood, Elems;
    if !lazyInputs {
      c := LazyContainers.LazyOr(c1, c2);
    } else if c2.BitsetC? && !c1.BitsetC? {
      c := LazyIor(c2, c1);
      ContainerOps.UnionCommutes(Elems(c1), Elems(c2));
    } else {
      c := LazyIor(c1, c2);
    }
  }

  /** One turn of the loop of `roaring_bitmap_lazy_or` and `lazy_or_from_lazy_inputs`. */
  method MergeStep(lazyInputs: bool, answer: RoaringArray, x1: RoaringArray, x2: RoaringArray, pos1: nat, pos2: nat,
                   ghost keys1: seq<u16>, ghost cs1: seq<Container>, ghost keys2: seq<u16>, ghost cs2: seq<Container>)
    returns (pos1': nat, pos2': nat)
    requires LazyLayout(keys1, cs1) && LazyLayout(keys2, cs2) && answer.Fits()
    requires Distinct(answer, x1) && Distinct(answer, x2) && Reads(x1, keys1, cs1) && Reads(x2, keys2, cs2)
    requires pos1 < x1.size && pos2 < x2.size
    requires Merging(answer.Keys(), answer.Slots(), keys1, cs1, pos1, keys2, cs2, pos2)
    modifies answer, answer.keys, answer.containers
    ensures answer.Fits() && Distinct(answer, x1) && Distinct(answer, x2)
    ensures Reads(x1, keys1, cs1) && Reads(x2, keys2, cs2)
    ensures pos1 <= pos1' <= x1.size && pos2 <= pos2' <= x2.size && pos1 + pos2 < pos1' + pos2'
    ensures Merging(answer.Keys(), answer.Slots(), keys1, cs1, pos1', keys2, cs2, pos2')
    ensures (answer.keys == old(answer.keys) || fresh(answer.keys))
    ensures (answer.containers == old(answer.containers) || fresh(answer.containers))
  {
    hide Merging, LazyLayout, LazyUnion, LazyGood, AllLazy;
    ghost var kk, cc := answer.Keys(), answer.Slots();
    LazyLayoutIs(keys1, cs1);
    LazyLayoutIs(keys2, cs2);
    var s1, s2 := x1.keys[pos1], x2.keys[pos2];
    var c1, c2 := x1.containers[pos1], x2.containers[pos2];
    assert s1 == keys1[pos1] && s2 == keys2[pos2] && c1 == cs1[pos1] && c2 == cs2[pos2];
    pos1', pos2' := pos1, pos2;
    var s, c := s1, c1;
    if s1 == s2 {
      AllLazyAt(cs1, pos1);
      AllLazyAt(cs2, pos2);
      c := BothFresh(lazyInputs, c1, c2);
      MergingBoth(kk, cc, keys1, cs1, pos1, keys2, cs2, pos2, c);
      pos1', pos2' := pos1 + 1, pos2 + 1;
    } else if s1 < s2 {
      MergingFirst(kk, cc, keys1, cs1, pos1, keys2, cs2, pos2);
      pos1' := pos1 + 1;
    } else {
      s, c := s2, c2;
      MergingSwap(kk, cc, keys1, cs1, pos1, keys2, cs2, pos2);
      MergingFirst(kk, cc, keys2, cs2, pos2, keys1, cs1, pos1);
      MergingSwap(kk + [s2], cc + [c2], keys2, cs2, pos2 + 1, keys1, cs1, pos1);
      pos2' := pos2 + 1;
    }
    MergingFacts(kk + [s], cc + [c], keys1, cs1, pos1', keys2, cs2, pos2');
    answer.Append(s, c);
  }

  /** The loop over two bitmaps, both with slots, and the rest of the one that is left. */
  method Merge(lazyInputs: bool, capacity: nat, x1: RoaringArray, x2: RoaringArray) returns (answer: RoaringArray)
    requires LazyBitmap(x1) && LazyBitmap(x2)
    ensures fresh(answer) && fresh(answer.keys) && fresh(answer.containers) && LazyBitmap(answer)
    ensures answer.Values() == x1.Values() + x2.Values()
  {
    hide Merging, LazyLayout, Whole;
    ghost var keys1, cs1, keys2, cs2 := x1.Keys(), x1.Slots(), x2.Keys(), x2.Slots();
    LazyLayoutIs(keys1, cs1);
    LazyLayoutIs(keys2, cs2);
    answer := new RoaringArray.WithCapacity(capacity);
    var pos1: nat, pos2: nat := 0, 0;
    MergingStart(keys1, cs1, keys2, cs2);
    while pos1 < x1.size && pos2 < x2.size
      invariant answer.Fits() && fresh(answer) && fresh(answer.keys) && fresh(answer.containers)
      invariant Distinct(answer, x1) && Distinct(answer, x2) && Reads(x1, keys1, cs1) && Reads(x2, keys2, cs2)
      invariant pos1 <= x1.size && pos2 <= x2.size
      invariant Merging(answer.Keys(), answer.Slots(), keys1, cs1, pos1, keys2, cs2, pos2)
      decreases x1.size - pos1 + x2.size - pos2
    {
      pos1, pos2 := MergeStep(lazyInputs, answer, x1, x2, pos1, pos2, keys1, cs1, keys2, cs2);
    }
    ghost var kk, cc := answer.Keys(), answer.Slots();
    if pos1 == x1.size {
      MergingSwap(kk, cc, keys1, cs1, pos1, keys2, cs2, pos2);
      MergingRest(kk, cc, keys2, cs2, pos2, keys1, cs1);
      MergingSwap(kk + keys2[pos2..], cc + cs2[pos2..], keys2, cs2, |keys2|, keys1, cs1, |keys1|);
      MergingFacts(kk + keys2[pos2..], cc + cs2[pos2..], keys1, cs1, |keys1|, keys2, cs2, |keys2|);
      AppendRange(answer, x2, pos2);
    } else {
      MergingRest(kk, cc, keys1, cs1, pos1, keys2, cs2);
      MergingFacts(kk + keys1[pos1..], cc + cs1[pos1..], keys1, cs1, |keys1|, keys2, cs2, |keys2|);
      AppendRange(answer, x1, pos1);
    }
    MergingEnd(answer.Keys(), answer.Slots(), keys1, cs1, keys2, cs2);
  }

  /** `roaring_bitmap_copy` of a bitmap without copy-on-write. */
  method Copy(x: RoaringArray) returns (answer: RoaringArray)
    requires x.Fits()
    ensures fresh(answer) && fresh(answer.keys) && fresh(answer.containers)
    ensures answer.Fits() && answer.Keys() == x.Keys() && answer.Slots() == x.Slots()
  {
    answer := new RoaringArray.WithCapacity(x.size);
    answer.size := x.size;
    CopySlots(answer, x);
  }

  /** `roaring_bitmap_lazy_or` without conversion to bitsets. */
  method LazyOr(x1: RoaringArray, x2: RoaringArray) returns (answer: RoaringArray)
    requires LazyBitmap(x1) && LazyBitmap(x2)
    ensures fresh(answer) && fresh(answer.keys) && fresh(answer.containers) && LazyBitmap(answer)
    ensures answer.Values() == x1.Values() + x2.Values()
  {
    hide LazyLayout, Whole;
    LazyLayoutIs(x1.Keys(), x1.Slots());
    LazyLayoutIs(x2.Keys(), x2.Slots());
    if x1.size == 0 {
      NoSlots(x1.Keys(), x1.Slots());
      answer := Copy(x2);
      return;
    }
    if x2.size == 0 {
      NoSlots(x2.Keys(), x2.Slots());
      answer := Copy(x1);
      return;
    }
    answer := Merge(false, x1.size + x2.size, x1, x2);
  }

  /** `lazy_or_from_lazy_inputs`: an empty operand gives back the other one itself. */
  method LazyOrFromLazyInputs(x1: RoaringArray, x2: RoaringArray) returns (answer: RoaringArray)
    requires LazyBitmap(x1) && LazyBitmap(x2)
    ensures LazyBitmap(answer) && answer.Values() == x1.Values() + x2.Values()
    ensures answer == x1 || answer == x2 || (fresh(answer) && fresh(answer.keys) && fresh(answer.containers))
  {
    hide LazyLayout, Whole;
    LazyLayoutIs(x1.Keys(), x1.Slots());
    LazyLayoutIs(x2.Keys(), x2.Slots());
    if x1.size == 0 {
      NoSlots(x1.Keys(), x1.Slots());
      return x2;
    }
    if x2.size == 0 {
      NoSlots(x2.Keys(), x2.Slots());
      return x1;
    }
    var neededcap := if x1.size > x2.size then x2.size else x1.size;
    answer := Merge(true, neededcap, x1, x2);
  }

  // ---------- repair ----------

  /** `roaring_bitmap_repair_after_lazy` */
  method RepairAfterLazy(ra: RoaringArray)
    requires LazyBitmap(ra)
    modifies ra.containers
    ensures ra.Valid() && ra.Keys() == old(ra.Keys()) && ra.Values() == old(ra.Values())
  {
    hide Whole, LazyGood, Good, Elems, Sorted, Containers.Valid;
    ghost var keys, cs := ra.Keys(), ra.Slots();
    LazyLayoutIs(keys, cs);
    var i := 0;
    while i < ra.size
      invariant i <= ra.size && ra.Fits() && ra.Keys() == keys
      invariant forall j :: i <= j < ra.size ==> ra.containers[j] == cs[j]
      invariant forall j :: 0 <= j < i ==> Repaired(ra.containers[j], cs[j])
    {
      assert ra.containers[i] == cs[i];
      AllLazyAt(cs, i);
      LazyGoodIs(cs[i]);
      var c := ContainerUpdates.RepairAfterLazy(ra.containers[i]);
      Bitmaps.GoodIs(c);
      ra.containers[i] := c;
      i := i + 1;
    }
    RepairedWhole(keys, cs, ra.Slots());
  }

  lemma LazyGoodIs(c: Container)
    requires LazyGood(c)
    ensures LazyValid(c) && Elems(c) != {}
  {
  }

  ghost predicate Repaired(d: Container, c: Container) { Good(d) && Elems(d) == Elems(c) }

  lemma RepairedWhole(keys: seq<u16>, cs: seq<Container>, ds: seq<Container>)
    requires |keys| == |cs| == |ds| && Sorted(keys) && forall j :: 0 <= j < |ds| ==> Repaired(ds[j], cs[j])
    ensures Layout(keys, ds) && Whole(keys, ds) == Whole(keys, cs)
  {
    hide At, Good, Elems;
    forall k | 0 <= k < 0x1_0000 ensures At(keys, ds, k) == At(keys, cs, k) { SameAt(keys, cs, ds, k); }
    WholeSame(keys, ds, keys, cs);
  }

  lemma {:induction false} SameAt(keys: seq<u16>, cs: seq<Container>, ds: seq<Container>, k: int)
    requires |keys| == |cs| == |ds| && forall j :: 0 <= j < |ds| ==> Repaired(ds[j], cs[j])
    ensures At(keys, ds, k) == At(keys, cs, k)
    decreases |keys|
  {
    hide Elems, Good;
    if keys != [] {
      var n := |keys| - 1;
      assert Repaired(ds[n], cs[n]);
      SameAt(keys[..n], cs[..n], ds[..n], k);
    }
  }
}
