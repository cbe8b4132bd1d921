/** The walk over two lists of slots: what has been combined so far, key by key. */
module SlotMerges {
  import opened IntSets
  import opened SortedArrays
  import opened BitsetOps
  import opened Containers
  import opened ContainerUpdates
  import opened Slots
  import Bitmaps

  /**
   `outK`, `outC` are `op` applied to the first `i` slots of one bitmap and the first `j` of the other; every key that
   is still to come is larger.
   */
  ghost predicate Combined(op: Op, outK: seq<u16>, outC: seq<Container>,
                           keys1: seq<u16>, cs1: seq<Container>, i: nat, keys2: seq<u16>, cs2: seq<Container>, j: nat)
  {
    && |keys1| == |cs1| && |keys2| == |cs2| && i <= |keys1| && j <= |keys2| && |outK| <= i + j
    && Layout(outK, outC)
    && (outK != [] && i < |keys1| ==> outK[|outK| - 1] < keys1[i])
    && (outK != [] && j < |keys2| ==> outK[|outK| - 1] < keys2[j])
    && (i > 0 && j < |keys2| ==> keys1[i - 1] < keys2[j])
    && (j > 0 && i < |keys1| ==> keys2[j - 1] < keys1[i])
    && (forall k :: 0 <= k < 0x1_0000 ==>
          At(outK, outC, k) == SetOp(op, At(keys1[..i], cs1[..i], k), At(keys2[..j], cs2[..j], k)))
  }

  lemma CombinedFacts(op: Op, outK: seq<u16>, outC: seq<Container>,
                      keys1: seq<u16>, cs1: seq<Container>, i: nat, keys2: seq<u16>, cs2: seq<Container>, j: nat)
    requires Combined(op, outK, outC, keys1, cs1, i, keys2, cs2, j)
    ensures |keys1| == |cs1| && |keys2| == |cs2| && |outK| == |outC| && i <= |keys1| && j <= |keys2| && |outK| <= i + j
    ensures Layout(outK, outC)
  {
  }

  lemma SetOpEmpty(op: Op, s: set<int>)
    ensures SetOp(op, {}, {}) == {}
    ensures Holds(op, true, false) ==> SetOp(op, s, {}) == s
    ensures !Holds(op, true, false) ==> SetOp(op, s, {}) == {}
    ensures Holds(op, false, true) ==> SetOp(op, {}, s) == s
    ensures !Holds(op, false, true) ==> SetOp(op, {}, s) == {}
  {
  }

  /** The values that a step takes from one side. */
  ghost function Taken(take: bool, cs: seq<Container>, i: nat): set<int> {
    if take && i < |cs| then Elems(cs[i]) else {}
  }

  /** The step handles key `key`: it takes the next slot of one side, or of both when their keys agree. */
  ghost predicate Handles(key: int, keys1: seq<u16>, i: nat, take1: bool, keys2: seq<u16>, j: nat, take2: bool) {
    && (take1 || take2)
    && (if take1 then i < |keys1| && keys1[i] == key else i < |keys1| ==> key < keys1[i])
    && (if take2 then j < |keys2| && keys2[j] == key else j < |keys2| ==> key < keys2[j])
  }

  /** The slots before the step do not have the key it handles. */
  lemma KeyIsNew(op: Op, outK: seq<u16>, outC: seq<Container>,
                 keys1: seq<u16>, cs1: seq<Container>, i: nat, keys2: seq<u16>, cs2: seq<Container>, j: nat,
                 key: u16, take1: bool, take2: bool)
    requires Sorted(keys1) && Sorted(keys2) && Combined(op, outK, outC, keys1, cs1, i, keys2, cs2, j)
    requires Handles(key, keys1, i, take1, keys2, j, take2)
    ensures At(keys1[..i], cs1[..i], key) == {} && At(keys2[..j], cs2[..j], key) == {} && At(outK, outC, key) == {}
    ensures outK != [] ==> outK[|outK| - 1] < key
  {
    hide At, SetOp, Good, Elems;
    AtMissing(keys1[..i], cs1[..i], key);
    AtMissing(keys2[..j], cs2[..j], key);
    AtMissing(outK, outC, key);
  }

  lemma AtTaken(keys: seq<u16>, cs: seq<Container>, i: nat, take: bool, key: u16, k: int)
    requires |keys| == |cs| && i <= |keys| && (take ==> i < |keys| && keys[i] == key)
    ensures var i' := if take then i + 1 else i;
      At(keys[..i'], cs[..i'], k) == At(keys[..i], cs[..i], k) + (if k == key then Taken(take, cs, i) else {})
  {
    hide At, Elems;
    if take { AtPrefix(keys, cs, i, k); }
  }

  lemma OneKeySetOp(op: Op, a: set<int>, b: set<int>, c: set<int>, e1: set<int>, e2: set<int>, same: bool)
    requires c == SetOp(op, a, b) && (same ==> a == {} && b == {})
    ensures c + (if same then SetOp(op, e1, e2) else {})
         == SetOp(op, a + (if same then e1 else {}), b + (if same then e2 else {}))
  {
  }

  /** The step itself: `l` is what `op` leaves of the values taken. */
  lemma CombinedStep(op: Op, outK: seq<u16>, outC: seq<Container>,
                     keys1: seq<u16>, cs1: seq<Container>, i: nat, keys2: seq<u16>, cs2: seq<Container>, j: nat,
                     key: u16, take1: bool, take2: bool, l: Left)
    requires Sorted(keys1) && Sorted(keys2) && Combined(op, outK, outC, keys1, cs1, i, keys2, cs2, j)
    requires Handles(key, keys1, i, take1, keys2, j, take2)
    requires Leaves(l, SetOp(op, Taken(take1, cs1, i), Taken(take2, cs2, j))) && LeavesDense(l)
    ensures var i', j' := if take1 then i + 1 else i, if take2 then j + 1 else j;
      Combined(op, outK + WithKey(key, l), outC + WithContainer(l), keys1, cs1, i', keys2, cs2, j')
  {
    hide At, Elems, Good, SetOp, Taken, Layout;
    var i', j' := if take1 then i + 1 else i, if take2 then j + 1 else j;
    var outK', outC' := outK + WithKey(key, l), outC + WithContainer(l);
    KeyIsNew(op, outK, outC, keys1, cs1, i, keys2, cs2, j, key, take1, take2);
    CombinedFacts(op, outK, outC, keys1, cs1, i, keys2, cs2, j);
    forall k | 0 <= k < 0x1_0000
      ensures At(outK', outC', k) == SetOp(op, At(keys1[..i'], cs1[..i'], k), At(keys2[..j'], cs2[..j'], k))
    {
      AtTaken(keys1, cs1, i, take1, key, k);
      AtTaken(keys2, cs2, j, take2, key, k);
      AtLeft(outK, outC, key, l, k, SetOp(op, Taken(take1, cs1, i), Taken(take2, cs2, j)));
      OneKeySetOp(op, At(keys1[..i], cs1[..i], k), At(keys2[..j], cs2[..j], k), At(outK, outC, k),
                  Taken(take1, cs1, i), Taken(take2, cs2, j), k == key);
    }
    LayoutLeft(outK, outC, key, l, SetOp(op, Taken(take1, cs1, i), Taken(take2, cs2, j)));
    assert take1 && i' < |keys1| ==> keys1[i] < keys1[i'];
    assert take2 && j' < |keys2| ==> keys2[j] < keys2[j'];
  }

  function WithKey(key: u16, l: Left): seq<u16> { if l.Just? then [key] else [] }

  function WithContainer(l: Left): seq<Container> { if l.Just? then [l.container] else [] }

  lemma AtLeft(keys: seq<u16>, cs: seq<Container>, key: u16, l: Left, k: int, s: set<int>)
    requires |keys| == |cs| && Leaves(l, s)
    ensures At(keys + WithKey(key, l), cs + WithContainer(l), k) == At(keys, cs, k) + (if k == key then s else {})
  {
    hide At, Elems;
    match l {
      case Nothing =>
        assert keys + [] == keys && cs + [] == cs;
      case Just(c) =>
        AtSnoc(keys, cs, key, c, k);
    }
  }

  lemma LayoutLeft(keys: seq<u16>, cs: seq<Container>, key: u16, l: Left, s: set<int>)
    requires Layout(keys, cs) && Leaves(l, s) && LeavesDense(l) && (keys != [] ==> keys[|keys| - 1] < key)
    ensures Layout(keys + WithKey(key, l), cs + WithContainer(l))
  {
    hide Elems, Good, Layout;
    match l {
      case Nothing =>
        Bitmaps.LayoutIs(keys, cs);
        assert keys + [] == keys && cs + [] == cs;
      case Just(c) =>
        Bitmaps.GoodIs(c);
        Bitmaps.LayoutOne(key, c);
        Bitmaps.LayoutConcat(keys, cs, [key], [c]);
    }
  }

  /** One slot of the first bitmap, kept or dropped as the operation says. */
  lemma CombinedFirst(op: Op, outK: seq<u16>, outC: seq<Container>,
                      keys1: seq<u16>, cs1: seq<Container>, i: nat, keys2: seq<u16>, cs2: seq<Container>, j: nat)
    requires Layout(keys1, cs1) && Layout(keys2, cs2) && Combined(op, outK, outC, keys1, cs1, i, keys2, cs2, j)
    requires i < |keys1| && (j < |keys2| ==> keys1[i] < keys2[j])
    ensures Holds(op, true, false) ==>
      Combined(op, outK + [keys1[i]], outC + [cs1[i]], keys1, cs1, i + 1, keys2, cs2, j)
    ensures !Holds(op, true, false) ==> Combined(op, outK, outC, keys1, cs1, i + 1, keys2, cs2, j)
  {
    hide At, Elems, SetOp, Combined, Layout, Good, Sorted, Holds;
    Bitmaps.LayoutIs(keys1, cs1);
    Bitmaps.LayoutIs(keys2, cs2);
    Bitmaps.GoodAt(cs1, i);
    var l := if Holds(op, true, false) then Just(cs1[i]) else Nothing;
    SetOpEmpty(op, Elems(cs1[i]));
    CombinedStep(op, outK, outC, keys1, cs1, i, keys2, cs2, j, keys1[i], true, false, l);
    assert outK + [] == outK && outC + [] == outC;
  }

  /** One slot of the second bitmap. */
  lemma CombinedSecond(op: Op, outK: seq<u16>, outC: seq<Container>,
                       keys1: seq<u16>, cs1: seq<Container>, i: nat, keys2: seq<u16>, cs2: seq<Container>, j: nat)
    requires Layout(keys1, cs1) && Layout(keys2, cs2) && Combined(op, outK, outC, keys1, cs1, i, keys2, cs2, j)
    requires j < |keys2| && (i < |keys1| ==> keys2[j] < keys1[i])
    ensures Holds(op, false, true) ==>
      Combined(op, outK + [keys2[j]], outC + [cs2[j]], keys1, cs1, i, keys2, cs2, j + 1)
    ensures !Holds(op, false, true) ==> Combined(op, outK, outC, keys1, cs1, i, keys2, cs2, j + 1)
  {
    hide At, Elems, SetOp, Combined, Layout, Good, Sorted, Holds;
    Bitmaps.LayoutIs(keys1, cs1);
    Bitmaps.LayoutIs(keys2, cs2);
    Bitmaps.GoodAt(cs2, j);
    var l := if Holds(op, false, true) then Just(cs2[j]) else Nothing;
    SetOpEmpty(op, Elems(cs2[j]));
    CombinedStep(op, outK, outC, keys1, cs1, i, keys2, cs2, j, keys2[j], false, true, l);
    assert outK + [] == outK && outC + [] == outC;
  }

  /** Both slots, when their keys agree. */
  lemma CombinedBoth(op: Op, outK: seq<u16>, outC: seq<Container>,
                     keys1: seq<u16>, cs1: seq<Container>, i: nat, keys2: seq<u16>, cs2: seq<Container>, j: nat,
                     l: Left)
    requires Layout(keys1, cs1) && Layout(keys2, cs2) && Combined(op, outK, outC, keys1, cs1, i, keys2, cs2, j)
    requires i < |keys1| && j < |keys2| && keys1[i] == keys2[j]
    requires Leaves(l, SetOp(op, Elems(cs1[i]), Elems(cs2[j]))) && LeavesDense(l)
    ensures Combined(op, outK + WithKey(keys1[i], l), outC + WithContainer(l), keys1, cs1, i + 1, keys2, cs2, j + 1)
  {
    hide At, Elems, SetOp, Combined, Layout, Good, Sorted;
    Bitmaps.LayoutIs(keys1, cs1);
    Bitmaps.LayoutIs(keys2, cs2);
    CombinedStep(op, outK, outC, keys1, cs1, i, keys2, cs2, j, keys1[i], true, true, l);
  }

  /** The slots left of the first bitmap once the second is used up. */
  lemma {:induction false} CombinedRest(op: Op, outK: seq<u16>, outC: seq<Container>,
                                        keys1: seq<u16>, cs1: seq<Container>, i: nat, keys2: seq<u16>,
                                        cs2: seq<Container>)
    requires Layout(keys1, cs1) && Layout(keys2, cs2)
    requires Combined(op, outK, outC, keys1, cs1, i, keys2, cs2, |keys2|) && i <= |keys1| == |cs1|
    ensures Holds(op, true, false) ==>
      Combined(op, outK + keys1[i..], outC + cs1[i..], keys1, cs1, |keys1|, keys2, cs2, |keys2|)
    ensures !Holds(op, true, false) ==> Combined(op, outK, outC, keys1, cs1, |keys1|, keys2, cs2, |keys2|)
    decreases |keys1| - i
  {
    hide Combined, Layout, Holds;
    if i < |keys1| {
      CombinedFirst(op, outK, outC, keys1, cs1, i, keys2, cs2, |keys2|);
      if Holds(op, true, false) {
        CombinedRest(op, outK + [keys1[i]], outC + [cs1[i]], keys1, cs1, i + 1, keys2, cs2);
        assert outK + keys1[i..] == outK + [keys1[i]] + keys1[i + 1..];
        assert outC + cs1[i..] == outC + [cs1[i]] + cs1[i + 1..];
      } else {
        CombinedRest(op, outK, outC, keys1, cs1, i + 1, keys2, cs2);
      }
    } else {
      assert outK + keys1[i..] == outK && outC + cs1[i..] == outC;
    }
  }

  /** The slots left of the second bitmap once the first is used up, when the operation drops them. */
  lemma {:induction false} CombinedDropRest(op: Op, outK: seq<u16>, outC: seq<Container>,
                                            keys1: seq<u16>, cs1: seq<Container>,
                                            keys2: seq<u16>, cs2: seq<Container>, j: nat)
    requires Layout(keys1, cs1) && Layout(keys2, cs2) && !Holds(op, false, true)
    requires Combined(op, outK, outC, keys1, cs1, |keys1|, keys2, cs2, j) && j <= |keys2| == |cs2|
    ensures Combined(op, outK, outC, keys1, cs1, |keys1|, keys2, cs2, |keys2|)
    decreases |keys2| - j
  {
    hide Combined, Layout, Holds;
    if j < |keys2| {
      CombinedSecond(op, outK, outC, keys1, cs1, |keys1|, keys2, cs2, j);
      CombinedDropRest(op, outK, outC, keys1, cs1, keys2, cs2, j + 1);
    }
  }

  /** Slots of the second bitmap that a search jumps over. */
  lemma {:induction false} CombinedSkipSecond(op: Op, outK: seq<u16>, outC: seq<Container>,
                                              keys1: seq<u16>, cs1: seq<Container>, i: nat,
                                              keys2: seq<u16>, cs2: seq<Container>, j: nat, j': nat)
    requires Layout(keys1, cs1) && Layout(keys2, cs2) && Combined(op, outK, outC, keys1, cs1, i, keys2, cs2, j)
    requires !Holds(op, false, true) && i < |keys1| && j <= j' <= |keys2|
    requires forall k :: j <= k < j' ==> keys2[k] < keys1[i]
    ensures Combined(op, outK, outC, keys1, cs1, i, keys2, cs2, j')
    decreases j' - j
  {
    hide Combined, Layout, Holds;
    if j < j' {
      CombinedSecond(op, outK, outC, keys1, cs1, i, keys2, cs2, j);
      CombinedSkipSecond(op, outK, outC, keys1, cs1, i, keys2, cs2, j + 1, j');
    }
  }

  /** The finished walk. */
  lemma CombinedDone(op: Op, outK: seq<u16>, outC: seq<Container>,
                     keys1: seq<u16>, cs1: seq<Container>, keys2: seq<u16>, cs2: seq<Container>)
    requires |keys1| == |cs1| && |keys2| == |cs2|
    requires Combined(op, outK, outC, keys1, cs1, |keys1|, keys2, cs2, |keys2|)
    ensures Layout(outK, outC) && Whole(outK, outC) == SetOp(op, Whole(keys1, cs1), Whole(keys2, cs2))
  {
    hide At, SetOp, Whole;
    assert keys1[..|keys1|] == keys1 && cs1[..|cs1|] == cs1 && keys2[..|keys2|] == keys2 && cs2[..|cs2|] == cs2;
    WholeOp(op, outK, outC, keys1, cs1, keys2, cs2);
  }
}
