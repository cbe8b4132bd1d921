/** Cardinality, rank, select and bounds of a whole bitmap. */
module BitmapQueries {
  import opened IntSets
  import opened Ranks
  import opened Bitsets
  import opened Runs
  import opened Containers
  import opened Slots
  import opened RoaringArrays
  import Bitmaps
  import ContainerQueries

  // ---------- sizes, slot by slot ----------

  /** The first value under key `k`. */
  function Base(k: int): int { 0x1_0000 * k }

  /** The 32-bit values with high half `k` and low half in `e`. */
  function Lift(k: int, e: set<int>): set<int> {
    set v | v in e :: Base(k) + v
  }

  lemma LiftSize(k: int, e: set<int>)
    requires e <= Range(0, 0x1_0000)
    ensures |Lift(k, e)| == |e|
  {
    LiftBelow(k, e, 0x1_0000);
    assert Below(e, 0x1_0000) == e;
  }

  lemma {:induction false} LiftBelow(k: int, e: set<int>, n: nat)
    requires e <= Range(0, 0x1_0000)
    ensures |Lift(k, Below(e, n))| == |Below(e, n)|
    decreases n
  {
    if n == 0 {
      assert Below(e, 0) == {} && Lift(k, Below(e, 0)) == {};
    } else {
      LiftBelow(k, e, n - 1);
      var p := Below(e, n - 1);
      if n - 1 in e {
        assert Below(e, n) == p + {n - 1};
        LiftOneMore(k, p, n - 1);
      } else {
        assert Below(e, n) == p;
      }
    }
  }

  lemma NotLifted(k: int, p: set<int>, v: int)
    ensures Base(k) + v in Lift(k, p) <==> v in p
  {
  }

  lemma LiftOneMore(k: int, p: set<int>, v: int)
    requires v !in p
    ensures |Lift(k, p + {v})| == |Lift(k, p)| + 1
  {
    var q := Lift(k, p);
    NotLifted(k, p, v);
    assert Lift(k, p + {v}) == q + {Base(k) + v};
  }

  lemma InLift(k: int, e: set<int>, x: int)
    requires e <= Range(0, 0x1_0000)
    ensures x in Lift(k, e) <==> x / 0x1_0000 == k && x % 0x1_0000 in e
  {
  }

  /** The values below a point under key `keys[i]`: those of the slots before it, and part of its own. */
  lemma BelowSlot(keys: seq<u16>, cs: seq<Container>, i: nat, y: int)
    requires Layout(keys, cs) && i < |keys| && 0 <= y <= 0x1_0000
    ensures Below(Whole(keys, cs), Base(keys[i]) + y)
         == Whole(keys[..i], cs[..i]) + Lift(keys[i], Below(Elems(cs[i]), y))
    ensures |Below(Whole(keys, cs), Base(keys[i]) + y)|
         == |Whole(keys[..i], cs[..i])| + |Below(Elems(cs[i]), y)|
  {
    hide Elems, At, Good, Layout;
    Bitmaps.LayoutIs(keys, cs);
    Bitmaps.GoodAt(cs, i);
    ElemsBounds(cs[i]);
    var k, e: set<int> := keys[i] as int, Below(Elems(cs[i]), y);
    var p, q, r := Whole(keys[..i], cs[..i]), Lift(k, e), Below(Whole(keys, cs), Base(k) + y);
    forall x ensures (x in r <==> x in p || x in q) && !(x in p && x in q) {
      BelowSlotMember(keys, cs, i, y, x);
      InLift(k, e, x);
    }
    assert r == p + q;
    DisjointUnionSize(p, q);
    LiftSize(k, e);
  }

  lemma BelowSlotMember(keys: seq<u16>, cs: seq<Container>, i: nat, y: int, x: int)
    requires Layout(keys, cs) && i < |keys| && 0 <= y <= 0x1_0000
    ensures x in Whole(keys, cs) && x < Base(keys[i]) + y <==>
      x in Whole(keys[..i], cs[..i]) || (x / 0x1_0000 == keys[i] && x % 0x1_0000 in Elems(cs[i]) && x % 0x1_0000 < y)
    ensures x in Whole(keys[..i], cs[..i]) ==> x / 0x1_0000 < keys[i]
  {
    hide Elems, At, Good;
    var h: int := x / 0x1_0000;
    if h < keys[i] {
      AtBelow(keys, cs, i, h);
    } else {
      AtMissing(keys[..i], cs[..i], h);
      if h == keys[i] { AtIndex(keys, cs, i); }
    }
  }

  /** One more slot adds the cardinality of its container. */
  lemma WholeNext(keys: seq<u16>, cs: seq<Container>, i: nat)
    requires Layout(keys, cs) && i < |keys|
    ensures |Whole(keys[..i + 1], cs[..i + 1])| == |Whole(keys[..i], cs[..i])| + |Elems(cs[i])|
    ensures |Whole(keys[..i + 1], cs[..i + 1])| <= |Whole(keys, cs)|
  {
    hide Elems, At, Good, Whole, Layout;
    Bitmaps.LayoutIs(keys, cs);
    Bitmaps.GoodAt(cs, i);
    ElemsBounds(cs[i]);
    BelowSlot(keys, cs, i, 0x1_0000);
    assert Below(Elems(cs[i]), 0x1_0000) == Elems(cs[i]);
    WholePrefix(keys, cs, i + 1);
    BelowNextKey(keys, cs, i);
    SubsetSize(Whole(keys[..i + 1], cs[..i + 1]), Whole(keys, cs));
  }

  lemma WholePrefix(keys: seq<u16>, cs: seq<Container>, i: nat)
    requires Layout(keys, cs) && i <= |keys|
    ensures Whole(keys[..i], cs[..i]) <= Whole(keys, cs)
  {
    hide Elems, At, Good;
    var p, q := Whole(keys[..i], cs[..i]), Whole(keys, cs);
    forall x: int | x in p ensures x in q {
      if i < |keys| && keys[i] <= x / 0x1_0000 {
        AtMissing(keys[..i], cs[..i], x / 0x1_0000);
      } else {
        AtBelow(keys, cs, i, x / 0x1_0000);
      }
    }
  }

  /** Up to the next multiple of 65536, one slot more contributes. */
  lemma BelowNextKey(keys: seq<u16>, cs: seq<Container>, i: nat)
    requires Layout(keys, cs) && i < |keys|
    ensures Below(Whole(keys, cs), Base(keys[i]) + 0x1_0000) == Whole(keys[..i + 1], cs[..i + 1])
  {
    hide Elems, At, Good;
    var p, q := Below(Whole(keys, cs), Base(keys[i]) + 0x1_0000), Whole(keys[..i + 1], cs[..i + 1]);
    forall x ensures x in p <==> x in q {
      var h: int := x / 0x1_0000;
      if h <= keys[i] {
        AtBelow(keys, cs, i + 1, h);
      } else {
        AtMissing(keys[..i + 1], cs[..i + 1], h);
      }
    }
  }

  /** No slot has a key between the one before index `i` and the one at it. */
  lemma BelowGap(keys: seq<u16>, cs: seq<Container>, i: nat, x: int)
    requires Layout(keys, cs) && i <= |keys| && 0 <= x
    requires i > 0 ==> keys[i - 1] < x / 0x1_0000
    requires i < |keys| ==> x / 0x1_0000 < keys[i] || (x / 0x1_0000 == keys[i] && x % 0x1_0000 == 0)
    ensures Below(Whole(keys, cs), x) == Whole(keys[..i], cs[..i])
  {
    hide Elems, At, Good;
    var p, q := Below(Whole(keys, cs), x), Whole(keys[..i], cs[..i]);
    forall y ensures y in p <==> y in q {
      var h: int := y / 0x1_0000;
      if i == |keys| || h < keys[i] {
        AtBelow(keys, cs, i, h);
      }
      if i == 0 || keys[i - 1] < h {
        AtMissing(keys[..i], cs[..i], h);
      }
    }
  }

  lemma NoSlotsYet(keys: seq<u16>, cs: seq<Container>)
    requires |keys| == |cs|
    ensures Whole(keys[..0], cs[..0]) == {} && keys[..|keys|] == keys && cs[..|cs|] == cs
  {
  }

  // ---------- the queries ----------

  /** `roaring_bitmap_get_cardinality` */
  method Cardinality(r: RoaringArray) returns (card: nat)
    requires r.Valid()
    ensures card == |r.Values()|
  {
    hide Elems, Good, Whole, Layout;
    ghost var keys, cs := r.Keys(), r.Slots();
    Bitmaps.LayoutIs(keys, cs);
    NoSlotsYet(keys, cs);
    card := 0;
    var i := 0;
    while i < r.size
      invariant i <= r.size && card == |Whole(keys[..i], cs[..i])|
    {
      assert r.containers[i] == cs[i];
      Bitmaps.GoodAt(cs, i);
      WholeNext(keys, cs, i);
      var c := ContainerQueries.Cardinality(r.containers[i]);
      card := card + c;
      i := i + 1;
    }
  }

  lemma HighLow(x: u32)
    ensures x == Base(x / 0x1_0000) + x % 0x1_0000
  {
  }

  /** `roaring_bitmap_rank` */
  method Rank(r: RoaringArray, x: u32) returns (size: nat)
    requires r.Valid()
    ensures size == RankOf(r.Values(), x) == |set y | y in r.Values() && y <= x|
  {
    hide Elems, Good, Whole, Layout;
    RankIs(r.Values(), x);
    ghost var keys, cs := r.Keys(), r.Slots();
    Bitmaps.LayoutIs(keys, cs);
    NoSlotsYet(keys, cs);
    HighLow(x);
    size := 0;
    var xhigh := x / 0x1_0000;
    var i := 0;
    while i < r.size
      invariant i <= r.size && size == |Whole(keys[..i], cs[..i])|
      invariant i > 0 ==> keys[i - 1] < xhigh
    {
      var key := r.keys[i];
      assert key == keys[i] && r.containers[i] == cs[i];
      Bitmaps.GoodAt(cs, i);
      if xhigh > key {
        WholeNext(keys, cs, i);
        var c := ContainerQueries.Cardinality(r.containers[i]);
        size := size + c;
      } else if xhigh == key {
        BelowSlot(keys, cs, i, x % 0x1_0000 + 1);
        var c := ContainerQueries.Rank(r.containers[i], x % 0x1_0000);
        return size + c;
      } else {
        BelowGapRank(keys, cs, i, x);
        return;
      }
      i := i + 1;
    }
    BelowGapRank(keys, cs, i, x);
  }

  lemma BelowGapRank(keys: seq<u16>, cs: seq<Container>, i: nat, x: u32)
    requires Layout(keys, cs) && i <= |keys|
    requires (i > 0 ==> keys[i - 1] < x / 0x1_0000) && (i < |keys| ==> x / 0x1_0000 < keys[i])
    ensures RankOf(Whole(keys, cs), x) == |Whole(keys[..i], cs[..i])|
  {
    hide Whole;
    BelowGap(keys, cs, i, x + 1);
  }

  /**
   The one case in which selection fails: all values are set, the last container is no run list, and the value lies in
   it. The 32-bit rank behind that container is 0.
   */
  ghost predicate RankWraps(keys: seq<u16>, cs: seq<Container>, rank: int)
    requires |keys| == |cs|
  {
    cs != [] && |Whole(keys, cs)| == 0x1_0000_0000 && !cs[|cs| - 1].RunC? && rank >= 0x1_0000_0000 - 0x1_0000
  }

  lemma WrapsIs(keys: seq<u16>, cs: seq<Container>, rank: int)
    requires |keys| == |cs|
    ensures RankWraps(keys, cs, rank) <==>
      |Whole(keys, cs)| == 0x1_0000_0000 && rank >= 0xFFFF_0000 && |cs| > 0 && !cs[|cs| - 1].RunC?
  {
  }

  lemma RankIs(s: set<int>, x: int)
    ensures RankOf(s, x) == |set y | y in s && y <= x|
  {
    assert Below(s, x + 1) == set y | y in s && y <= x;
  }

  /** `roaring_bitmap_select` */
  method Select(r: RoaringArray, rank: u32) returns (valid: bool, element: u32)
    requires r.Valid()
    ensures valid <==> rank < |r.Values()| && !RankWraps(r.Keys(), r.Slots(), rank)
    ensures valid <==>
      && rank < |r.Values()|
      && (|r.Values()| == 0x1_0000_0000 && rank >= 0xFFFF_0000 && r.size > 0 ==> r.containers[r.size - 1].RunC?)
    ensures valid ==> Selects(r.Values(), rank, element)
    ensures valid ==> element as int in r.Values() && |set x | x in r.Values() && x < element| == rank
  {
    hide Elems, Good, Whole, Layout, Selects, Selected, RankWraps;
    ghost var keys, cs := r.Keys(), r.Slots();
    WrapsIs(keys, cs, rank);
    Bitmaps.LayoutIs(keys, cs);
    NoSlotsYet(keys, cs);
    var startRank: u32 := 0;
    valid, element := false, 0;
    var i := 0;
    while !valid && i < r.size
      invariant i <= r.size
      invariant !valid ==>
        startRank == |Whole(keys[..i], cs[..i])| <= rank || (i == r.size && RankWraps(keys, cs, rank))
      invariant valid ==>
        rank < |Whole(keys, cs)| && !RankWraps(keys, cs, rank) && Selects(Whole(keys, cs), rank, element)
    {
      assert r.containers[i] == cs[i] && r.keys[i] == keys[i];
      Bitmaps.GoodAt(cs, i);
      WholeNext(keys, cs, i);
      SlotsSize(keys, cs);
      SelectStep(keys, cs, i, rank);
      ghost var before := startRank;
      valid, startRank, element := ContainerQueries.Select(r.containers[i], startRank, rank);
      if before + |Elems(cs[i])| < 0x1_0000_0000 || cs[i].RunC? {
        SelectedFacts(Elems(cs[i]), before, rank, valid, startRank, element);
      }
      if valid {
        SelectedIn(keys, cs, i, rank, element);
        element := element + Base(r.keys[i]);
      }
      i := i + 1;
    }
    NotWrapped(keys, cs, rank);
    if valid { SelectsIs(r.Values(), rank, element); }
  }

  lemma SelectsIs(s: set<int>, k: int, x: int)
    requires Selects(s, k, x)
    ensures x in s && |set y | y in s && y < x| == k
  {
    assert Below(s, x) == set y | y in s && y < x;
  }

  /** The slots before key `keys[i]` hold values below it. */
  lemma PrefixBound(keys: seq<u16>, cs: seq<Container>, i: nat)
    requires Layout(keys, cs) && i < |keys|
    ensures |Whole(keys[..i], cs[..i])| <= Base(keys[i]) <= 0x1_0000_0000 - 0x1_0000
  {
    hide Elems, Good, Whole, Layout;
    Bitmaps.LayoutIs(keys, cs);
    Bitmaps.GoodAt(cs, i);
    ElemsBounds(cs[i]);
    BelowSlot(keys, cs, i, 0);
    NoneBelow(Elems(cs[i]));
    WholeBounded(keys, cs);
    RangeSize(0, Base(keys[i]));
    SubsetSize(Below(Whole(keys, cs), Base(keys[i])), Range(0, Base(keys[i])));
  }

  lemma NoneBelow(e: set<int>)
    requires e <= Range(0, 0x1_0000)
    ensures Below(e, 0) == {}
  {
  }

  lemma WholeBounded(keys: seq<u16>, cs: seq<Container>)
    requires |keys| == |cs|
    ensures Whole(keys, cs) <= Range(0, 0x1_0000_0000)
  {
    hide InWhole;
  }

  /** No more than 2^32 values, in all and behind every slot. */
  lemma SlotsSize(keys: seq<u16>, cs: seq<Container>)
    requires |keys| == |cs|
    ensures |Whole(keys, cs)| <= 0x1_0000_0000
  {
    hide Whole;
    WholeBounded(keys, cs);
    RangeSize(0, 0x1_0000_0000);
    SubsetSize(Whole(keys, cs), Range(0, 0x1_0000_0000));
  }

  /** Only the last slot can fill the 32-bit counter, and only from `2^32 - 65536` on. */
  lemma SelectStep(keys: seq<u16>, cs: seq<Container>, i: nat, rank: u32)
    requires Layout(keys, cs) && i < |keys| && |Whole(keys[..i], cs[..i])| <= rank
    ensures var n, m := |Whole(keys[..i], cs[..i])|, |Whole(keys[..i], cs[..i])| + |Elems(cs[i])|;
      && (m == 0x1_0000_0000 && !cs[i].RunC? ==> i + 1 == |keys| == |cs| && RankWraps(keys, cs, rank))
      && (rank < m && (m < 0x1_0000_0000 || cs[i].RunC?) ==> !RankWraps(keys, cs, rank))
  {
    hide Elems, Good, Whole, Layout;
    Bitmaps.LayoutIs(keys, cs);
    Bitmaps.GoodAt(cs, i);
    ElemsBounds(cs[i]);
    WholeNext(keys, cs, i);
    if i + 1 < |keys| {
      PrefixBound(keys, cs, i + 1);
    } else {
      assert keys[..i + 1] == keys && cs[..i + 1] == cs;
    }
  }

  lemma NotWrapped(keys: seq<u16>, cs: seq<Container>, rank: u32)
    requires |keys| == |cs|
    ensures RankWraps(keys, cs, rank) ==> rank < |Whole(keys, cs)|
  {
    hide Whole;
  }

  lemma SetWordsLength(w: seq<bv64>)
    ensures |SetWords(w, 0, 0x1_0000)| == |w|
  {
  }

  /** All values, in full runs but for a full bitset at the end. */
  lemma RankWrapsExample()
    ensures var keys: seq<u16> := seq(0x1_0000, i requires 0 <= i < 0x1_0000 => i);
      var words := SetWords(seq(BITSET_WORDS, _ => 0), 0, 0x1_0000);
      var cs := seq(0xFFFF, _ => RunC([Run(0, 0xFFFF)])) + [BitsetC(words, 0x1_0000)];
      Layout(keys, cs) && Whole(keys, cs) == Range(0, 0x1_0000_0000) && RankWraps(keys, cs, 0xFFFF_FFFF)
  {
    hide BitSet, Denote, At, SetWords;
    var zeros: seq<bv64> := seq(BITSET_WORDS, _ => 0);
    var words := SetWords(zeros, 0, 0x1_0000);
    NoBits(zeros);
    SetWordsDenotes(zeros, 0, 0x1_0000);
    assert BitSet(words) == Range(0, 0x1_0000);
    assert |words| == BITSET_WORDS by { SetWordsLength(zeros); }
    var keys: seq<u16> := seq(0x1_0000, i requires 0 <= i < 0x1_0000 => i);
    var cs := seq(0xFFFF, _ => RunC([Run(0, 0xFFFF)])) + [BitsetC(words, 0x1_0000)];
    RangeSize(0, 0x1_0000);
    RangeSize(0, 0x1_0000_0000);
    assert 0 in Range(0, 0x1_0000);
    DenoteSingle(Run(0, 0xFFFF));
    forall i | 0 <= i < |cs| ensures Good(cs[i]) && Elems(cs[i]) == Range(0, 0x1_0000) {}
    forall x | 0 <= x < 0x1_0000_0000 ensures InWhole(keys, cs, x) {
      AtIndex(keys, cs, x / 0x1_0000);
      assert keys[x / 0x1_0000] == x / 0x1_0000;
    }
    assert Whole(keys, cs) == Range(0, 0x1_0000_0000);
  }

  lemma SelectedFacts(s: set<int>, before: int, rank: int, found: bool, after: int, element: int)
    requires Selected(s, before, rank, found, after, element)
    ensures found ==> rank < before + |s| && Selects(s, rank - before, element)
    ensures !found ==> after == before + |s| <= rank
  {
  }

  /** What one container selects, the whole bitmap selects with the slots before it counted in. */
  lemma SelectedIn(keys: seq<u16>, cs: seq<Container>, i: nat, rank: int, element: int)
    requires Layout(keys, cs) && i < |keys|
    requires Selects(Elems(cs[i]), rank - |Whole(keys[..i], cs[..i])|, element)
    ensures 0 <= element < 0x1_0000 && Selects(Whole(keys, cs), rank, element + Base(keys[i]))
  {
    hide Elems, At, Good;
    Bitmaps.GoodAt(cs, i);
    ElemsBounds(cs[i]);
    assert element in Range(0, 0x1_0000);
    BelowSlot(keys, cs, i, element);
    AtIndex(keys, cs, i);
    Bitmaps.PointMember(keys, cs, element + Base(keys[i]));
  }

  /** Rank after selection, and selection after rank. */
  lemma RankSelectInverse(s: set<int>, k: nat, x: int, y: int)
    requires Selects(s, k, x)
    ensures RankOf(s, x) == k + 1
    ensures y in s && RankOf(s, y) == k + 1 ==> x == y
  {
    SelectedRank(s, k, x);
    SelectedRank(s, k, y);
    if y in s && RankOf(s, y) == k + 1 { SelectsUnique(s, k, x, y); }
  }

  /** `roaring_bitmap_minimum` */
  method Minimum(r: RoaringArray) returns (x: u32)
    requires r.Valid()
    ensures r.Values() != {} ==> Smallest(r.Values(), x)
    ensures r.Values() == {} ==> x == 0xFFFF_FFFF
  {
    hide Elems, Good, Whole, Layout, Smallest;
    ghost var keys, cs := r.Keys(), r.Slots();
    Bitmaps.LayoutIs(keys, cs);
    NoSlotsYet(keys, cs);
    if r.size > 0 {
      assert r.containers[0] == cs[0] && r.keys[0] == keys[0];
      Bitmaps.GoodAt(cs, 0);
      var key: u32 := r.keys[0];
      var lowvalue: u32 := ContainerQueries.Minimum(r.containers[0]);
      SmallestIn(keys, cs, lowvalue);
      return lowvalue + Base(key);
    }
    return 0xFFFF_FFFF;
  }

  lemma SmallestIn(keys: seq<u16>, cs: seq<Container>, low: u16)
    requires Layout(keys, cs) && |keys| > 0 && Smallest(Elems(cs[0]), low)
    ensures Smallest(Whole(keys, cs), low + Base(keys[0])) && Whole(keys, cs) != {}
  {
    hide Elems, At, Good;
    AtIndex(keys, cs, 0);
    Bitmaps.PointMember(keys, cs, low + Base(keys[0]));
    forall y | y in Whole(keys, cs) ensures low + Base(keys[0]) <= y {
      var h: int := y / 0x1_0000;
      if h < keys[0] { AtBelow(keys, cs, 0, h); assert keys[..0] == [] && cs[..0] == []; Bitmaps.AtNothing(h); }
    }
  }

  /** `roaring_bitmap_maximum` */
  method Maximum(r: RoaringArray) returns (x: u32)
    requires r.Valid()
    ensures r.Values() != {} ==> Largest(r.Values(), x)
    ensures r.Values() == {} ==> x == 0
  {
    hide Elems, Good, Whole, Layout, Largest;
    ghost var keys, cs := r.Keys(), r.Slots();
    Bitmaps.LayoutIs(keys, cs);
    NoSlotsYet(keys, cs);
    if r.size > 0 {
      var n := r.size - 1;
      assert r.containers[n] == cs[n] && r.keys[n] == keys[n];
      Bitmaps.GoodOf(cs, n);
      var key: u32 := r.keys[n];
      var lowvalue: u32 := ContainerQueries.Maximum(r.containers[n]);
      LargestIn(keys, cs, lowvalue);
      return lowvalue + Base(key);
    }
    return 0;
  }

  lemma LargestIn(keys: seq<u16>, cs: seq<Container>, low: u16)
    requires Layout(keys, cs) && |keys| > 0 && Largest(Elems(cs[|keys| - 1]), low)
    ensures Largest(Whole(keys, cs), low + Base(keys[|keys| - 1])) && Whole(keys, cs) != {}
  {
    hide Elems, At, Good;
    var n := |keys| - 1;
    AtIndex(keys, cs, n);
    Bitmaps.PointMember(keys, cs, low + Base(keys[n]));
    forall y | y in Whole(keys, cs) ensures y <= low + Base(keys[n]) {
      var h: int := y / 0x1_0000;
      if keys[n] < h { AtMissing(keys, cs, h); }
    }
  }

  // ---------- range cardinality ----------

  /** A `uint64_t` */
  type u64 = x: int | 0 <= x < 0x1_0000_0000_0000_0000

  /** `roaring_bitmap_range_cardinality` of `[rangeStart, rangeEnd)`. */
  method RangeCardinality(r: RoaringArray, rangeStart: u64, rangeEnd: u64) returns (card: int)
    requires r.Valid()
    ensures card == |r.Values() * Range(rangeStart, rangeEnd)|
  {
    hide Elems, Good, Whole, Layout;
    ghost var keys, cs := r.Keys(), r.Slots();
    Bitmaps.LayoutIs(keys, cs);
    var end: u64 := rangeEnd;
    if rangeEnd > 0xFFFF_FFFF {
      end := 0xFFFF_FFFF + 1;
    }
    ClampRange(keys, cs, rangeStart, rangeEnd);
    if rangeStart >= end {
      EmptyPart(r.Values(), rangeStart, end);
      return 0;
    }
    RangeCount(r.Values(), rangeStart, end);
    card := CountRange(r, rangeStart, end - 1);
  }

  lemma ClampRange(keys: seq<u16>, cs: seq<Container>, lo: int, hi: int)
    requires |keys| == |cs|
    ensures hi > 0xFFFF_FFFF ==> Whole(keys, cs) * Range(lo, hi) == Whole(keys, cs) * Range(lo, 0x1_0000_0000)
  {
  }

  lemma EmptyPart(s: set<int>, lo: int, hi: int)
    requires hi <= lo
    ensures s * Range(lo, hi) == {}
  {
  }

  /** The counting part, with both ends included. */
  method CountRange(r: RoaringArray, rangeStart: u32, rangeEnd: u32) returns (card: int)
    requires r.Valid() && rangeStart <= rangeEnd
    ensures card == |Below(r.Values(), rangeEnd + 1)| - |Below(r.Values(), rangeStart)|
  {
    hide Elems, Good, Whole, Layout;
    ghost var keys, cs := r.Keys(), r.Slots();
    Bitmaps.LayoutIs(keys, cs);
    HighLow(rangeStart);
    HighLow(rangeEnd);
    var minhb, maxhb := rangeStart / 0x1_0000, rangeEnd / 0x1_0000;
    var i := r.GetIndex(minhb);
    if i >= 0 {
      card := FirstSlot(r, i, rangeStart, rangeEnd);
      if minhb == maxhb {
        return;
      }
      i := i + 1;
    } else {
      i := -i - 1;
      BelowGapStart(keys, cs, i, rangeStart);
      card := 0;
    }
    card := CountSlots(r, i, card, maxhb, rangeEnd, |Below(r.Values(), rangeStart)|);
  }

  lemma BelowGapStart(keys: seq<u16>, cs: seq<Container>, i: nat, x: u32)
    requires Layout(keys, cs) && i <= |keys|
    requires (i > 0 ==> keys[i - 1] < x / 0x1_0000) && (i < |keys| ==> x / 0x1_0000 < keys[i])
    ensures |Below(Whole(keys, cs), x)| == |Whole(keys[..i], cs[..i])|
  {
    hide Whole;
    BelowGap(keys, cs, i, x);
  }

  /** The slot of the key of `rangeStart`. */
  method FirstSlot(r: RoaringArray, i: nat, rangeStart: u32, rangeEnd: u32) returns (card: int)
    requires r.Valid() && rangeStart <= rangeEnd && i < r.size && r.Keys()[i] == rangeStart / 0x1_0000
    ensures rangeStart / 0x1_0000 == rangeEnd / 0x1_0000 ==>
      card == |Below(r.Values(), rangeEnd + 1)| - |Below(r.Values(), rangeStart)|
    ensures rangeStart / 0x1_0000 != rangeEnd / 0x1_0000 ==>
      card == |Whole(r.Keys()[..i + 1], r.Slots()[..i + 1])| - |Below(r.Values(), rangeStart)|
  {
    hide Elems, Good, Whole, Layout, Below, RankOf;
    ghost var keys, cs := r.Keys(), r.Slots();
    Bitmaps.LayoutIs(keys, cs);
    assert r.containers[i] == cs[i];
    Bitmaps.GoodAt(cs, i);
    SlotCounts(keys, cs, i, rangeStart, rangeEnd);
    if rangeStart / 0x1_0000 == rangeEnd / 0x1_0000 {
      card := ContainerQueries.Rank(r.containers[i], rangeEnd % 0x1_0000);
    } else {
      card := ContainerQueries.Cardinality(r.containers[i]);
    }
    if rangeStart % 0x1_0000 != 0 {
      var before := ContainerQueries.Rank(r.containers[i], rangeStart % 0x1_0000 - 1);
      card := card - before;
    }
  }

  /** What the first slot contributes, in terms of the ranks within it. */
  lemma SlotCounts(keys: seq<u16>, cs: seq<Container>, i: nat, start: u32, end: u32)
    requires Layout(keys, cs) && i < |keys| && keys[i] == start / 0x1_0000
    ensures var e, w := Elems(cs[i]), |Whole(keys[..i], cs[..i])|;
      && |Below(Whole(keys, cs), start)| == w + (if start % 0x1_0000 == 0 then 0 else RankOf(e, start % 0x1_0000 - 1))
      && (start / 0x1_0000 == end / 0x1_0000 ==> |Below(Whole(keys, cs), end + 1)| == w + RankOf(e, end % 0x1_0000))
      && |Whole(keys[..i + 1], cs[..i + 1])| == w + |e|
  {
    hide Elems, Good, Whole, Layout;
    Bitmaps.LayoutIs(keys, cs);
    Bitmaps.GoodAt(cs, i);
    HighLow(start);
    HighLow(end);
    NothingBelow(cs[i]);
    BelowSlot(keys, cs, i, start % 0x1_0000);
    BelowSlot(keys, cs, i, end % 0x1_0000 + 1);
    WholeNext(keys, cs, i);
  }

  lemma NothingBelow(c: Container)
    requires Containers.Valid(c)
    ensures Below(Elems(c), 0) == {}
  {
    hide Elems;
    ElemsBounds(c);
    forall x | x in Elems(c) ensures 0 <= x { assert x in Range(0, 0x1_0000); }
  }

  /** The loop over the slots after the first. */
  method CountSlots(r: RoaringArray, from: nat, start: int, maxhb: u16, rangeEnd: u32, ghost below: nat)
    returns (card: int)
    requires r.Valid() && from <= r.size && maxhb == rangeEnd / 0x1_0000
    requires start == |Whole(r.Keys()[..from], r.Slots()[..from])| - below
    requires from > 0 ==> r.Keys()[from - 1] < maxhb
    ensures card == |Below(r.Values(), rangeEnd + 1)| - below
  {
    hide Elems, Good, Whole, Layout;
    ghost var keys, cs := r.Keys(), r.Slots();
    Bitmaps.LayoutIs(keys, cs);
    HighLow(rangeEnd);
    card := start;
    var i := from;
    while i < r.size
      invariant from <= i <= r.size && card == |Whole(keys[..i], cs[..i])| - below
      invariant i > 0 ==> keys[i - 1] < maxhb
    {
      var key := r.keys[i];
      assert key == keys[i] && r.containers[i] == cs[i];
      Bitmaps.GoodAt(cs, i);
      if key < maxhb {
        WholeNext(keys, cs, i);
        var c := ContainerQueries.Cardinality(r.containers[i]);
        card := card + c;
      } else if key == maxhb {
        BelowSlot(keys, cs, i, rangeEnd % 0x1_0000 + 1);
        var c := ContainerQueries.Rank(r.containers[i], rangeEnd % 0x1_0000);
        return card + c;
      } else {
        BelowGapRank(keys, cs, i, rangeEnd);
        return;
      }
      i := i + 1;
    }
    BelowGapRank(keys, cs, i, rangeEnd);
  }
}
