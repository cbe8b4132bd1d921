/**
 The intersection that leaves its buffer: which sets can lead to it, and that range insertions and removals do. The
 buffer for a run list and a bitset has room for the smaller of the two, and a value of the runs that comes after the
 last common one is stored behind it.
 */
module Overruns {
  import opened IntSets
  import opened SortedArrays
  import opened Bitsets
  import opened Runs
  import opened MixedArrays
  import opened Containers
  import opened ContainerOps
  import opened Slots
  import opened RoaringArrays
  import opened BitmapEquality
  import BitmapOps
  import Bitmaps
  import Representations

  /** Run values and bitset members that do not fit: the bitset lies in the runs, and a run value lies behind it. */
  ghost predicate Hazard(r: set<int>, b: set<int>) {
    |r| <= MAX_ARRAY && |b| >= 2048 && !RoomToMeet(r, b)
  }

  /** The parts of two sets under some key could be such a run list and bitset. */
  ghost predicate MayOverrun(s: set<int>, t: set<int>) {
    exists k: u16 :: Hazard(UnderKey(s, k), UnderKey(t, k)) || Hazard(UnderKey(t, k), UnderKey(s, k))
  }

  /**
   In cardinalities and sets alone: the bitset has fewer values than the runs, lies in them, and one of theirs lies
   above all of its own.
   */
  lemma HazardMeans(r: set<int>, b: set<int>)
    ensures Hazard(r, b) <==> 2048 <= |b| < |r| <= 4096 && b <= r && exists v :: v in r && forall x :: x in b ==> x < v
  {
    if Hazard(r, b) { HazardIsTopped(r, b); }
    if b <= r && exists v :: v in r && forall x :: x in b ==> x < v {
      var v :| v in r && forall x :: x in b ==> x < v;
      assert Exhausted(r, b, v);
    }
  }

  lemma HazardIsTopped(r: set<int>, b: set<int>)
    requires Hazard(r, b)
    ensures |b| < |r| && b <= r && exists v :: v in r && forall x :: x in b ==> x < v
  {
    var v :| v in r && Exhausted(r, b, v);
    FewerWithout(r, b, v);
  }

  lemma FewerWithout(r: set<int>, b: set<int>, v: int)
    requires b <= r && v in r && v !in b
    ensures |b| < |r|
  {
    SubsetSize(b + {v}, r);
  }

  /** The same of two sets, under some key and in either order. */
  lemma MayOverrunMeans(s: set<int>, t: set<int>)
    ensures MayOverrun(s, t) <==>
      exists k: u16 ::
        var p, q := UnderKey(s, k), UnderKey(t, k);
        || (2048 <= |p| < |q| <= 4096 && p <= q && exists v :: v in q && forall x :: x in p ==> x < v)
        || (2048 <= |q| < |p| <= 4096 && q <= p && exists v :: v in p && forall x :: x in q ==> x < v)
  {
    hide UnderKey, Hazard;
    forall k: u16
      ensures var p, q := UnderKey(s, k), UnderKey(t, k);
        Hazard(p, q) || Hazard(q, p) <==>
          || (2048 <= |p| < |q| <= 4096 && p <= q && exists v :: v in q && forall x :: x in p ==> x < v)
          || (2048 <= |q| < |p| <= 4096 && q <= p && exists v :: v in p && forall x :: x in q ==> x < v)
    {
      HazardMeans(UnderKey(s, k), UnderKey(t, k));
      HazardMeans(UnderKey(t, k), UnderKey(s, k));
    }
  }

  lemma UnfitIsHazard(c1: Container, c2: Container)
    requires Good(c1) && Good(c2) && !Fitting(c1, c2)
    ensures Hazard(Elems(c1), Elems(c2)) || Hazard(Elems(c2), Elems(c1))
  {
    hide BitSet, Denote, Canonical, RoomToMeet;
  }

  /** Whatever the representations are, two bitmaps whose sets exclude it intersect within their buffers. */
  lemma OverrunNeedsHazard(keys1: seq<u16>, cs1: seq<Container>, keys2: seq<u16>, cs2: seq<Container>)
    requires Layout(keys1, cs1) && Layout(keys2, cs2)
    ensures |keys1| == |cs1| && |keys2| == |cs2|
    ensures !BitmapOps.AllFit(keys1, cs1, keys2, cs2) ==> MayOverrun(Whole(keys1, cs1), Whole(keys2, cs2))
  {
    hide Elems, At, Whole, Fitting, Good, Hazard, Sorted, Layout;
    Bitmaps.LayoutIs(keys1, cs1);
    Bitmaps.LayoutIs(keys2, cs2);
    if !BitmapOps.AllFit(keys1, cs1, keys2, cs2) {
      var p, q :| 0 <= p < |keys1| && 0 <= q < |keys2| && keys1[p] == keys2[q] && !Fitting(cs1[p], cs2[q]);
      Bitmaps.GoodAt(cs1, p);
      Bitmaps.GoodAt(cs2, q);
      Bitmaps.GoodIs(cs1[p]);
      Bitmaps.GoodIs(cs2[q]);
      UnfitIsHazard(cs1[p], cs2[q]);
      AtIndex(keys1, cs1, p);
      AtIndex(keys2, cs2, q);
      AtFromWhole(keys1, cs1, keys1[p]);
      AtFromWhole(keys2, cs2, keys2[q]);
    }
  }

  /** A bitmap in order that stands for `s`. */
  ghost predicate StandsFor(keys: seq<u16>, cs: seq<Container>, s: set<int>) {
    Layout(keys, cs) && Whole(keys, cs) == s
  }

  /** Some bitmaps in order stand for the two sets and do not fit. */
  ghost predicate SomeOverrun(s: set<int>, t: set<int>) {
    exists keys1, cs1, keys2, cs2 ::
      StandsFor(keys1, cs1, s) && StandsFor(keys2, cs2, t) && !BitmapOps.AllFit(keys1, cs1, keys2, cs2)
  }

  /** As far as the sets alone can tell, the hazard is exact: some representation of the two sets overruns. */
  lemma HazardIsExact(s: set<int>, t: set<int>)
    requires s <= Range(0, 0x1_0000_0000) && t <= Range(0, 0x1_0000_0000)
    ensures MayOverrun(s, t) <==> SomeOverrun(s, t)
  {
    hide Layout, Whole, Hazard, BitmapOps.AllFit;
    if SomeOverrun(s, t) {
      var keys1, cs1, keys2, cs2 :|
        StandsFor(keys1, cs1, s) && StandsFor(keys2, cs2, t) && !BitmapOps.AllFit(keys1, cs1, keys2, cs2);
      OverrunNeedsHazard(keys1, cs1, keys2, cs2);
    }
    if MayOverrun(s, t) {
      var k: u16 :| Hazard(UnderKey(s, k), UnderKey(t, k)) || Hazard(UnderKey(t, k), UnderKey(s, k));
      if Hazard(UnderKey(s, k), UnderKey(t, k)) {
        var c1, c2 := HazardousPair(UnderKey(s, k), UnderKey(t, k));
        BuildOverrun(s, t, k, c1, c2);
      } else {
        var c2, c1 := HazardousPair(UnderKey(t, k), UnderKey(s, k));
        BuildOverrun(s, t, k, c1, c2);
      }
    }
  }

  /** The run list and the bitset. */
  lemma HazardousPair(r: set<int>, b: set<int>) returns (c1: Container, c2: Container)
    requires Hazard(r, b) && r <= Range(0, 0x1_0000) && b <= Range(0, 0x1_0000)
    ensures Good(c1) && Elems(c1) == r && Good(c2) && Elems(c2) == b && !Fitting(c1, c2) && !Fitting(c2, c1)
  {
    hide BitSet, Denote, Canonical;
    c1 := Representations.AsRuns(r);
    c2 := Representations.AsBitset(b);
  }

  lemma BuildOverrun(s: set<int>, t: set<int>, k: u16, c1: Container, c2: Container)
    requires s <= Range(0, 0x1_0000_0000) && t <= Range(0, 0x1_0000_0000) && !Fitting(c1, c2)
    requires Good(c1) && Elems(c1) == UnderKey(s, k) && Good(c2) && Elems(c2) == UnderKey(t, k)
    ensures SomeOverrun(s, t)
  {
    hide Elems, Good, Layout, Whole, Fitting, UnderKey;
    var keys1, cs1, p := Representations.LayoutWith(s, k, c1);
    var keys2, cs2, q := Representations.LayoutWith(t, k, c2);
    assert !BitmapOps.AllFit(keys1, cs1, keys2, cs2) by { assert keys1[p] == keys2[q]; }
    assert StandsFor(keys1, cs1, s) && StandsFor(keys2, cs2, t);
  }

  // ---------- an example ----------

  /** The values 0 to 4094 without the first `k` odd ones. */
  ghost function Comb(k: nat): set<int> {
    set x: int | 0 <= x < 4095 && Stays(x, k)
  }

  predicate Stays(x: int, k: nat) { x % 2 == 0 || x >= 2 * k }

  /** Its runs, counted by their ends. */
  lemma {:induction false} CombEnds(k: nat)
    requires k <= 2047
    ensures |Ends(Comb(k))| == k + 1
  {
    if k == 0 {
      forall x ensures x in Ends(Comb(0)) <==> x == 4094 { CombEnd(0, x); }
      assert Ends(Comb(0)) == {4094};
    } else {
      hide Comb, Ends;
      CombEnds(k - 1);
      forall x ensures x in Ends(Comb(k)) <==> x in Ends(Comb(k - 1)) || x == 2 * k - 2 {
        CombEnd(k, x);
        CombEnd(k - 1, x);
      }
      assert Ends(Comb(k)) == Ends(Comb(k - 1)) + {2 * k - 2};
      CombEnd(k - 1, 2 * k - 2);
    }
  }

  lemma CombEnd(k: nat, x: int)
    requires k <= 2047
    ensures x in Ends(Comb(k)) <==> (x % 2 == 0 && 0 <= x < 2 * k - 1) || x == 4094
  {
  }

  /** The last comb is all ends: the even values. */
  lemma EvenValues()
    ensures |Comb(2047)| == 2048 && forall x :: x in Comb(2047) <==> 0 <= x <= 4094 && x % 2 == 0
  {
    CombEnds(2047);
    forall x ensures x in Comb(2047) <==> x in Ends(Comb(2047)) { CombEnd(2047, x); }
    assert Comb(2047) == Ends(Comb(2047));
  }

  /** A bitset of the even values below 4096 and a run of all values below 4096: both in order, and they do not fit. */
  lemma OverrunExample(c1: Container, c2: Container)
    requires Containers.Valid(c1) && c1.BitsetC? && Elems(c1) == Comb(2047)
    requires Containers.Valid(c2) && c2.RunC? && Elems(c2) == Range(0, 4096)
    ensures Layout([0], [c1]) && Layout([0], [c2])
    ensures !Fitting(c1, c2) && !Fitting(c2, c1) && !BitmapOps.AllFit([0], [c1], [0], [c2])
  {
    hide BitSet, Denote, Canonical, Comb, Ends, Exhausted;
    EvenValues();
    RangeSize(0, 4096);
    assert 4094 in Elems(c1) && 0 in Elems(c2) && 4095 in Elems(c2);
    LayoutsOne(c1, c2);
    Overtaken(Elems(c2), Elems(c1));
    assert [0][0] == [0][0] && [c1][0] == c1 && [c2][0] == c2;
  }

  lemma LayoutsOne(c1: Container, c2: Container)
    requires Good(c1) && Good(c2)
    ensures Layout([0], [c1]) && Layout([0], [c2])
  {
    Bitmaps.LayoutOne(0, c1);
    Bitmaps.LayoutOne(0, c2);
  }

  lemma Overtaken(r: set<int>, b: set<int>)
    requires r == Range(0, 4096) && forall x :: x in b ==> 0 <= x <= 4094
    ensures !RoomToMeet(r, b)
  {
    assert 4095 in r && Exhausted(r, b, 4095);
  }

  /** The only slot of a set of 16-bit values has key 0 and holds the set. */
  lemma OnlySlot(keys: seq<u16>, cs: seq<Container>)
    requires Layout(keys, cs) && |cs| == 1 && Whole(keys, cs) <= Range(0, 0x1_0000)
    ensures keys == [0] && cs == [cs[0]] && Containers.Valid(cs[0]) && Elems(cs[0]) == Whole(keys, cs)
  {
    hide Elems, At, Whole, Sorted, Layout, Dense, Containers.Valid;
    Bitmaps.LayoutIs(keys, cs);
    Bitmaps.GoodOf(cs, 0);
    AtIndex(keys, cs, 0);
    AtFromWhole(keys, cs, keys[0]);
    SlotIsZero(Whole(keys, cs), keys[0], Elems(cs[0]));
  }

  lemma SlotIsZero(s: set<int>, k: u16, e: set<int>)
    requires s <= Range(0, 0x1_0000) && e == UnderKey(s, k) && e != {}
    ensures k == 0 && e == s
  {
    var v :| v in e;
    assert Under(s, k, v);
    forall x ensures x in e <==> x in s { assert x in s <==> x in Range(0, 0x1_0000) && Under(s, 0, x); }
  }

  /** What a range removal leaves of a bitmap with one slot. */
  lemma OneSlotLeft(kk: seq<u16>, cc: seq<Container>, c: Container)
    requires Layout(kk, cc) && Bitmaps.AllTrimmed(kk, cc, |cc|, [0], [c]) && Whole(kk, cc) != {}
    ensures |cc| == 1 && Bitmaps.TrimmedFrom(cc[0], c)
  {
    hide Elems, At, Good, Bitmaps.TrimmedFrom;
    forall j | 0 <= j < |cc| ensures kk[j] == 0 && Bitmaps.TrimmedFrom(cc[j], c) {
      assert Bitmaps.Trimmed(kk[j], cc[j], [0], [c]);
    }
    ZeroKeys(kk);
    if |kk| == 0 { BitmapOps.NoSlots(kk, cc); }
  }

  lemma ZeroKeys(keys: seq<u16>)
    requires Sorted(keys) && forall j :: 0 <= j < |keys| ==> keys[j] == 0
    ensures |keys| <= 1
  {
    SortedSize(keys);
    SubsetSize(Elements(keys), {0});
  }

  /** A bitmap of one slot, by its container and its set. */
  ghost predicate Holds(x: RoaringArray, c: Container, s: set<int>)
    reads x, x.keys, x.containers
  {
    x.Valid() && x.Keys() == [0] && x.Slots() == [c] && Containers.Valid(c) && Elems(c) == s && x.Values() == s
  }

  /** One insertion of a range into an empty bitmap makes one run. */
  method OneRun(max: u16) returns (x: RoaringArray, ghost c: Container)
    requires max > 0
    ensures fresh(x) && fresh(x.keys) && fresh(x.containers) && Holds(x, c, Range(0, max + 1)) && c.RunC?
  {
    hide Elems, At, Whole, Good, Layout;
    x := new RoaringArray();
    Bitmaps.AddRangeClosed(x, 0, max);
    assert x.Values() == Range(0, max + 1);
    OnlySlot(x.Keys(), x.Slots());
    c := x.Slots()[0];
  }

  /** One more hole in the comb. */
  method CutTooth(x: RoaringArray, ghost c: Container, k: nat) returns (ghost c': Container)
    requires k < 2047 && Holds(x, c, Comb(k)) && c.RunC?
    modifies x`size, x.keys, x.containers
    ensures Holds(x, c', Comb(k + 1)) && if k + 1 < 2047 then c'.RunC? else c'.BitsetC?
  {
    hide Elems, At, Whole, Good, Layout, Comb, Ends, Bitmaps.AllTrimmed;
    CombNext(k);
    CombEnds(k + 1);
    Bitmaps.RemoveRangeClosed(x, 2 * k + 1, 2 * k + 1);
    OneSlotLeft(x.Keys(), x.Slots(), c);
    OnlySlot(x.Keys(), x.Slots());
    c' := x.Slots()[0];
  }

  /**
   Range operations on empty bitmaps lead there: one insertion and 2047 removals on one side, one insertion on the
   other. Every operation but the last keeps the invariant; the intersection leaves its buffer.
   */
  method ReachOverrun() returns (room: bool)
    ensures !room
  {
    hide Elems, At, Whole, Good, Layout, Comb, BitmapOps.AllFit, Containers.Valid;
    var x1, c1 := OneRun(4094);
    CombStart();
    var k: nat := 0;
    while k < 2047
      invariant k <= 2047 && Holds(x1, c1, Comb(k)) && fresh(x1) && fresh(x1.keys) && fresh(x1.containers)
      invariant if k < 2047 then c1.RunC? else c1.BitsetC?
    {
      c1 := CutTooth(x1, c1, k);
      k := k + 1;
    }
    var x2, c2 := OneRun(4095);
    OverrunExample(c1, c2);
    room := BitmapOps.AndInplace(x1, x2);
  }

  lemma CombStart()
    ensures Comb(0) == Range(0, 4095)
  {
  }

  lemma CombNext(k: nat)
    requires k < 2047
    ensures Comb(k) - Range(2 * k + 1, 2 * k + 2) == Comb(k + 1) && Comb(k) != Comb(k + 1)
    ensures Comb(k + 1) != {} && Comb(k + 1) <= Range(0, 0x1_0000)
  {
    assert 0 in Comb(k + 1) && 2 * k + 1 in Comb(k);
  }
}
