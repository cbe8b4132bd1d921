/** Equality of whole bitmaps, slot by slot, is equality of sets. */
module BitmapEquality {
  import opened IntSets
  import opened SortedArrays
  import opened Containers
  import opened Slots
  import opened RoaringArrays
  import Bitmaps
  import ContainerQueries

  ghost predicate SameSlots(keys1: seq<u16>, cs1: seq<Container>, keys2: seq<u16>, cs2: seq<Container>) {
    keys1 == keys2 && |cs1| == |cs2| && forall i :: 0 <= i < |cs1| ==> Elems(cs1[i]) == Elems(cs2[i])
  }

  ghost predicate Under(s: set<int>, k: u16, v: int) { 0x1_0000 * (k as int) + v in s }

  /** The part of a set under a key. */
  ghost function UnderKey(s: set<int>, k: u16): set<int> {
    set v: int | 0 <= v < 0x1_0000 && Under(s, k, v)
  }

  /** The set under a key is determined by the whole set. */
  lemma AtFromWhole(keys: seq<u16>, cs: seq<Container>, k: u16)
    requires Layout(keys, cs)
    ensures At(keys, cs, k) == UnderKey(Whole(keys, cs), k)
  {
    hide At, Layout;
    Bitmaps.LayoutIs(keys, cs);
    AtBounds(keys, cs, k);
    forall v | 0 <= v < 0x1_0000 ensures v in At(keys, cs, k) <==> Under(Whole(keys, cs), k, v) {
      var x := 0x1_0000 * (k as int) + v;
      assert x / 0x1_0000 == k && x % 0x1_0000 == v;
    }
  }

  /** A key is in use exactly when the whole set has a value under it: no container is empty. */
  lemma KeysFromWhole(keys: seq<u16>, cs: seq<Container>, k: u16)
    requires Layout(keys, cs)
    ensures k in keys <==> At(keys, cs, k) != {}
  {
  }

  /** Equal sets have equal keys, and equal containers under them: the layout has no freedom but representation. */
  lemma EqualSets(keys1: seq<u16>, cs1: seq<Container>, keys2: seq<u16>, cs2: seq<Container>)
    requires Layout(keys1, cs1) && Layout(keys2, cs2)
    ensures |keys1| == |cs1| && |keys2| == |cs2|
    ensures Whole(keys1, cs1) == Whole(keys2, cs2) <==> SameSlots(keys1, cs1, keys2, cs2)
  {
    hide At, Elems, Layout, Whole, Sorted, Elements;
    Bitmaps.LayoutIs(keys1, cs1);
    Bitmaps.LayoutIs(keys2, cs2);
    if Whole(keys1, cs1) == Whole(keys2, cs2) {
      forall k: u16 ensures At(keys1, cs1, k) == At(keys2, cs2, k) && (k in keys1 <==> k in keys2) {
        AtFromWhole(keys1, cs1, k);
        AtFromWhole(keys2, cs2, k);
        KeysFromWhole(keys1, cs1, k);
        KeysFromWhole(keys2, cs2, k);
      }
      SameKeys(keys1, keys2);
      forall i | 0 <= i < |cs1| ensures Elems(cs1[i]) == Elems(cs2[i]) {
        AtIndex(keys1, cs1, i);
        AtIndex(keys2, cs2, i);
      }
    }
    if SameSlots(keys1, cs1, keys2, cs2) {
      forall k: int | 0 <= k < 0x1_0000
        ensures At(keys1, cs1, k) == At(keys2, cs2, k) { SameSlotsAt(keys1, cs1, cs2, k); }
      WholeSame(keys1, cs1, keys2, cs2);
    }
  }

  lemma SameKeys(keys1: seq<u16>, keys2: seq<u16>)
    requires Sorted(keys1) && Sorted(keys2) && forall k: u16 :: k in keys1 <==> k in keys2
    ensures keys1 == keys2
  {
    hide Sorted;
    forall x: int ensures x in Elements(keys1) <==> x in Elements(keys2) {}
    SortedUnique(keys1, keys2);
  }

  lemma {:induction false} SameSlotsAt(keys: seq<u16>, cs1: seq<Container>, cs2: seq<Container>, k: int)
    requires |keys| == |cs1| == |cs2| && forall i :: 0 <= i < |cs1| ==> Elems(cs1[i]) == Elems(cs2[i])
    ensures At(keys, cs1, k) == At(keys, cs2, k)
    decreases |keys|
  {
    hide Elems;
    if keys != [] {
      var n := |keys| - 1;
      assert Elems(cs1[n]) == Elems(cs2[n]);
      SameSlotsAt(keys[..n], cs1[..n], cs2[..n], k);
    }
  }

  /** `roaring_bitmap_equals` */
  method Equals(ra1: RoaringArray, ra2: RoaringArray) returns (b: bool)
    requires ra1.Valid() && ra2.Valid()
    ensures b <==> ra1.Values() == ra2.Values()
  {
    hide Layout, Whole, Elems, Good;
    ghost var keys1, cs1, keys2, cs2 := ra1.Keys(), ra1.Slots(), ra2.Keys(), ra2.Slots();
    EqualSets(keys1, cs1, keys2, cs2);
    Bitmaps.LayoutIs(keys1, cs1);
    Bitmaps.LayoutIs(keys2, cs2);
    if ra1.size != ra2.size {
      return false;
    }
    var i := 0;
    while i < ra1.size
      invariant i <= ra1.size && forall j :: 0 <= j < i ==> keys1[j] == keys2[j]
    {
      if ra1.keys[i] != ra2.keys[i] {
        assert keys1[i] != keys2[i];
        return false;
      }
      i := i + 1;
    }
    i := 0;
    while i < ra1.size
      invariant i <= ra1.size && forall j :: 0 <= j < i ==> Elems(cs1[j]) == Elems(cs2[j])
    {
      Bitmaps.GoodAt(cs1, i);
      Bitmaps.GoodAt(cs2, i);
      assert ra1.containers[i] == cs1[i] && ra2.containers[i] == cs2[i];
      var areequal := ContainerQueries.Equals(ra1.containers[i], ra2.containers[i]);
      if !areequal {
        return false;
      }
      i := i + 1;
    }
    return true;
  }
}
