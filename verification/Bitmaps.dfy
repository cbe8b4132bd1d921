/** Bitmaps: adding and removing values and ranges of 32-bit values. */
module Bitmaps {
  import opened IntSets
  import opened SortedArrays
  import opened ArrayKernels
  import opened Containers
  import opened ContainerUpdates
  import opened ContainerQueries
  import opened Slots
  import opened RoaringArrays

  // ---------- one slot ----------

  /** Two lists of slots hold the same values under every key but `key`. */
  ghost predicate SameBut(keys: seq<u16>, cs: seq<Container>, keys': seq<u16>, cs': seq<Container>, key: int)
    requires |keys| == |cs| && |keys'| == |cs'|
  {
    forall k :: 0 <= k < 0x1_0000 && k != key ==> At(keys', cs', k) == At(keys, cs, k)
  }

  lemma PutSlot(keys: seq<u16>, cs: seq<Container>, i: nat, c: Container)
    requires Layout(keys, cs) && i < |keys|
    ensures SameBut(keys, cs, keys, cs[i := c], keys[i]) && At(keys, cs[i := c], keys[i]) == Elems(c)
    ensures Good(c) ==> Layout(keys, cs[i := c])
  {
    hide Elems, At, Good;
    var cs' := cs[i := c];
    AtIndex(keys, cs', i);
    forall k | 0 <= k < 0x1_0000 && k != keys[i] ensures At(keys, cs', k) == At(keys, cs, k) {
      if j :| 0 <= j < |keys| && keys[j] == k {
        AtIndex(keys, cs, j);
        AtIndex(keys, cs', j);
      } else {
        AtMissing(keys, cs, k);
        AtMissing(keys, cs', k);
      }
    }
  }

  lemma AtInsert(keys: seq<u16>, cs: seq<Container>, i: nat, key: u16, c: Container, k: int)
    requires |keys| == |cs| && i <= |keys|
    ensures At(keys[..i] + [key] + keys[i..], cs[..i] + [c] + cs[i..], k)
         == At(keys, cs, k) + (if key == k then Elems(c) else {})
  {
    hide Elems, At;
    assert keys == keys[..i] + keys[i..] && cs == cs[..i] + cs[i..];
    AtConcat(keys[..i] + [key], cs[..i] + [c], keys[i..], cs[i..], k);
    AtSnoc(keys[..i], cs[..i], key, c, k);
    AtConcat(keys[..i], cs[..i], keys[i..], cs[i..], k);
  }

  lemma InsertLayout(keys: seq<u16>, cs: seq<Container>, i: nat, key: u16, c: Container)
    requires Layout(keys, cs) && SearchResult(keys, key, -(i as int) - 1) && Good(c)
    ensures Layout(keys[..i] + [key] + keys[i..], cs[..i] + [c] + cs[i..])
  {
    hide Good;
    SortedSnoc(keys[..i], key);
    SortedConcat(keys[..i] + [key], keys[i..]);
  }

  lemma InsertSlot(keys: seq<u16>, cs: seq<Container>, i: nat, key: u16, c: Container)
    requires Layout(keys, cs) && SearchResult(keys, key, -(i as int) - 1) && Good(c)
    ensures var keys', cs' := keys[..i] + [key] + keys[i..], cs[..i] + [c] + cs[i..];
      && SameBut(keys, cs, keys', cs', key) && At(keys, cs, key) == {} && At(keys', cs', key) == Elems(c)
      && Layout(keys', cs')
    ensures |keys| < MAX_CONTAINERS
  {
    hide Elems, At, Good, Layout, Sorted;
    LayoutIs(keys, cs);
    var keys', cs' := keys[..i] + [key] + keys[i..], cs[..i] + [c] + cs[i..];
    forall k ensures At(keys', cs', k) == At(keys, cs, k) + (if key == k then Elems(c) else {}) {
      AtInsert(keys, cs, i, key, c, k);
    }
    AtMissing(keys, cs, key);
    InsertLayout(keys, cs, i, key, c);
    KeysLeft(keys, key);
  }

  /** A missing key leaves room for one more slot. */
  lemma KeysLeft(keys: seq<u16>, key: u16)
    requires Sorted(keys) && key !in keys
    ensures |keys| < MAX_CONTAINERS
  {
    SortedSize(keys);
    RangeSize(0, 0x1_0000);
    var r := Range(0, 0x1_0000);
    assert key as int in r;
    var t := r - {key as int};
    forall x | x in Elements(keys) ensures x in t {}
    SubsetSize(Elements(keys), t);
  }

  lemma RemoveSlot(keys: seq<u16>, cs: seq<Container>, i: nat)
    requires Layout(keys, cs) && i < |keys|
    ensures var keys', cs' := keys[..i] + keys[i + 1..], cs[..i] + cs[i + 1..];
      && SameBut(keys, cs, keys', cs', keys[i]) && At(keys', cs', keys[i]) == {} && Layout(keys', cs')
  {
    hide Elems, At, Good;
    var keys', cs' := keys[..i] + keys[i + 1..], cs[..i] + cs[i + 1..];
    assert keys == keys[..i] + [keys[i]] + keys[i + 1..] && cs == cs[..i] + [cs[i]] + cs[i + 1..];
    forall k ensures At(keys, cs, k) == At(keys', cs', k) + (if keys[i] == k then Elems(cs[i]) else {}) {
      AtConcat(keys[..i] + [keys[i]], cs[..i] + [cs[i]], keys[i + 1..], cs[i + 1..], k);
      AtSnoc(keys[..i], cs[..i], keys[i], cs[i], k);
      AtConcat(keys[..i], cs[..i], keys[i + 1..], cs[i + 1..], k);
    }
    SortedConcat(keys[..i], keys[i + 1..]);
    AtMissing(keys', cs', keys[i]);
  }

  // ---------- one value ----------

  /** Changing what the key of `val` holds by `val % 65536` changes the whole set by `val`. */
  lemma PointChange(keys: seq<u16>, cs: seq<Container>, keys': seq<u16>, cs': seq<Container>, val: u32)
    requires |keys| == |cs| && |keys'| == |cs'| && SameBut(keys, cs, keys', cs', val / 0x1_0000)
    ensures At(keys', cs', val / 0x1_0000) == At(keys, cs, val / 0x1_0000) + {val % 0x1_0000}
      ==> Whole(keys', cs') == Whole(keys, cs) + {val as int}
    ensures At(keys', cs', val / 0x1_0000) == At(keys, cs, val / 0x1_0000) - {val % 0x1_0000}
      ==> Whole(keys', cs') == Whole(keys, cs) - {val as int}
  {
    hide At;
    var s, s' := Whole(keys, cs), Whole(keys', cs');
    forall x | 0 <= x < 0x1_0000_0000 && x / 0x1_0000 != val / 0x1_0000
      ensures InWhole(keys', cs', x) <==> InWhole(keys, cs, x)
    {
      assert 0 <= x / 0x1_0000 < 0x1_0000;
    }
    forall x | 0 <= x < 0x1_0000_0000 && x / 0x1_0000 == val / 0x1_0000
      ensures x == val <==> x % 0x1_0000 == val % 0x1_0000
    {
    }
  }

  lemma PointMember(keys: seq<u16>, cs: seq<Container>, val: u32)
    requires |keys| == |cs|
    ensures val in Whole(keys, cs) <==> val % 0x1_0000 in At(keys, cs, val / 0x1_0000)
  {
  }

  lemma Unchanged(s: set<int>, x: int)
    ensures x in s ==> s + {x} == s
    ensures x !in s ==> s - {x} == s
  {
  }

  /** `roaring_bitmap_contains` */
  method Contains(r: RoaringArray, val: u32) returns (b: bool)
    requires r.Valid()
    ensures b <==> val in r.Values()
  {
    hide Elems, At, Whole, Good;
    var hb := val / 0x1_0000;
    var i := r.GetIndex(hb);
    PointMember(r.Keys(), r.Slots(), val);
    if i < 0 {
      AtMissing(r.Keys(), r.Slots(), hb);
      return false;
    }
    AtIndex(r.Keys(), r.Slots(), i);
    GoodAt(r.Slots(), i);
    assert r.Slots()[i] == r.containers[i];
    b := ContainerUpdates.Contains(r.containers[i], val % 0x1_0000);
  }

  lemma GoodAt(cs: seq<Container>, i: nat)
    requires AllGood(cs) && i < |cs|
    ensures Good(cs[i]) && Containers.Valid(cs[i]) && Dense(cs[i]) && Elems(cs[i]) != {}
  {
  }

  lemma GoodIs(c: Container)
    requires Containers.Valid(c) && Dense(c) && Elems(c) != {}
    ensures Good(c)
  {
  }

  lemma EmptyArray()
    ensures Containers.Valid(ArrayC([])) && Dense(ArrayC([])) && Elems(ArrayC([])) == {}
  {
  }

  /** `roaring_bitmap_add_checked`: whether the value was missing is read off the cardinalities, or off the pointers. */
  method AddChecked(r: RoaringArray, val: u32) returns (result: bool)
    requires r.Valid()
    modifies r, r.keys, r.containers
    ensures r.Valid()
    ensures (r.keys == old(r.keys) || fresh(r.keys)) && (r.containers == old(r.containers) || fresh(r.containers))
    ensures r.Values() == old(r.Values()) + {val as int}
    ensures result <==> val !in old(r.Values())
  {
    hide Elems, At, Whole, Good, Dense, Containers.Valid, Layout, SameBut, Sorted;
    ghost var keys, cs := r.Keys(), r.Slots();
    LayoutIs(keys, cs);
    var hb, lb := val / 0x1_0000, val % 0x1_0000;
    var i := r.GetIndex(hb);
    PointMember(keys, cs, val);
    if i >= 0 {
      AtIndex(keys, cs, i);
      GoodAt(cs, i);
      var c := r.containers[i];
      assert c == cs[i];
      var oldCardinality := Cardinality(c);
      var c2, inPlace := Add(c, lb);
      AddedIsGood(c, c2, lb);
      PutSlot(keys, cs, i, c2);
      PointChange(keys, cs, keys, cs[i := c2], val);
      r.SetContainer(i, c2);
      if !inPlace {
        result := true;
      } else {
        var newCardinality := Cardinality(c2);
        result := oldCardinality != newCardinality;
      }
    } else {
      EmptyArray();
      var c, _ := Add(ArrayC([]), lb);
      AddedIsGood(ArrayC([]), c, lb);
      InsertSlot(keys, cs, -i - 1, hb, c);
      PointChange(keys, cs, keys[..-i - 1] + [hb] + keys[-i - 1..], cs[..-i - 1] + [c] + cs[-i - 1..], val);
      r.InsertAt(-i - 1, hb, c);
      result := true;
    }
  }

  lemma LayoutIs(keys: seq<u16>, cs: seq<Container>)
    requires Layout(keys, cs)
    ensures |keys| == |cs| && Sorted(keys) && AllGood(cs)
  {
  }

  lemma AddedIsGood(c: Container, c': Container, x: int)
    requires Containers.Valid(c') && (Dense(c) ==> Dense(c')) && Elems(c') == Elems(c) + {x} && Dense(c)
    ensures Good(c')
    ensures |Elems(c')| == |Elems(c)| + (if x in Elems(c) then 0 else 1)
  {
    hide Elems;
    SizeAfterAdd(Elems(c), x);
    assert x in Elems(c');
  }

  /** `roaring_bitmap_remove_checked`: a container that becomes empty is removed. */
  method RemoveChecked(r: RoaringArray, val: u32) returns (result: bool)
    requires r.Valid()
    modifies r`size, r.keys, r.containers
    ensures r.Valid()
    ensures r.Values() == old(r.Values()) - {val as int}
    ensures result <==> val in old(r.Values())
  {
    hide Elems, At, Whole, Good, Dense, Containers.Valid, Layout, SameBut, Sorted;
    ghost var keys, cs := r.Keys(), r.Slots();
    LayoutIs(keys, cs);
    var hb, lb := val / 0x1_0000, val % 0x1_0000;
    var i := r.GetIndex(hb);
    if i < 0 {
      PointMember(keys, cs, val);
      Unchanged(Whole(keys, cs), val);
      AtMissing(keys, cs, hb);
      return false;
    }
    GoodAt(cs, i);
    var c := r.containers[i];
    assert c == cs[i];
    var oldCardinality := Cardinality(c);
    var c2, _ := Remove(c, lb);
    var newCardinality := Cardinality(c2);
    TakenFrom(keys, cs, i, val, c2);
    if newCardinality != 0 {
      r.SetContainer(i, c2);
    } else {
      r.RemoveAt(i);
    }
    result := oldCardinality != newCardinality;
  }

  /** One value less in the container of its key, which goes when it becomes empty. */
  lemma TakenFrom(keys: seq<u16>, cs: seq<Container>, i: nat, val: u32, c: Container)
    requires Layout(keys, cs) && i < |keys| && keys[i] == val / 0x1_0000
    requires Containers.Valid(c) && (Dense(cs[i]) ==> Dense(c)) && Elems(c) == Elems(cs[i]) - {val % 0x1_0000 as int}
    ensures |Elems(c)| == |Elems(cs[i])| - (if val in Whole(keys, cs) then 1 else 0)
    ensures |Elems(c)| != 0 ==> Layout(keys, cs[i := c]) && Whole(keys, cs[i := c]) == Whole(keys, cs) - {val as int}
    ensures |Elems(c)| == 0 ==>
      var keys', cs' := keys[..i] + keys[i + 1..], cs[..i] + cs[i + 1..];
      Layout(keys', cs') && Whole(keys', cs') == Whole(keys, cs) - {val as int}
  {
    hide Elems, At, Whole, Good, Dense, Containers.Valid, Layout, SameBut, Sorted;
    LayoutIs(keys, cs);
    PointMember(keys, cs, val);
    AtIndex(keys, cs, i);
    GoodAt(cs, i);
    SizeAfterAdd(Elems(cs[i]), val % 0x1_0000);
    if |Elems(c)| != 0 {
      NotEmpty(c);
      GoodIs(c);
      PutSlot(keys, cs, i, c);
      PointChange(keys, cs, keys, cs[i := c], val);
    } else {
      RemoveSlot(keys, cs, i);
      PointChange(keys, cs, keys[..i] + keys[i + 1..], cs[..i] + cs[i + 1..], val);
    }
  }

  lemma NotEmpty(c: Container)
    ensures |Elems(c)| != 0 ==> Elems(c) != {}
  {
  }

  // ---------- adding a range ----------

  /** `c` holds what key `x` holds in the old slots, and its part of the range; a new container is a run. */
  ghost predicate Written(c: Container, keys: seq<u16>, cs: seq<Container>, x: int, min: u32, max: u32)
    requires |keys| == |cs|
  {
    && Good(c) && Elems(c) == At(keys, cs, x) + Part(x, min, max)
    && (keys == [] && PartMin(x, min) < PartMax(x, max) ==> c.RunC?)
  }

  /** The state of the backward pass before it handles key `k`: `src` is the last old slot whose key is at most `k`. */
  ghost predicate Backward(keys: seq<u16>, cs: seq<Container>, p: nat, m: nat, k: int, src: int) {
    && |keys| == |cs| && p + m <= |keys| && p - 1 <= src < p + m
    && (forall i :: 0 <= i <= src ==> keys[i] <= k)
    && (forall i :: src < i < p + m ==> k < keys[i])
  }

  /** The old slots that the pass has not read are still in place. */
  ghost predicate Unread(keys: seq<u16>, cs: seq<Container>, kk: seq<u16>, cc: seq<Container>, src: int) {
    && |keys| == |cs| && |kk| == |cc| && src < |keys| && src < |kk|
    && (forall i :: 0 <= i <= src ==> kk[i] == keys[i] && cc[i] == cs[i])
  }

  /** The slots after the range have moved to the end. */
  ghost predicate Tail(keys: seq<u16>, cs: seq<Container>, kk: seq<u16>, cc: seq<Container>, from: nat, to: nat) {
    && |keys| == |cs| && |kk| == |cc| && from <= |keys| && to + |keys| - from == |kk|
    && kk[to..] == keys[from..] && cc[to..] == cs[from..]
  }

  /** The keys `k + 1 .. hi` have their slots, in order, from index `p + k + 1 - lo` on. */
  ghost predicate Placed(keys: seq<u16>, cs: seq<Container>, kk: seq<u16>, cc: seq<Container>,
                         p: nat, k: int, min: u32, max: u32)
  {
    var lo, hi := min / 0x1_0000, max / 0x1_0000;
    && |keys| == |cs| && |kk| == |cc| && lo - 1 <= k <= hi && p + (hi - lo + 1) <= |kk|
    && (forall j :: p + (k + 1 - lo) <= j < p + (hi - lo + 1) ==>
          kk[j] == j - p + lo && Written(cc[j], keys, cs, j - p + lo, min, max))
  }

  /** `src <= dst`: the keys of the old slots in the range are distinct. */
  lemma SourceBehind(keys: seq<u16>, cs: seq<Container>, p: nat, m: nat, k: int, src: int, lo: int)
    requires Sorted(keys) && Backward(keys, cs, p, m, k, src) && (p <= src ==> lo <= keys[p])
    requires lo - 1 <= k
    ensures src <= p + (k - lo)
    ensures src >= p && keys[src] != k ==> src < p + (k - lo)
    ensures src < p ==> src < p + (k - lo) + 1
  {
    if src >= p { SpreadUp(keys, p, src); }
  }

  /** The container that the pass writes for key `key`. */
  method RangeContainer(r: RoaringArray, key: u16, src: int, min: u32, max: u32,
                        ghost keys: seq<u16>, ghost cs: seq<Container>, ghost p: nat, ghost m: nat)
    returns (c: Container, src': int)
    requires r.Fits() && Layout(keys, cs) && src < r.size
    requires Backward(keys, cs, p, m, key, src) && LowerBound(keys, max / 0x1_0000 + 1, p + m)
    requires min <= max && min / 0x1_0000 <= key <= max / 0x1_0000
    requires Unread(keys, cs, r.Keys(), r.Slots(), src) && (p == 0 || keys[p - 1] < key)
    ensures Written(c, keys, cs, key, min, max)
    ensures Backward(keys, cs, p, m, key - 1, src')
    ensures src' == if src >= 0 && keys[src] == key then src - 1 else src
  {
    hide Elems, At, Good, Dense, Containers.Valid, Layout, Part;
    LayoutIs(keys, cs);
    PartIs(key, min, max);
    var containerMin: u32, containerMax: u32 := PartMin(key, min), PartMax(key, max);
    if src >= 0 && r.keys[src] == key {
      assert r.Keys()[src] == r.keys[src] && r.Slots()[src] == r.containers[src];
      AtIndex(keys, cs, src);
      GoodAt(cs, src);
      c := AddRange(r.containers[src], containerMin, containerMax);
      GrownIsGood(Elems(cs[src]), c, containerMin, containerMax + 1);
      src' := src - 1;
    } else {
      assert src >= 0 ==> r.Keys()[src] == r.keys[src];
      AtMissing(keys, cs, key);
      c := RangeOfOnes(containerMin, containerMax + 1);
      src' := src;
    }
  }

  lemma GrownIsGood(s: set<int>, c: Container, lo: int, hi: int)
    requires Containers.Valid(c) && Dense(c) && Elems(c) == s + Range(lo, hi) && lo < hi
    ensures Good(c)
  {
    hide Elems;
    assert lo in Range(lo, hi);
    assert lo in Elems(c);
  }

  /** The finished slots: those before the range, one for every key of the range, those after it. */
  lemma Assembled(keys: seq<u16>, cs: seq<Container>, kk: seq<u16>, cc: seq<Container>,
                  p: nat, m: nat, min: u32, max: u32)
    requires Layout(keys, cs) && min <= max && p + m <= |keys|
    requires LowerBound(keys, min / 0x1_0000, p) && LowerBound(keys, max / 0x1_0000 + 1, p + m)
    requires Unread(keys, cs, kk, cc, p - 1)
    requires Placed(keys, cs, kk, cc, p, min / 0x1_0000 - 1, min, max)
    requires Tail(keys, cs, kk, cc, p + m, p + (max / 0x1_0000 - min / 0x1_0000 + 1))
    ensures Layout(kk, cc) && Whole(kk, cc) == Whole(keys, cs) + Range(min, max + 1)
  {
    hide At, Elems, Good, Whole, Part, Written, LowerBound, Placed, Tail, Unread;
    AssembledSorted(keys, cs, kk, cc, p, m, min, max);
    forall k | 0 <= k < 0x1_0000 ensures At(kk, cc, k) == At(keys, cs, k) + Part(k, min, max) {
      AssembledAt(keys, cs, kk, cc, p, m, min, max, k);
    }
    WholeRange(keys, cs, kk, cc, min, max);
  }

  lemma AssembledSorted(keys: seq<u16>, cs: seq<Container>, kk: seq<u16>, cc: seq<Container>,
                        p: nat, m: nat, min: u32, max: u32)
    requires Layout(keys, cs) && min <= max && p + m <= |keys|
    requires LowerBound(keys, min / 0x1_0000, p) && LowerBound(keys, max / 0x1_0000 + 1, p + m)
    requires Unread(keys, cs, kk, cc, p - 1)
    requires Placed(keys, cs, kk, cc, p, min / 0x1_0000 - 1, min, max)
    requires Tail(keys, cs, kk, cc, p + m, p + (max / 0x1_0000 - min / 0x1_0000 + 1))
    ensures Layout(kk, cc)
  {
    hide Layout, Placed, Unread, Tail;
    var lo, hi := min / 0x1_0000, max / 0x1_0000;
    var e := p + (hi - lo + 1);
    PlacedLayout(keys, cs, kk, cc, p, min, max);
    LayoutParts(keys, cs, p);
    LayoutParts(keys, cs, p + m);
    AssembledParts(keys, cs, kk, cc, p, m, e);
    var a, b, c := keys[..p], kk[p..e], keys[p + m..];
    LayoutConcat(a, cs[..p], b, cc[p..e]);
    assert p > 0 ==> a[p - 1] == keys[p - 1];
    assert c != [] ==> c[0] == keys[p + m];
    LayoutConcat(a + b, cs[..p] + cc[p..e], c, cs[p + m..]);
  }

  lemma AssembledParts(keys: seq<u16>, cs: seq<Container>, kk: seq<u16>, cc: seq<Container>, p: nat, m: nat, e: nat)
    requires |keys| == |cs| && p + m <= |keys| && p <= e <= |kk|
    requires Unread(keys, cs, kk, cc, p - 1) && Tail(keys, cs, kk, cc, p + m, e)
    ensures |kk| == |cc|
    ensures kk == keys[..p] + kk[p..e] + keys[p + m..] && cc == cs[..p] + cc[p..e] + cs[p + m..]
  {
    assert kk == kk[..p] + kk[p..e] + kk[e..] && cc == cc[..p] + cc[p..e] + cc[e..];
    assert kk[..p] == keys[..p] && cc[..p] == cs[..p];
  }

  lemma LayoutConcat(keys1: seq<u16>, cs1: seq<Container>, keys2: seq<u16>, cs2: seq<Container>)
    requires Layout(keys1, cs1) && Layout(keys2, cs2)
    requires keys1 != [] && keys2 != [] ==> keys1[|keys1| - 1] < keys2[0]
    ensures Layout(keys1 + keys2, cs1 + cs2)
  {
  }

  lemma LayoutParts(keys: seq<u16>, cs: seq<Container>, i: nat)
    requires Layout(keys, cs) && i <= |keys|
    ensures |keys| == |cs| && Layout(keys[..i], cs[..i]) && Layout(keys[i..], cs[i..])
  {
  }

  lemma PlacedLayout(keys: seq<u16>, cs: seq<Container>, kk: seq<u16>, cc: seq<Container>, p: nat, min: u32, max: u32)
    requires min <= max && Placed(keys, cs, kk, cc, p, min / 0x1_0000 - 1, min, max)
    ensures var e := p + (max / 0x1_0000 - min / 0x1_0000 + 1);
      && e <= |kk| && Layout(kk[p..e], cc[p..e]) && kk[p] == min / 0x1_0000 && kk[e - 1] == max / 0x1_0000
  {
    hide Good;
    var lo, hi := min / 0x1_0000, max / 0x1_0000;
    var e := p + (hi - lo + 1);
    forall i | 0 <= i < e - p ensures Good(cc[p..e][i]) { WrittenGood(cc[p + i], keys, cs, i + lo, min, max); }
  }

  lemma WrittenGood(c: Container, keys: seq<u16>, cs: seq<Container>, x: int, min: u32, max: u32)
    requires |keys| == |cs| && Written(c, keys, cs, x, min, max)
    ensures Good(c)
  {
  }

  lemma AssembledAt(keys: seq<u16>, cs: seq<Container>, kk: seq<u16>, cc: seq<Container>,
                    p: nat, m: nat, min: u32, max: u32, k: int)
    requires Layout(keys, cs) && Layout(kk, cc) && min <= max && p + m <= |keys|
    requires LowerBound(keys, min / 0x1_0000, p) && LowerBound(keys, max / 0x1_0000 + 1, p + m)
    requires Unread(keys, cs, kk, cc, p - 1)
    requires Placed(keys, cs, kk, cc, p, min / 0x1_0000 - 1, min, max)
    requires Tail(keys, cs, kk, cc, p + m, p + (max / 0x1_0000 - min / 0x1_0000 + 1))
    ensures At(kk, cc, k) == At(keys, cs, k) + Part(k, min, max)
  {
    hide At, Elems, Good, Part, Sorted;
    var lo, hi := min / 0x1_0000, max / 0x1_0000;
    var e := p + (hi - lo + 1);
    PartIs(k, min, max);
    if lo <= k <= hi {
      AtIndex(kk, cc, p + (k - lo));
      assert Written(cc[p + (k - lo)], keys, cs, k, min, max);
    } else {
      OutsideAt(keys, cs, kk, cc, p, m, lo, hi, k);
    }
  }

  lemma OutsideAt(keys: seq<u16>, cs: seq<Container>, kk: seq<u16>, cc: seq<Container>,
                  p: nat, m: nat, lo: int, hi: int, k: int)
    requires |keys| == |cs| && |kk| == |cc| && lo <= hi && p + m <= |keys| && !(lo <= k <= hi)
    requires LowerBound(keys, lo, p) && LowerBound(keys, hi + 1, p + m)
    requires Unread(keys, cs, kk, cc, p - 1) && Tail(keys, cs, kk, cc, p + m, p + (hi - lo + 1))
    requires forall j :: p <= j < p + (hi - lo + 1) ==> lo <= kk[j] <= hi
    ensures At(kk, cc, k) == At(keys, cs, k)
  {
    hide At, Elems, LowerBound, Unread;
    var e := p + (hi - lo + 1);
    NoneInside(keys, lo, hi, p, m, k);
    UnreadPrefix(keys, cs, kk, cc, p);
    MiddleMissing(kk, cc, p, e, k);
    MiddleMissing(keys, cs, p, p + m, k);
  }

  lemma NoneInside(keys: seq<u16>, lo: int, hi: int, p: nat, m: nat, k: int)
    requires p + m <= |keys| && LowerBound(keys, lo, p) && LowerBound(keys, hi + 1, p + m) && !(lo <= k <= hi)
    ensures forall i :: p <= i < p + m ==> keys[i] != k
  {
  }

  lemma UnreadPrefix(keys: seq<u16>, cs: seq<Container>, kk: seq<u16>, cc: seq<Container>, p: nat)
    requires Unread(keys, cs, kk, cc, p - 1)
    ensures |keys| == |cs| && |kk| == |cc| && p <= |keys| && p <= |kk| && kk[..p] == keys[..p] && cc[..p] == cs[..p]
  {
  }

  lemma MiddleMissing(keys: seq<u16>, cs: seq<Container>, i: nat, j: nat, k: int)
    requires |keys| == |cs| && i <= j <= |keys| && forall x :: i <= x < j ==> keys[x] != k
    ensures At(keys, cs, k) == At(keys[..i], cs[..i], k) + At(keys[j..], cs[j..], k)
  {
    hide At, Elems;
    AtThree(keys, cs, i, j, k);
    AtMissing(keys[i..j], cs[i..j], k);
  }

  /** What a key holds in a list of slots cut at two places. */
  lemma AtThree(keys: seq<u16>, cs: seq<Container>, i: nat, j: nat, k: int)
    requires |keys| == |cs| && i <= j <= |keys|
    ensures At(keys, cs, k) == At(keys[..i], cs[..i], k) + At(keys[i..j], cs[i..j], k) + At(keys[j..], cs[j..], k)
  {
    hide At, Elems;
    assert keys == keys[..i] + keys[i..j] + keys[j..] && cs == cs[..i] + cs[i..j] + cs[j..];
    AtConcat(keys[..i] + keys[i..j], cs[..i] + cs[i..j], keys[j..], cs[j..], k);
    AtConcat(keys[..i], cs[..i], keys[i..j], cs[i..j], k);
  }

  /** Nothing but slot `dst` changes in a step of the pass. */
  lemma PlacedStep(keys: seq<u16>, cs: seq<Container>, kk: seq<u16>, cc: seq<Container>,
                   p: nat, k: int, min: u32, max: u32, c: Container)
    requires Placed(keys, cs, kk, cc, p, k, min, max) && min / 0x1_0000 <= k && Written(c, keys, cs, k, min, max)
    ensures 0 <= k < 0x1_0000
    ensures var dst := p + (k - min / 0x1_0000);
      dst < |kk| && Placed(keys, cs, kk[dst := k], cc[dst := c], p, k - 1, min, max)
  {
    hide Written;
  }

  lemma UnreadStep(keys: seq<u16>, cs: seq<Container>, kk: seq<u16>, cc: seq<Container>,
                   src: int, src': int, dst: nat, key: u16, c: Container)
    requires Unread(keys, cs, kk, cc, src) && src' <= src && src' < dst < |kk|
    ensures Unread(keys, cs, kk[dst := key], cc[dst := c], src')
  {
  }

  lemma TailStep(keys: seq<u16>, cs: seq<Container>, kk: seq<u16>, cc: seq<Container>,
                 from: nat, to: nat, dst: nat, key: u16, c: Container)
    requires Tail(keys, cs, kk, cc, from, to) && dst < to <= |kk|
    ensures Tail(keys, cs, kk[dst := key], cc[dst := c], from, to)
  {
  }

  /** One step of the pass: the container of `key` goes to `dst`, which no unread slot occupies. */
  method PassStep(r: RoaringArray, key: u16, src: int, dst: nat, min: u32, max: u32,
                  ghost keys: seq<u16>, ghost cs: seq<Container>, ghost p: nat, ghost m: nat)
    returns (src': int)
    requires r.Fits() && Layout(keys, cs) && min <= max && p + m <= |keys|
    requires LowerBound(keys, min / 0x1_0000, p) && LowerBound(keys, max / 0x1_0000 + 1, p + m)
    requires min / 0x1_0000 <= key <= max / 0x1_0000 && dst == p + (key - min / 0x1_0000)
    requires Backward(keys, cs, p, m, key, src) && Unread(keys, cs, r.Keys(), r.Slots(), src)
    requires Placed(keys, cs, r.Keys(), r.Slots(), p, key, min, max)
    requires Tail(keys, cs, r.Keys(), r.Slots(), p + m, p + (max / 0x1_0000 - min / 0x1_0000 + 1))
    modifies r.keys, r.containers
    ensures p - 1 <= src' < p + m && Backward(keys, cs, p, m, key - 1, src')
    ensures Unread(keys, cs, r.Keys(), r.Slots(), src')
    ensures Placed(keys, cs, r.Keys(), r.Slots(), p, key - 1, min, max)
    ensures Tail(keys, cs, r.Keys(), r.Slots(), p + m, p + (max / 0x1_0000 - min / 0x1_0000 + 1))
  {
    hide Unread, Tail, Placed, Written, Layout, Sorted, Backward, LowerBound;
    LayoutIs(keys, cs);
    AroundPrefix(keys, p, min / 0x1_0000);
    BackwardBounds(keys, cs, p, m, key, src);
    SourceBehind(keys, cs, p, m, key, src, min / 0x1_0000);
    InsideSlots(keys, cs, r.Keys(), r.Slots(), src, p, key, min, max);
    var newContainer;
    newContainer, src' := RangeContainer(r, key, src, min, max, keys, cs, p, m);
    BackwardBounds(keys, cs, p, m, key - 1, src');
    PlacedStep(keys, cs, r.Keys(), r.Slots(), p, key, min, max, newContainer);
    UnreadStep(keys, cs, r.Keys(), r.Slots(), src, src', dst, key, newContainer);
    TailStep(keys, cs, r.Keys(), r.Slots(), p + m, p + (max / 0x1_0000 - min / 0x1_0000 + 1), dst, key, newContainer);
    r.Replace(dst, key, newContainer);
  }

  lemma BackwardBounds(keys: seq<u16>, cs: seq<Container>, p: nat, m: nat, k: int, src: int)
    requires Backward(keys, cs, p, m, k, src)
    ensures p - 1 <= src < p + m
  {
  }

  /**
   The backward pass of `roaring_bitmap_add_range_closed`. The loop counts `key` down in 32 bits, and stops when it
   reaches `min_key - 1`, which wraps around when `min_key` is 0.
   */
  method BackwardPass(r: RoaringArray, min: u32, max: u32, prefixLength: nat, commonLength: nat,
                      ghost keys: seq<u16>, ghost cs: seq<Container>)
    requires r.Fits() && Layout(keys, cs) && min <= max && prefixLength + commonLength <= |keys|
    requires LowerBound(keys, min / 0x1_0000, prefixLength)
    requires LowerBound(keys, max / 0x1_0000 + 1, prefixLength + commonLength)
    requires Unread(keys, cs, r.Keys(), r.Slots(), prefixLength + commonLength - 1)
    requires Tail(keys, cs, r.Keys(), r.Slots(), prefixLength + commonLength,
                  prefixLength + (max / 0x1_0000 - min / 0x1_0000 + 1))
    modifies r.keys, r.containers
    ensures Unread(keys, cs, r.Keys(), r.Slots(), prefixLength - 1)
    ensures Placed(keys, cs, r.Keys(), r.Slots(), prefixLength, min / 0x1_0000 - 1, min, max)
    ensures Tail(keys, cs, r.Keys(), r.Slots(), prefixLength + commonLength,
                 prefixLength + (max / 0x1_0000 - min / 0x1_0000 + 1))
  {
    hide Unread, Tail, Placed, Written, Layout, Sorted, Backward, LowerBound;
    LayoutIs(keys, cs);
    AroundPrefix(keys, prefixLength, min / 0x1_0000);
    var minKey: u32, maxKey: u32 := min / 0x1_0000, max / 0x1_0000;
    ghost var p, m := prefixLength, commonLength;
    ghost var end := p + (maxKey - minKey + 1);
    PassStart(keys, cs, r.Keys(), r.Slots(), p, m, min, max);
    var src := prefixLength + commonLength - 1;
    var dst: int := prefixLength + (maxKey - minKey);
    ghost var k: int := maxKey;
    var key: u32 := maxKey;
    while key != (minKey - 1) % 0x1_0000_0000
      invariant minKey - 1 <= k <= maxKey && key == k % 0x1_0000_0000
      invariant dst == p + (k - minKey) && p - 1 <= src < p + m
      invariant Backward(keys, cs, p, m, k, src)
      invariant Unread(keys, cs, r.Keys(), r.Slots(), src)
      invariant Placed(keys, cs, r.Keys(), r.Slots(), p, k, min, max)
      invariant Tail(keys, cs, r.Keys(), r.Slots(), p + m, end)
      decreases k
    {
      src := PassStep(r, key, src, dst, min, max, keys, cs, p, m);
      dst := dst - 1;
      key, k := (key - 1) % 0x1_0000_0000, k - 1;
    }
    PassEnd(keys, cs, p, m, k, src, minKey);
  }

  lemma PassStart(keys: seq<u16>, cs: seq<Container>, kk: seq<u16>, cc: seq<Container>, p: nat, m: nat, min: u32,
                  max: u32)
    requires |keys| == |cs| && p + m <= |keys| && min <= max && |kk| == |cc|
    requires LowerBound(keys, max / 0x1_0000 + 1, p + m)
    requires Tail(keys, cs, kk, cc, p + m, p + (max / 0x1_0000 - min / 0x1_0000 + 1))
    ensures Backward(keys, cs, p, m, max / 0x1_0000, p + m - 1)
    ensures Placed(keys, cs, kk, cc, p, max / 0x1_0000, min, max)
  {
  }

  lemma InsideSlots(keys: seq<u16>, cs: seq<Container>, kk: seq<u16>, cc: seq<Container>, src: int, p: nat, k: int,
                    min: u32, max: u32)
    requires Unread(keys, cs, kk, cc, src) && Placed(keys, cs, kk, cc, p, k, min, max)
    ensures |keys| == |cs| && |kk| == |cc| && src < |keys| && src < |kk|
    ensures p + (max / 0x1_0000 - min / 0x1_0000 + 1) <= |kk|
  {
  }

  /** All the old slots of the range have been read. */
  lemma PassEnd(keys: seq<u16>, cs: seq<Container>, p: nat, m: nat, k: int, src: int, lo: int)
    requires Backward(keys, cs, p, m, k, src) && k == lo - 1 && LowerBound(keys, lo, p)
    ensures src == p - 1
  {
    if src >= 0 { LowerBoundAt(keys, lo, p, src); }
  }

  lemma AroundPrefix(keys: seq<u16>, p: nat, lo: int)
    requires LowerBound(keys, lo, p)
    ensures p < |keys| ==> lo <= keys[p]
    ensures p > 0 ==> keys[p - 1] < lo
  {
  }

  /** The three lengths of the range insertion: the slots before, within and after `[lo, hi]`. */
  lemma ThreeLengths(keys: seq<u16>, suffix: nat, prefix: nat, lo: u16, hi: u16)
    requires Sorted(keys) && lo <= hi && suffix <= |keys|
    requires LowerBound(keys, hi + 1, |keys| - suffix) && LowerBound(keys[..|keys| - suffix], lo, prefix)
    ensures prefix <= |keys| - suffix && LowerBound(keys, lo, prefix)
    ensures |keys| - suffix - prefix <= hi - lo + 1
    ensures prefix + (hi - lo + 1) + suffix <= MAX_CONTAINERS
  {
    var n := |keys| - suffix;
    assert |keys[..n]| == n;
    forall i | 0 <= i < |keys| ensures keys[i] < lo <==> i < prefix {
      if i < n { assert keys[..n][i] == keys[i]; }
    }
    if prefix < n { SpreadUp(keys, prefix, n - 1); }
    if prefix > 0 { SpreadUp(keys, 0, prefix - 1); }
    if suffix > 0 { SpreadUp(keys, n, |keys| - 1); }
  }

  /** `roaring_bitmap_add_range_closed` */
  method AddRangeClosed(r: RoaringArray, min: u32, max: u32)
    requires r.Valid()
    modifies r, r.keys, r.containers
    ensures r.Valid()
    ensures (r.keys == old(r.keys) || fresh(r.keys)) && (r.containers == old(r.containers) || fresh(r.containers))
    ensures r.Values() == old(r.Values()) + Range(min, max + 1)
    ensures old(r.Keys()) == [] && min < max && min / 0x1_0000 == max / 0x1_0000 ==>
      |r.Slots()| == 1 && r.Slots()[0].RunC?
  {
    hide Unread, Tail, Placed, Layout, Sorted, LowerBound, Whole;
    ghost var keys, cs := r.Keys(), r.Slots();
    LayoutIs(keys, cs);
    if min > max {
      NoRange(r.Values(), min, max);
      return;
    }
    var minKey, maxKey := min / 0x1_0000, max / 0x1_0000;
    var numRequiredContainers := maxKey - minKey + 1;
    var suffixLength := r.CountGreater(maxKey);
    var prefixLength := r.CountLess(r.size - suffixLength, minKey);
    ThreeLengths(keys, suffixLength, prefixLength, minKey, maxKey);
    var commonLength := r.size - prefixLength - suffixLength;
    OpenSlots(r, suffixLength, prefixLength, commonLength, numRequiredContainers);
    BackwardPass(r, min, max, prefixLength, commonLength, keys, cs);
    Assembled(keys, cs, r.Keys(), r.Slots(), prefixLength, commonLength, min, max);
    if keys == [] && min < max && minKey == maxKey { OneNewSlot(keys, cs, r.Keys(), r.Slots(), min, max); }
  }

  lemma OneNewSlot(keys: seq<u16>, cs: seq<Container>, kk: seq<u16>, cc: seq<Container>, min: u32, max: u32)
    requires keys == [] && min < max && min / 0x1_0000 == max / 0x1_0000
    requires Placed(keys, cs, kk, cc, 0, min / 0x1_0000 - 1, min, max) && Tail(keys, cs, kk, cc, 0, 1)
    ensures |cc| == 1 && cc[0].RunC?
  {
    hide Good, Elems, At, Part;
    assert Written(cc[0], keys, cs, min / 0x1_0000, min, max);
    assert PartMin(min / 0x1_0000, min) < PartMax(min / 0x1_0000, max);
  }

  /** The tail shift that makes room for the containers the range still lacks. */
  method OpenSlots(r: RoaringArray, suffixLength: nat, prefixLength: nat, commonLength: nat, required: nat)
    requires r.Fits() && r.size == prefixLength + commonLength + suffixLength
    requires commonLength <= required && prefixLength + required + suffixLength <= MAX_CONTAINERS
    modifies r, r.keys, r.containers
    ensures r.Fits()
    ensures (r.keys == old(r.keys) || fresh(r.keys)) && (r.containers == old(r.containers) || fresh(r.containers))
    ensures Unread(old(r.Keys()), old(r.Slots()), r.Keys(), r.Slots(), prefixLength + commonLength - 1)
    ensures Tail(old(r.Keys()), old(r.Slots()), r.Keys(), r.Slots(), prefixLength + commonLength,
                 prefixLength + required)
  {
    hide Unread, Tail;
    ghost var keys, cs := r.Keys(), r.Slots();
    if required > commonLength {
      r.ShiftTailRight(suffixLength, required - commonLength);
    }
    AfterShift(keys, cs, r.Keys(), r.Slots(), prefixLength + commonLength, prefixLength + required);
  }

  lemma NoRange(s: set<int>, min: int, max: int)
    requires min > max
    ensures s + Range(min, max + 1) == s && s - Range(min, max + 1) == s
  {
  }

  /** What the tail shift leaves, or the original slots when there was nothing to shift. */
  lemma AfterShift(keys: seq<u16>, cs: seq<Container>, kk: seq<u16>, cc: seq<Container>, from: nat, to: nat)
    requires |keys| == |cs| && |kk| == |cc| && from <= |keys| && from <= to && |kk| == to + |keys| - from
    requires kk[..from] == keys[..from] && cc[..from] == cs[..from]
    requires kk[to..] == keys[from..] && cc[to..] == cs[from..]
    ensures Unread(keys, cs, kk, cc, from - 1) && Tail(keys, cs, kk, cc, from, to)
  {
  }

  // ---------- removing a range ----------

  /** The forward pass has compacted what is left of the first `src` slots into the first `dst`. */
  ghost predicate Compacted(keys: seq<u16>, cs: seq<Container>, kk: seq<u16>, cc: seq<Container>,
                            src: nat, dst: nat, min: u32, max: u32)
  {
    && |keys| == |cs| == |kk| == |cc| && dst <= src <= |keys|
    && Layout(kk[..dst], cc[..dst])
    && (dst > 0 && src < |keys| ==> kk[dst - 1] < keys[src])
    && (forall k :: 0 <= k < 0x1_0000 ==>
          At(kk[..dst], cc[..dst], k) == At(keys[..src], cs[..src], k) - Part(k, min, max))
    && kk[src..] == keys[src..] && cc[src..] == cs[src..]
  }

  lemma CompactedBounds(keys: seq<u16>, cs: seq<Container>, kk: seq<u16>, cc: seq<Container>,
                        src: nat, dst: nat, min: u32, max: u32)
    requires Compacted(keys, cs, kk, cc, src, dst, min, max)
    ensures |keys| == |cs| == |kk| == |cc| && dst <= src <= |keys|
    ensures kk[src..] == keys[src..] && cc[src..] == cs[src..]
    ensures src < |keys| ==> kk[src] == keys[src] && cc[src] == cs[src]
  {
  }

  lemma CompactedStart(keys: seq<u16>, cs: seq<Container>, p: nat, min: u32, max: u32)
    requires Layout(keys, cs) && min <= max && LowerBound(keys, min / 0x1_0000, p)
    ensures Compacted(keys, cs, keys, cs, p, p, min, max)
  {
    hide At, Part, Elems, Good;
    LayoutParts(keys, cs, p);
    forall k | 0 <= k < 0x1_0000 ensures At(keys[..p], cs[..p], k) == At(keys[..p], cs[..p], k) - Part(k, min, max) {
      PartIs(k, min, max);
      if k >= min / 0x1_0000 { AtMissing(keys[..p], cs[..p], k); }
    }
  }

  lemma Distribute(a: set<int>, e: set<int>, p: set<int>)
    ensures (a + e) - p == (a - p) + (e - p)
    ensures e - p == {} ==> (a + e) - p == a - p
  {
  }

  /** One more slot, of which `l` is left. */
  lemma CompactedStep(keys: seq<u16>, cs: seq<Container>, kk: seq<u16>, cc: seq<Container>,
                      src: nat, dst: nat, min: u32, max: u32, l: Left)
    requires Layout(keys, cs) && Compacted(keys, cs, kk, cc, src, dst, min, max) && src < |keys|
    requires Leaves(l, Elems(cs[src]) - Part(keys[src], min, max)) && LeavesDense(l)
    ensures l.Just? ==> Compacted(keys, cs, kk[dst := keys[src]], cc[dst := l.container], src + 1, dst + 1, min, max)
    ensures l.Nothing? ==> Compacted(keys, cs, kk, cc, src + 1, dst, min, max)
  {
    hide At, Part, Elems, Layout, Good, Dense, Containers.Valid;
    LayoutIs(keys, cs);
    var key := keys[src];
    match l {
      case Nothing =>
        forall k | 0 <= k < 0x1_0000
          ensures At(kk[..dst], cc[..dst], k) == At(keys[..src + 1], cs[..src + 1], k) - Part(k, min, max)
        {
          AtPrefix(keys, cs, src, k);
          Distribute(At(keys[..src], cs[..src], k), Elems(cs[src]), Part(k, min, max));
        }
        assert kk[src..][1..] == kk[src + 1..] && keys[src..][1..] == keys[src + 1..];
        assert cc[src..][1..] == cc[src + 1..] && cs[src..][1..] == cs[src + 1..];
      case Just(c) =>
        var kk', cc' := kk[dst := key], cc[dst := c];
        assert kk'[..dst + 1] == kk[..dst] + [key] && cc'[..dst + 1] == cc[..dst] + [c];
        GoodIs(c);
        LayoutOne(key, c);
        LayoutConcat(kk[..dst], cc[..dst], [key], [c]);
        forall k | 0 <= k < 0x1_0000
          ensures At(kk'[..dst + 1], cc'[..dst + 1], k) == At(keys[..src + 1], cs[..src + 1], k) - Part(k, min, max)
        {
          AtPrefix(keys, cs, src, k);
          AtSnoc(kk[..dst], cc[..dst], key, c, k);
          Distribute(At(keys[..src], cs[..src], k), Elems(cs[src]), Part(k, min, max));
        }
        assert kk[src..][1..] == kk'[src + 1..] && keys[src..][1..] == keys[src + 1..];
        assert cc[src..][1..] == cc'[src + 1..] && cs[src..][1..] == cs[src + 1..];
    }
  }

  lemma LayoutOne(key: u16, c: Container)
    requires Good(c)
    ensures Layout([key], [c])
  {
  }

  /** The slots left of the range, and those after it. */
  lemma CompactedEnd(keys: seq<u16>, cs: seq<Container>, kk: seq<u16>, cc: seq<Container>,
                     src: nat, dst: nat, min: u32, max: u32)
    requires Layout(keys, cs) && min <= max && Compacted(keys, cs, kk, cc, src, dst, min, max)
    requires src < |keys| ==> max / 0x1_0000 < keys[src]
    ensures var kk', cc' := kk[..dst] + kk[src..], cc[..dst] + cc[src..];
      Layout(kk', cc') && Whole(kk', cc') == Whole(keys, cs) - Range(min, max + 1)
  {
    hide At, Part, Elems, Layout, Good, Whole;
    LayoutIs(keys, cs);
    LayoutParts(keys, cs, src);
    LayoutConcat(kk[..dst], cc[..dst], keys[src..], cs[src..]);
    var kk', cc' := kk[..dst] + kk[src..], cc[..dst] + cc[src..];
    forall k | 0 <= k < 0x1_0000 ensures At(kk', cc', k) == At(keys, cs, k) - Part(k, min, max) {
      AtConcat(kk[..dst], cc[..dst], keys[src..], cs[src..], k);
      AtThree(keys, cs, src, src, k);
      AtNothing(k);
      assert keys[src..src] == [] && cs[src..src] == [];
      AfterRange(keys, cs, src, min, max, k);
      Distribute(At(keys[..src], cs[..src], k), At(keys[src..], cs[src..], k), Part(k, min, max));
    }
    WholeRange(keys, cs, kk', cc', min, max);
  }

  lemma AtNothing(k: int)
    ensures At([], [], k) == {}
  {
  }

  lemma AfterRange(keys: seq<u16>, cs: seq<Container>, src: nat, min: u32, max: u32, k: int)
    requires |keys| == |cs| && Sorted(keys) && src <= |keys| && min <= max
    requires (src < |keys| ==> max / 0x1_0000 < keys[src])
    ensures At(keys[src..], cs[src..], k) - Part(k, min, max) == At(keys[src..], cs[src..], k)
  {
    hide At, Part, Elems;
    PartIs(k, min, max);
    if k <= max / 0x1_0000 { AtMissing(keys[src..], cs[src..], k); }
  }

  /** A container as it was, or as a range removal leaves it. */
  ghost predicate TrimmedFrom(c: Container, c0: Container) {
    c == c0 || LeftAs(c0, Just(c), Elems(c))
  }

  ghost predicate Trimmed(key: u16, c: Container, keys: seq<u16>, cs: seq<Container>)
    requires |keys| == |cs|
  {
    exists i :: 0 <= i < |keys| && keys[i] == key && TrimmedFrom(c, cs[i])
  }

  /** So are the first `n` slots. */
  ghost predicate AllTrimmed(kk: seq<u16>, cc: seq<Container>, n: nat, keys: seq<u16>, cs: seq<Container>) {
    n <= |kk| == |cc| && |keys| == |cs| && forall j :: 0 <= j < n ==> Trimmed(kk[j], cc[j], keys, cs)
  }

  lemma TrimmedStart(keys: seq<u16>, cs: seq<Container>, n: nat)
    requires n <= |keys| == |cs|
    ensures AllTrimmed(keys, cs, n, keys, cs)
  {
    hide LeftAs;
    forall j | 0 <= j < n ensures Trimmed(keys[j], cs[j], keys, cs) { assert TrimmedFrom(cs[j], cs[j]); }
  }

  lemma TrimmedStep(kk: seq<u16>, cc: seq<Container>, dst: nat, keys: seq<u16>, cs: seq<Container>, src: nat,
                    l: Left, s: set<int>)
    requires AllTrimmed(kk, cc, dst, keys, cs) && src < |keys| && dst < |kk|
    requires Leaves(l, s) && LeftAs(cs[src], l, s)
    ensures l.Just? ==> AllTrimmed(kk[dst := keys[src]], cc[dst := l.container], dst + 1, keys, cs)
  {
    hide LeftAs, Elems, Containers.Valid;
    if l.Just? { assert TrimmedFrom(l.container, cs[src]); }
  }

  lemma TrimmedEnd(kk: seq<u16>, cc: seq<Container>, dst: nat, keys: seq<u16>, cs: seq<Container>, src: nat)
    requires AllTrimmed(kk, cc, dst, keys, cs) && dst <= src <= |kk| == |keys|
    requires kk[src..] == keys[src..] && cc[src..] == cs[src..]
    ensures AllTrimmed(kk[..dst] + kk[src..], cc[..dst] + cc[src..], dst + (|kk| - src), keys, cs)
  {
    hide LeftAs;
    var kk', cc' := kk[..dst] + kk[src..], cc[..dst] + cc[src..];
    forall j | 0 <= j < dst + (|kk| - src) ensures Trimmed(kk'[j], cc'[j], keys, cs) {
      if dst <= j {
        var i := j - dst + src;
        assert kk'[j] == keys[src..][j - dst] && cc'[j] == cs[src..][j - dst];
        assert TrimmedFrom(cs[i], cs[i]);
      }
    }
  }

  /** What is left of the container at `src` of the forward pass. */
  method RemoveAtKey(c: Container, key: u16, min: u32, max: u32) returns (l: Left)
    requires Good(c) && min <= max && min / 0x1_0000 <= key <= max / 0x1_0000
    ensures Leaves(l, Elems(c) - Part(key, min, max)) && LeavesDense(l)
    ensures LeftAs(c, l, Elems(c) - Part(key, min, max))
  {
    hide Elems, Part;
    PartIs(key, min, max);
    l := RemoveRange(c, PartMin(key, min), PartMax(key, max));
  }

  /** `roaring_bitmap_remove_range_closed` */
  method RemoveRangeClosed(r: RoaringArray, min: u32, max: u32)
    requires r.Valid()
    modifies r`size, r.keys, r.containers
    ensures r.Valid() && r.Values() == old(r.Values()) - Range(min, max + 1)
    ensures AllTrimmed(r.Keys(), r.Slots(), |r.Slots()|, old(r.Keys()), old(r.Slots()))
  {
    hide At, Part, Elems, Layout, Good, Whole, Compacted, Sorted, Leaves, AllTrimmed;
    ghost var keys, cs := r.Keys(), r.Slots();
    LayoutIs(keys, cs);
    TrimmedStart(keys, cs, |keys|);
    if min > max {
      NoRange(r.Values(), min, max);
      return;
    }
    var minKey, maxKey := min / 0x1_0000, max / 0x1_0000;
    var src := r.CountLess(r.size, minKey);
    assert keys[..r.size] == keys;
    CompactedStart(keys, cs, src, min, max);
    TrimmedStart(keys, cs, src);
    ForwardPass(r, min, max, src, keys, cs);
  }

  /** The forward pass, and the tail shift that closes the gap it leaves. */
  method ForwardPass(r: RoaringArray, min: u32, max: u32, from: nat, ghost keys: seq<u16>, ghost cs: seq<Container>)
    requires r.Fits() && Layout(keys, cs) && min <= max && from <= |keys| && LowerBound(keys, min / 0x1_0000, from)
    requires keys == r.Keys() && Compacted(keys, cs, r.Keys(), r.Slots(), from, from, min, max)
    requires AllTrimmed(r.Keys(), r.Slots(), from, keys, cs)
    modifies r`size, r.keys, r.containers
    ensures r.Valid() && r.Values() == Whole(keys, cs) - Range(min, max + 1)
    ensures AllTrimmed(r.Keys(), r.Slots(), |r.Slots()|, keys, cs)
  {
    hide At, Part, Elems, Layout, Good, Whole, Compacted, Sorted, Leaves, LowerBound, AllTrimmed;
    LayoutIs(keys, cs);
    var maxKey := max / 0x1_0000;
    var src: nat, dst: nat := from, from;
    while src < r.size && r.keys[src] <= maxKey
      invariant r.Fits() && r.size == |keys| && from <= src && dst <= src <= |keys|
      invariant Compacted(keys, cs, r.Keys(), r.Slots(), src, dst, min, max)
      invariant AllTrimmed(r.Keys(), r.Slots(), dst, keys, cs)
      decreases |keys| - src
    {
      src, dst := ForwardStep(r, min, max, src, dst, from, keys, cs);
    }
    CompactedBounds(keys, cs, r.Keys(), r.Slots(), src, dst, min, max);
    assert src < r.size ==> r.keys[src] == r.Keys()[src];
    CompactedEnd(keys, cs, r.Keys(), r.Slots(), src, dst, min, max);
    TrimmedEnd(r.Keys(), r.Slots(), dst, keys, cs, src);
    if src > dst {
      r.CloseGap(dst, src);
    } else {
      assert r.Keys() == r.Keys()[..dst] + r.Keys()[src..] && r.Slots() == r.Slots()[..dst] + r.Slots()[src..];
    }
  }

  /** One step of the forward pass. */
  method ForwardStep(r: RoaringArray, min: u32, max: u32, src: nat, dst: nat, ghost from: nat,
                     ghost keys: seq<u16>, ghost cs: seq<Container>)
    returns (src': nat, dst': nat)
    requires r.Fits() && r.size == |keys| && Layout(keys, cs) && min <= max
    requires from <= src < |keys| && dst <= src && LowerBound(keys, min / 0x1_0000, from)
    requires Compacted(keys, cs, r.Keys(), r.Slots(), src, dst, min, max) && r.keys[src] <= max / 0x1_0000
    requires AllTrimmed(r.Keys(), r.Slots(), dst, keys, cs)
    modifies r.keys, r.containers
    ensures src' == src + 1 && dst' <= src'
    ensures Compacted(keys, cs, r.Keys(), r.Slots(), src', dst', min, max)
    ensures AllTrimmed(r.Keys(), r.Slots(), dst', keys, cs)
  {
    hide At, Part, Elems, Layout, Good, Compacted, Sorted, Leaves, LowerBound, AllTrimmed, LeftAs;
    LayoutIs(keys, cs);
    CompactedBounds(keys, cs, r.Keys(), r.Slots(), src, dst, min, max);
    assert r.keys[src] == r.Keys()[src] && r.containers[src] == r.Slots()[src];
    LowerBoundAt(keys, min / 0x1_0000, from, src);
    assert Good(cs[src]) by { GoodOf(cs, src); }
    var l := RemoveAtKey(r.containers[src], r.keys[src], min, max);
    CompactedStep(keys, cs, r.Keys(), r.Slots(), src, dst, min, max, l);
    TrimmedStep(r.Keys(), r.Slots(), dst, keys, cs, src, l, Elems(cs[src]) - Part(keys[src], min, max));
    src', dst' := src + 1, dst;
    if l.Just? {
      r.Replace(dst, r.keys[src], l.container);
      dst' := dst + 1;
    }
  }

  lemma GoodOf(cs: seq<Container>, i: nat)
    requires AllGood(cs) && i < |cs|
    ensures Good(cs[i])
  {
  }
}
