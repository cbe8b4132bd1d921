/**
 Keys and containers: what a bitmap stands for, key by key and as a whole. A value `x` lies in the container of key
 `x / 65536` at position `x % 65536`.
 */
module Slots {
  import opened IntSets
  import opened SortedArrays
  import opened BitsetOps
  import opened Containers

  /** The values that a list of slots holds under key `k`. */
  ghost function At(keys: seq<u16>, cs: seq<Container>, k: int): set<int>
    requires |keys| == |cs|
  {
    if keys == [] then {}
    else
      var n := |keys| - 1;
      At(keys[..n], cs[..n], k) + (if keys[n] == k then Elems(cs[n]) else {})
  }

  ghost predicate AllGood(cs: seq<Container>) {
    forall i :: 0 <= i < |cs| ==> Good(cs[i])
  }

  /** Keys strictly increase, and every container satisfies the invariant; none is empty. */
  ghost predicate Layout(keys: seq<u16>, cs: seq<Container>) {
    |keys| == |cs| && Sorted(keys) && AllGood(cs)
  }

  ghost predicate InWhole(keys: seq<u16>, cs: seq<Container>, x: int)
    requires |keys| == |cs|
  {
    x % 0x1_0000 in At(keys, cs, x / 0x1_0000)
  }

  /** The set of 32-bit values that the slots stand for. */
  ghost function Whole(keys: seq<u16>, cs: seq<Container>): set<int>
    requires |keys| == |cs|
  {
    set x: int | 0 <= x < 0x1_0000_0000 && InWhole(keys, cs, x)
  }

  lemma {:induction false} AtMembers(keys: seq<u16>, cs: seq<Container>, k: int, v: int)
    requires |keys| == |cs|
    ensures v in At(keys, cs, k) <==> exists i :: 0 <= i < |keys| && keys[i] == k && v in Elems(cs[i])
  {
    hide Elems;
    if keys != [] {
      var n := |keys| - 1;
      AtMembers(keys[..n], cs[..n], k, v);
      if v in At(keys[..n], cs[..n], k) {
        var i :| 0 <= i < n && keys[..n][i] == k && v in Elems(cs[..n][i]);
        assert keys[i] == k && v in Elems(cs[i]);
      }
      if i :| 0 <= i < n && keys[i] == k && v in Elems(cs[i]) {
        assert keys[..n][i] == k && v in Elems(cs[..n][i]);
      }
    }
  }

  /** A value belongs to a bitmap when its low half is in a container under its high half. */
  lemma WholeMembers(keys: seq<u16>, cs: seq<Container>, x: int)
    requires |keys| == |cs|
    ensures x in Whole(keys, cs) <==>
      0 <= x && exists i :: 0 <= i < |keys| && keys[i] == x / 65536 && x % 65536 in Elems(cs[i])
  {
    hide Elems, At;
    AtMembers(keys, cs, x / 65536, x % 65536);
  }

  lemma {:induction false} AtConcat(keys1: seq<u16>, cs1: seq<Container>, keys2: seq<u16>, cs2: seq<Container>, k: int)
    requires |keys1| == |cs1| && |keys2| == |cs2|
    ensures At(keys1 + keys2, cs1 + cs2, k) == At(keys1, cs1, k) + At(keys2, cs2, k)
    decreases |keys2|
  {
    hide Elems;
    if keys2 == [] {
      assert keys1 + keys2 == keys1 && cs1 + cs2 == cs1;
    } else {
      var n := |keys2| - 1;
      AtConcat(keys1, cs1, keys2[..n], cs2[..n], k);
      var keys, cs := keys1 + keys2, cs1 + cs2;
      assert keys[..|keys| - 1] == keys1 + keys2[..n] && cs[..|keys| - 1] == cs1 + cs2[..n];
    }
  }

  lemma AtOne(key: u16, c: Container, k: int)
    ensures At([key], [c], k) == if key == k then Elems(c) else {}
  {
    hide Elems;
    assert [key][..0] == [] && [c][..0] == [];
  }

  lemma AtSnoc(keys: seq<u16>, cs: seq<Container>, key: u16, c: Container, k: int)
    requires |keys| == |cs|
    ensures At(keys + [key], cs + [c], k) == At(keys, cs, k) + (if key == k then Elems(c) else {})
  {
    hide Elems, At;
    AtConcat(keys, cs, [key], [c], k);
    AtOne(key, c, k);
  }

  /** A key that no slot has holds nothing. */
  lemma {:induction false} AtMissing(keys: seq<u16>, cs: seq<Container>, k: int)
    requires |keys| == |cs| && forall i :: 0 <= i < |keys| ==> keys[i] != k
    ensures At(keys, cs, k) == {}
  {
    hide Elems;
    if keys != [] { AtMissing(keys[..|keys| - 1], cs[..|keys| - 1], k); }
  }

  /** A key holds the values of its container. */
  lemma AtIndex(keys: seq<u16>, cs: seq<Container>, i: nat)
    requires |keys| == |cs| && Sorted(keys) && i < |keys|
    ensures At(keys, cs, keys[i]) == Elems(cs[i])
  {
    hide Elems, At;
    var k := keys[i];
    assert keys == keys[..i] + [k] + keys[i + 1..] && cs == cs[..i] + [cs[i]] + cs[i + 1..];
    AtConcat(keys[..i] + [k], cs[..i] + [cs[i]], keys[i + 1..], cs[i + 1..], k);
    AtSnoc(keys[..i], cs[..i], k, cs[i], k);
    AtMissing(keys[..i], cs[..i], k);
    AtMissing(keys[i + 1..], cs[i + 1..], k);
  }

  /** One slot more of a prefix. */
  lemma AtPrefix(keys: seq<u16>, cs: seq<Container>, i: nat, k: int)
    requires |keys| == |cs| && i < |keys|
    ensures At(keys[..i + 1], cs[..i + 1], k) == At(keys[..i], cs[..i], k) + (if keys[i] == k then Elems(cs[i]) else {})
  {
    hide Elems, At;
    assert keys[..i + 1] == keys[..i] + [keys[i]] && cs[..i + 1] == cs[..i] + [cs[i]];
    AtSnoc(keys[..i], cs[..i], keys[i], cs[i], k);
  }

  /** A key below the next slot's is decided by the slots before it. */
  lemma AtBelow(keys: seq<u16>, cs: seq<Container>, i: nat, k: int)
    requires |keys| == |cs| && Sorted(keys) && i <= |keys| && (i < |keys| ==> k < keys[i])
    ensures At(keys, cs, k) == At(keys[..i], cs[..i], k)
  {
    hide Elems, At;
    assert keys == keys[..i] + keys[i..] && cs == cs[..i] + cs[i..];
    AtConcat(keys[..i], cs[..i], keys[i..], cs[i..], k);
    AtMissing(keys[i..], cs[i..], k);
  }

  lemma AtBounds(keys: seq<u16>, cs: seq<Container>, k: int)
    requires Layout(keys, cs)
    ensures At(keys, cs, k) <= Range(0, 0x1_0000)
    ensures k < 0 || k >= 0x1_0000 ==> At(keys, cs, k) == {}
  {
    hide Elems, At, Valid, Dense;
    if forall i :: 0 <= i < |keys| ==> keys[i] != k {
      AtMissing(keys, cs, k);
    } else {
      var i :| 0 <= i < |keys| && keys[i] == k;
      AtIndex(keys, cs, i);
      assert Good(cs[i]);
      ElemsBounds(cs[i]);
    }
  }

  // ---------- from keys to the whole ----------

  /** Two lists of slots that agree key by key stand for the same set. */
  lemma WholeSame(keys1: seq<u16>, cs1: seq<Container>, keys2: seq<u16>, cs2: seq<Container>)
    requires |keys1| == |cs1| && |keys2| == |cs2|
    requires forall k :: 0 <= k < 0x1_0000 ==> At(keys1, cs1, k) == At(keys2, cs2, k)
    ensures Whole(keys1, cs1) == Whole(keys2, cs2)
  {
    hide At;
    forall x | 0 <= x < 0x1_0000_0000 ensures InWhole(keys1, cs1, x) <==> InWhole(keys2, cs2, x) {
      assert 0 <= x / 0x1_0000 < 0x1_0000;
    }
  }

  /** An operation applied under every key is the operation on the whole sets. */
  lemma WholeOp(op: Op, keys: seq<u16>, cs: seq<Container>,
                keys1: seq<u16>, cs1: seq<Container>, keys2: seq<u16>, cs2: seq<Container>)
    requires |keys| == |cs| && |keys1| == |cs1| && |keys2| == |cs2|
    requires forall k :: 0 <= k < 0x1_0000 ==> At(keys, cs, k) == SetOp(op, At(keys1, cs1, k), At(keys2, cs2, k))
    ensures Whole(keys, cs) == SetOp(op, Whole(keys1, cs1), Whole(keys2, cs2))
  {
    hide At, SetOp, Holds;
    var a, b, c := Whole(keys, cs), Whole(keys1, cs1), Whole(keys2, cs2);
    forall x ensures x in a <==> x in SetOp(op, b, c) {
      SetOpMember(op, b, c, x);
      HoldsNot(op);
      if 0 <= x < 0x1_0000_0000 {
        var k := x / 0x1_0000;
        assert 0 <= k < 0x1_0000;
        SetOpMember(op, At(keys1, cs1, k), At(keys2, cs2, k), x % 0x1_0000);
      }
    }
    assert a == SetOp(op, b, c);
  }

  // ---------- ranges, key by key ----------

  /** The positions of the values `min .. max` under key `k`. */
  ghost function Part(k: int, min: int, max: int): set<int> {
    set v: int | 0 <= v < 0x1_0000 && Lies(k, v, min, max)
  }

  predicate Lies(k: int, v: int, min: int, max: int) { min <= 0x1_0000 * k + v <= max }

  /** `container_min` and `container_max` of key `k`. */
  function PartMin(k: int, min: u32): u16 {
    if min / 0x1_0000 == k then min % 0x1_0000 else 0
  }

  function PartMax(k: int, max: u32): u16 {
    if max / 0x1_0000 == k then max % 0x1_0000 else 0xFFFF
  }

  lemma PartIs(k: int, min: u32, max: u32)
    requires min <= max
    ensures min / 0x1_0000 <= k <= max / 0x1_0000 ==>
      PartMin(k, min) <= PartMax(k, max) && Part(k, min, max) == Range(PartMin(k, min), PartMax(k, max) + 1)
    ensures !(min / 0x1_0000 <= k <= max / 0x1_0000) ==> Part(k, min, max) == {}
  {
    if min / 0x1_0000 <= k <= max / 0x1_0000 {
      assert PartMin(k, min) <= PartMax(k, max);
      forall v ensures v in Part(k, min, max) <==> v in Range(PartMin(k, min), PartMax(k, max) + 1) {
        PartMember(k, min, max, v);
      }
    }
  }

  lemma PartMember(k: int, min: u32, max: u32, v: int)
    requires min / 0x1_0000 <= k <= max / 0x1_0000
    ensures 0 <= v < 0x1_0000 && min <= 0x1_0000 * k + v <= max <==> PartMin(k, min) <= v <= PartMax(k, max)
  {
  }

  lemma InPart(x: int, min: u32, max: u32)
    ensures x % 0x1_0000 in Part(x / 0x1_0000, min, max) <==> min <= x <= max
  {
    assert 0x1_0000 * (x / 0x1_0000) + x % 0x1_0000 == x;
  }

  /** Adding the part of a range under every key adds the range; removing it removes the range. */
  lemma WholeRange(keys: seq<u16>, cs: seq<Container>, keys': seq<u16>, cs': seq<Container>, min: u32, max: u32)
    requires |keys| == |cs| && |keys'| == |cs'|
    ensures (forall k :: 0 <= k < 0x1_0000 ==> At(keys', cs', k) == At(keys, cs, k) + Part(k, min, max))
      ==> Whole(keys', cs') == Whole(keys, cs) + Range(min, max + 1)
    ensures (forall k :: 0 <= k < 0x1_0000 ==> At(keys', cs', k) == At(keys, cs, k) - Part(k, min, max))
      ==> Whole(keys', cs') == Whole(keys, cs) - Range(min, max + 1)
  {
    hide At, Part;
    forall x | 0 <= x < 0x1_0000_0000
      ensures x % 0x1_0000 in Part(x / 0x1_0000, min, max) <==> x in Range(min, max + 1)
      ensures 0 <= x / 0x1_0000 < 0x1_0000
    {
      InPart(x, min, max);
    }
  }
}
