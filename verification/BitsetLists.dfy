/**
 Single bits and lists of positions in a bitset, with the cardinality kept up to date, and the extraction of
 positions.
 */
module BitsetLists {
  import opened IntSets
  import opened SortedArrays
  import opened Words
  import opened WordMasks
  import opened Bitsets
  import opened BitsetRuns
  import opened BitsetOps

  /** A word that differs in bit `i` only changes the membership of one position only. */
  lemma PutWord(words: seq<bv64>, j: nat, i: nat, v: bv64)
    requires j < |words| && i < 64
    requires forall k :: 0 <= k < 64 && k != i ==> (Bit(v, k) <==> Bit(words[j], k))
    ensures var s, x := BitSet(words), 64 * j + i;
      BitSet(words[j := v]) == if Bit(v, i) then s + {x} else s - {x}
  {
    hide Bit;
    var s, t, x := BitSet(words), BitSet(words[j := v]), 64 * j + i;
    forall y ensures y in t <==> if y == x then Bit(v, i) else y in s {
      if 0 <= y < 64 * |words| {
        assert y / 64 == j && y != x ==> y % 64 != i;
      }
    }
  }

  /** The word of position `pos` is the one read, and its bit says whether `pos` is a member. */
  lemma PositionIs(words: seq<bv64>, pos: u16)
    requires pos < 64 * |words|
    ensures pos in BitSet(words) <==> Bit(words[pos / 64], pos % 64)
  {
    hide Bit;
  }

  lemma SetOne(words: seq<bv64>, pos: u16)
    requires pos < 64 * |words|
    ensures var j, i := pos / 64, pos % 64; var v := Or(words[j], Shl(1, i));
      && BitSet(words[j := v]) == BitSet(words) + {pos as int}
      && Toggled(words[j], v, i) == if pos in BitSet(words) then 0 else 1
  {
    hide Bit, BitSet, Or, Shl, Toggled;
    var j, i := pos / 64, pos % 64;
    var v := Or(words[j], Shl(1, i));
    PositionIs(words, pos);
    forall k | 0 <= k < 64 ensures Bit(v, k) <==> Bit(words[j], k) || k == i { BitChanges(words[j], i, k); }
    ToggledCount(words[j], v, i);
    PutWord(words, j, i, v);
  }

  lemma ClearOne(words: seq<bv64>, pos: u16)
    requires pos < 64 * |words|
    ensures var j, i := pos / 64, pos % 64; var v := And(words[j], Not(Shl(1, i)));
      && BitSet(words[j := v]) == BitSet(words) - {pos as int}
      && Toggled(words[j], v, i) == if pos in BitSet(words) then 1 else 0
  {
    hide Bit, BitSet, And, Not, Shl, Toggled;
    var j, i := pos / 64, pos % 64;
    var v := And(words[j], Not(Shl(1, i)));
    PositionIs(words, pos);
    forall k | 0 <= k < 64 ensures Bit(v, k) <==> Bit(words[j], k) && k != i { BitChanges(words[j], i, k); }
    ToggledCount(words[j], v, i);
    PutWord(words, j, i, v);
  }

  /** `((UINT64_C(1) << index) & load) >> index` */
  function BitAt(load: bv64, index: nat): bv64 { Shr(And(Shl(1, index), load), index) }

  lemma BitAtIs(w: bv64, n: nat)
    requires n < 64
    ensures BitAt(w, n) == if Bit(w, n) then 1 else 0
  {
    hide Bit, And, Shl, Shr;
    var r: bv64 := if Bit(w, n) then 1 else 0;
    forall i | 0 <= i < 64 ensures Bit(BitAt(w, n), i) <==> i == 0 && Bit(w, n) { BitAtBit(w, n, i); }
    forall i | 0 <= i < 64 ensures Bit(r, i) <==> i == 0 && Bit(w, n) {
      BitZero(i);
      BitOne(i);
    }
    SameBits(BitAt(w, n), r);
  }

  lemma BitAtBit(w: bv64, n: nat, i: nat)
    requires n < 64 && i < 64
    ensures Bit(BitAt(w, n), i) <==> i == 0 && Bit(w, n)
  {
    hide Bit, And, Or, Flip, Shl, Shr;
    var m := And(Shl(1, n), w);
    BitShr(m, n, i);
    if i + n < 64 {
      BitOps(Shl(1, n), w, i + n);
      BitSingle(n, i + n);
    } else {
      NoBitBeyond(m, i + n);
    }
  }

  lemma FlipOne(words: seq<bv64>, pos: u16)
    requires pos < 64 * |words|
    ensures var j, i := pos / 64, pos % 64; var v := Flip(words[j], Shl(1, i));
      && BitSet(words[j := v]) == Xor(BitSet(words), {pos as int})
      && BitAt(words[j], i) == if pos in BitSet(words) then 1 else 0
  {
    hide Bit, BitSet, Flip, Shl, BitAt;
    var j, i := pos / 64, pos % 64;
    var v := Flip(words[j], Shl(1, i));
    PositionIs(words, pos);
    forall k | 0 <= k < 64 ensures Bit(v, k) <==> (Bit(words[j], k) != (k == i)) { BitChanges(words[j], i, k); }
    BitAtIs(words[j], i);
    PutWord(words, j, i, v);
  }

  /** The value of a word that is 0 or 1. */
  function Count(w: bv64): int
    requires w == 0 || w == 1
  {
    if w == 0 then 0 else 1
  }

  /** `bitset_container_set`, and `bitset_container_add`: the result says whether `pos` was missing. */
  method SetBit(bitmap: array<bv64>, card: int, pos: u16) returns (card': int, added: bool)
    requires pos < 64 * bitmap.Length
    modifies bitmap
    ensures BitSet(bitmap[..]) == old(BitSet(bitmap[..])) + {pos as int}
    ensures added <==> pos !in old(BitSet(bitmap[..]))
    ensures card' == card + (if added then 1 else 0)
  {
    hide BitSet, Or, Shl, Toggled;
    ghost var words := bitmap[..];
    SetOne(words, pos);
    var oldWord, index := bitmap[pos / 64], pos % 64;
    var newWord := Or(oldWord, Shl(1, index));
    var increment := Count(Toggled(oldWord, newWord, index));
    bitmap[pos / 64] := newWord;
    assert bitmap[..] == words[pos / 64 := newWord];
    return card + increment, increment > 0;
  }

  /** `bitset_container_remove`: the result says whether `pos` was present. */
  method UnsetBit(bitmap: array<bv64>, card: int, pos: u16) returns (card': int, removed: bool)
    requires pos < 64 * bitmap.Length
    modifies bitmap
    ensures BitSet(bitmap[..]) == old(BitSet(bitmap[..])) - {pos as int}
    ensures removed <==> pos in old(BitSet(bitmap[..]))
    ensures card' == card - (if removed then 1 else 0)
  {
    hide BitSet, And, Not, Shl, Toggled;
    ghost var words := bitmap[..];
    ClearOne(words, pos);
    var oldWord, index := bitmap[pos / 64], pos % 64;
    var newWord := And(oldWord, Not(Shl(1, index)));
    var increment := Count(Toggled(oldWord, newWord, index));
    bitmap[pos / 64] := newWord;
    assert bitmap[..] == words[pos / 64 := newWord];
    return card - increment, increment > 0;
  }

  /** One step of `bitset_flip_list_withcard`. */
  method FlipBit(bitmap: array<bv64>, card: int, pos: u16) returns (card': int)
    requires pos < 64 * bitmap.Length
    modifies bitmap
    ensures BitSet(bitmap[..]) == Xor(old(BitSet(bitmap[..])), {pos as int})
    ensures card' == card + (if pos in old(BitSet(bitmap[..])) then -1 else 1)
  {
    hide BitSet, Flip, Shl, BitAt;
    ghost var words := bitmap[..];
    FlipOne(words, pos);
    var load, index := bitmap[pos / 64], pos % 64;
    var newload := Flip(load, Shl(1, index));
    card' := card + (1 - 2 * Count(BitAt(load, index)));
    bitmap[pos / 64] := newload;
    assert bitmap[..] == words[pos / 64 := newload];
  }

  /** `bitset_container_get` */
  method GetBit(bitmap: array<bv64>, pos: u16) returns (b: bool)
    requires pos < 64 * bitmap.Length
    ensures b <==> pos in BitSet(bitmap[..])
  {
    hide Bit, BitSet, Shr, Half;
    PositionIs(bitmap[..], pos);
    BitShr(bitmap[pos / 64], pos % 64, 0);
    ShiftedOdd(bitmap[pos / 64], pos % 64);
    b := Odd(Shr(bitmap[pos / 64], pos % 64));
  }

  lemma ShiftedOdd(w: bv64, n: nat)
    ensures Bit(Shr(w, n), 0) <==> Odd(Shr(w, n))
  {
  }

  // ---------- lists ----------

  lemma ListGrow(list: array<u16>, i: nat)
    requires i < list.Length
    ensures Elements(list[..i + 1]) == Elements(list[..i]) + {list[i] as int}
  {
    assert list[..i + 1] == list[..i] + [list[i]];
    ElementsSnoc(list[..i], list[i]);
  }

  /** `bitset_set_list_withcard`; `bitset_set_list` is the same without the count. */
  method SetListWithcard(bitmap: array<bv64>, card: int, list: array<u16>, length: nat) returns (card': int)
    requires length <= list.Length && forall k :: 0 <= k < length ==> list[k] < 64 * bitmap.Length
    requires bitmap != list as object
    modifies bitmap
    ensures BitSet(bitmap[..]) == old(BitSet(bitmap[..])) + Elements(list[..length])
    ensures card' - |BitSet(bitmap[..])| == card - |old(BitSet(bitmap[..]))|
  {
    hide BitSet, Elements;
    ghost var s := BitSet(bitmap[..]);
    card' := card;
    NoElements(list[..0]);
    var i := 0;
    while i < length
      invariant i <= length
      invariant BitSet(bitmap[..]) == s + Elements(list[..i])
      invariant card' - |BitSet(bitmap[..])| == card - |s|
    {
      ListGrow(list, i);
      AddedSize(BitSet(bitmap[..]), list[i]);
      var added;
      card', added := SetBit(bitmap, card', list[i]);
      i := i + 1;
    }
  }

  lemma NoElements(list: seq<u16>)
    requires list == []
    ensures Elements(list) == {}
  {
  }

  /** `bitset_clear_list` */
  method ClearList(bitmap: array<bv64>, card: int, list: array<u16>, length: nat) returns (card': int)
    requires length <= list.Length && forall k :: 0 <= k < length ==> list[k] < 64 * bitmap.Length
    requires bitmap != list as object
    modifies bitmap
    ensures BitSet(bitmap[..]) == old(BitSet(bitmap[..])) - Elements(list[..length])
    ensures card' - |BitSet(bitmap[..])| == card - |old(BitSet(bitmap[..]))|
  {
    hide BitSet, Elements;
    ghost var s := BitSet(bitmap[..]);
    card' := card;
    NoElements(list[..0]);
    var i := 0;
    while i < length
      invariant i <= length
      invariant BitSet(bitmap[..]) == s - Elements(list[..i])
      invariant card' - |BitSet(bitmap[..])| == card - |s|
    {
      ListGrow(list, i);
      DiffGrow(s, Elements(list[..i]), list[i]);
      AddedSize(BitSet(bitmap[..]), list[i]);
      var removed;
      card', removed := UnsetBit(bitmap, card', list[i]);
      i := i + 1;
    }
  }

  /** `bitset_flip_list_withcard`, on a list without repetitions. */
  method FlipListWithcard(bitmap: array<bv64>, card: int, list: array<u16>, length: nat) returns (card': int)
    requires length <= list.Length && forall k :: 0 <= k < length ==> list[k] < 64 * bitmap.Length
    requires bitmap != list as object && Sorted(list[..length])
    modifies bitmap
    ensures BitSet(bitmap[..]) == Xor(old(BitSet(bitmap[..])), Elements(list[..length]))
    ensures card' - |BitSet(bitmap[..])| == card - |old(BitSet(bitmap[..]))|
  {
    hide BitSet, Elements;
    ghost var s := BitSet(bitmap[..]);
    card' := card;
    NoElements(list[..0]);
    var i := 0;
    while i < length
      invariant i <= length
      invariant BitSet(bitmap[..]) == Xor(s, Elements(list[..i]))
      invariant card' - |BitSet(bitmap[..])| == card - |s|
    {
      ListGrow(list, i);
      NewElement(list[..length], i);
      assert list[..length][..i] == list[..i];
      XorGrow(s, Elements(list[..i]), list[i]);
      XorOneSize(BitSet(bitmap[..]), list[i]);
      card' := FlipBit(bitmap, card', list[i]);
      i := i + 1;
    }
  }

  lemma NewElement(s: seq<u16>, i: nat)
    requires Sorted(s) && i < |s|
    ensures s[i] as int !in Elements(s[..i])
  {
  }

  lemma AddedSize(s: set<int>, x: int)
    ensures |s + {x}| == |s| + (if x in s then 0 else 1)
    ensures |s - {x}| == |s| - (if x in s then 1 else 0)
  {
    if x in s { assert s + {x} == s; } else { assert s - {x} == s; }
  }

  lemma DiffGrow(s: set<int>, e: set<int>, x: int)
    ensures s - (e + {x}) == (s - e) - {x}
  {
  }

  lemma XorGrow(s: set<int>, e: set<int>, x: int)
    requires x !in e
    ensures Xor(s, e + {x}) == Xor(Xor(s, e), {x})
  {
  }

  lemma XorOneSize(s: set<int>, x: int)
    ensures |Xor(s, {x})| == |s| + (if x in s then -1 else 1)
  {
    if x in s {
      assert Xor(s, {x}) == s - {x};
    } else {
      assert Xor(s, {x}) == s + {x};
    }
  }

  // ---------- extraction of positions ----------

  /** The positions of a bitset below `f` have been written out. */
  ghost predicate Extracted(words: seq<bv64>, out: seq<u16>, f: int) {
    Sorted(out) && Elements(out) == Below(BitSet(words), f)
  }

  lemma ExtractedSkip(words: seq<bv64>, out: seq<u16>, f: int, g: int)
    requires Extracted(words, out, f) && Clear(BitSet(words), f, g)
    ensures Extracted(words, out, g)
  {
    hide Elements, Sorted, Member;
    assert Below(BitSet(words), f) == Below(BitSet(words), g);
  }

  lemma ExtractedOne(words: seq<bv64>, out: seq<u16>, f: u16)
    requires Extracted(words, out, f) && f in BitSet(words)
    ensures Extracted(words, out + [f], f + 1) && |out| < |BitSet(words)|
  {
    hide BitSet;
    var s := BitSet(words);
    if out != [] { assert out[|out| - 1] as int in Elements(out); }
    SortedSnoc(out, f);
    ElementsSnoc(out, f);
    assert Below(s, f + 1) == Below(s, f) + {f as int};
    SortedSize(out + [f]);
    SubsetSize(Below(s, f + 1), s);
  }

  /** Clearing the lowest bit leaves the positions after it pending. */
  lemma PendingNext(words: seq<bv64>, c: nat, w: bv64, f: int)
    requires Pending(words, c, w, f) && w != 0
    ensures Ctz(w) < 64
    ensures var x := 64 * c + Ctz(w);
      && f <= x && x in BitSet(words) && Clear(BitSet(words), f, x)
      && Pending(words, c, Flip(w, Lowest(w)), x + 1)
  {
    hide Bit, BitSet, Ctz, Flip, Lowest;
    CtzBit(w);
    var x := 64 * c + Ctz(w);
    forall y | f <= y < x ensures y !in BitSet(words) { assert !Bit(w, y - 64 * c); }
    var v := Flip(w, Lowest(w));
    forall i | 0 <= i < 64 ensures Bit(v, i) <==> 64 * c + i in BitSet(words) && x + 1 <= 64 * c + i {
      BitClearLowest(w, i);
      assert Bit(w, i) <==> 64 * c + i in BitSet(words) && f <= 64 * c + i;
      if i < Ctz(w) { assert !Bit(w, i); }
    }
  }

  /** The inner loop of the extraction: writes out the positions of one word. */
  method ExtractWord(bits: bv64, base: u16, out: array<u16>, outpos: nat, ghost words: seq<bv64>, ghost c: nat)
    returns (end: nat)
    requires Pending(words, c, bits, 64 * c) && base == 64 * c && 64 * |words| <= 0x1_0000
    requires outpos <= out.Length && |BitSet(words)| <= out.Length
    requires Extracted(words, out[..outpos], 64 * c)
    modifies out
    ensures outpos <= end <= out.Length && Extracted(words, out[..end], 64 * c + 64)
  {
    hide Pending, Extracted, Clear, Bit, BitSet, Ctz, Flip, Lowest;
    var w := bits;
    ghost var f := 64 * c;
    end := outpos;
    PendingInside(words, c, w, f);
    while w != 0
      invariant 64 * c <= f <= 64 * c + 64
      invariant outpos <= end <= out.Length
      invariant Pending(words, c, w, f) && Extracted(words, out[..end], f)
      decreases 64 * c + 64 - f
    {
      PendingNext(words, c, w, f);
      var r := Ctz(w);
      ghost var x := 64 * c + r;
      ExtractedSkip(words, out[..end], f, x);
      ExtractedOne(words, out[..end], x);
      out[end] := r + base;
      assert out[..end + 1] == out[..end] + [x];
      end := end + 1;
      w, f := Flip(w, Lowest(w)), x + 1;
    }
    PendingNothing(words, c, f);
    ExtractedSkip(words, out[..end], f, 64 * c + 64);
  }

  lemma ExtractedStart(words: seq<bv64>)
    ensures Extracted(words, [], 0)
  {
    hide Member;
    assert Below(BitSet(words), 0) == {};
  }

  lemma ExtractedAll(words: seq<bv64>, out: seq<u16>)
    requires Extracted(words, out, 64 * |words|)
    ensures Sorted(out) && Elements(out) == BitSet(words) && |out| == |BitSet(words)|
  {
    hide Elements, Sorted, Member;
    assert Below(BitSet(words), 64 * |words|) == BitSet(words);
    SortedSize(out);
  }

  /** `bitset_extract_setbits_uint16` from base 0: `base` wraps around after the last word only. */
  method ExtractSetbits(bitset: array<bv64>, out: array<u16>) returns (outpos: nat)
    requires 64 * bitset.Length <= 0x1_0000 && |BitSet(bitset[..])| <= out.Length && bitset != out as object
    modifies out
    ensures outpos == |BitSet(bitset[..])| <= out.Length
    ensures Sorted(out[..outpos]) && Elements(out[..outpos]) == BitSet(bitset[..])
  {
    hide Pending, Extracted, Bit, BitSet;
    ghost var words := bitset[..];
    outpos := 0;
    ExtractedStart(words);
    assert out[..0] == [];
    var i, base := 0, 0;
    while i < bitset.Length
      invariant i <= bitset.Length && bitset[..] == words
      invariant i < bitset.Length ==> base == 64 * i
      invariant outpos <= out.Length && Extracted(words, out[..outpos], 64 * i)
    {
      PendingWord(words, i);
      outpos := ExtractWord(bitset[i], base, out, outpos, words, i);
      base := (base + 64) % 0x1_0000;
      i := i + 1;
    }
    ExtractedAll(words, out[..outpos]);
  }

  /** `bitset_extract_intersection_setbits_uint16` from base 0. */
  method ExtractIntersection(bitset1: array<bv64>, bitset2: array<bv64>, out: array<u16>) returns (outpos: nat)
    requires 64 * bitset1.Length <= 0x1_0000 && bitset1.Length == bitset2.Length
    requires bitset1 != out as object && bitset2 != out as object
    requires |BitSet(bitset1[..]) * BitSet(bitset2[..])| <= out.Length
    modifies out
    ensures outpos == |BitSet(bitset1[..]) * BitSet(bitset2[..])| <= out.Length
    ensures Sorted(out[..outpos]) && Elements(out[..outpos]) == BitSet(bitset1[..]) * BitSet(bitset2[..])
  {
    hide Pending, Extracted, Bit, BitSet, And;
    ghost var a, b := bitset1[..], bitset2[..];
    ghost var words := Combine(AndOp, a, b);
    CombineDenotes(AndOp, a, b);
    CombineAnd(a, b);
    outpos := 0;
    ExtractedStart(words);
    assert out[..0] == [];
    var i, base := 0, 0;
    while i < bitset1.Length
      invariant i <= bitset1.Length && bitset1[..] == a && bitset2[..] == b
      invariant i < bitset1.Length ==> base == 64 * i
      invariant outpos <= out.Length && Extracted(words, out[..outpos], 64 * i)
    {
      PendingWord(words, i);
      outpos := ExtractWord(And(bitset1[i], bitset2[i]), base, out, outpos, words, i);
      base := (base + 64) % 0x1_0000;
      i := i + 1;
    }
    ExtractedAll(words, out[..outpos]);
  }
}
