/** Searches and scans over `uint16_t` arrays, as they run on overlapping buffers. */
module ArrayKernels {
  import opened IntSets
  import opened SortedArrays
  import Memory

  /** The `n` values of a buffer from `offset` on. */
  ghost predicate Stretch(a: array<u16>, offset: nat, s: seq<u16>)
    reads a
  {
    offset + |s| <= a.Length && a[offset..offset + |s|] == s
  }

  /** `r` is the index of `key`, or `-(p + 1)` for its insertion point `p`. */
  ghost predicate SearchResult(s: seq<u16>, key: int, r: int) {
    if r >= 0 then r < |s| && s[r] == key
    else
      && -r - 1 <= |s|
      && (forall i :: 0 <= i < -r - 1 ==> s[i] < key)
      && (forall i :: -r - 1 <= i < |s| ==> key < s[i])
  }

  /** `binarySearch` on the `len` values from `offset` on. */
  method BinarySearch(a: array<u16>, offset: nat, len: nat, ikey: u16) returns (r: int)
    requires offset + len <= a.Length && Sorted(a[offset..offset + len])
    ensures SearchResult(a[offset..offset + len], ikey, r)
  {
    ghost var s := a[offset..offset + len];
    var low, high := 0, len - 1;
    while low <= high
      invariant 0 <= low <= high + 1 <= len
      invariant forall i :: 0 <= i < low ==> s[i] < ikey
      invariant forall i :: high < i < len ==> ikey < s[i]
    {
      var middleIndex := (low + high) / 2;
      var middleValue := a[offset + middleIndex];
      assert middleValue == s[middleIndex];
      if middleValue < ikey {
        low := middleIndex + 1;
      } else if middleValue > ikey {
        high := middleIndex - 1;
      } else {
        return middleIndex;
      }
    }
    return -(low + 1);
  }

  /** The first index after `pos` whose value is at least `min`, or `|s|`. */
  ghost predicate FirstFrom(s: seq<u16>, pos: int, min: int, r: int) {
    && -1 <= pos < r && (pos + 1 <= |s| ==> r <= |s|)
    && (forall i :: pos < i < r && i < |s| ==> s[i] < min)
    && (r < |s| ==> min <= s[r])
  }

  /** `advanceUntil`: a galloping search, then a binary search in the last span. */
  method AdvanceUntil(a: array<u16>, pos: int, length: nat, min: u16) returns (r: int)
    requires -1 <= pos && length <= a.Length && Sorted(a[..length])
    ensures FirstFrom(a[..length], pos, min, r)
  {
    ghost var s := a[..length];
    var lower := pos + 1;
    if lower >= length || a[lower] >= min {
      return lower;
    }
    var spansize := 1;
    while lower + spansize < length && a[lower + spansize] < min
      invariant spansize >= 1
      invariant spansize == 1 || (lower + spansize / 2 < length && s[lower + spansize / 2] < min)
      decreases length - spansize
    {
      spansize := spansize * 2;
    }
    var upper := if lower + spansize < length then lower + spansize else length - 1;
    if a[upper] == min {
      return upper;
    }
    if a[upper] < min {
      return length;
    }
    lower := lower + spansize / 2;
    r := Between(a, lower, upper, length, min);
  }

  /** The last loop of `advanceUntil`: a binary search strictly between two known sides. */
  method Between(a: array<u16>, lower: nat, upper: nat, length: nat, min: u16) returns (r: int)
    requires lower < upper < length <= a.Length && Sorted(a[..length]) && a[lower] < min < a[upper]
    ensures lower < r <= upper && a[r - 1] < min <= a[r]
  {
    ghost var s := a[..length];
    var low, high := lower, upper;
    while low + 1 != high
      invariant lower <= low < high <= upper && s[low] < min < s[high]
    {
      var mid := (low + high) / 2;
      if a[mid] == min {
        assert s[mid - 1] < s[mid];
        return mid;
      } else if a[mid] < min {
        low := mid;
      } else {
        high := mid;
      }
    }
    return high;
  }

  // ---------- in-place union ----------

  /** The values of `s` from index `i` on are still in the buffer, `offset` further right. */
  ghost predicate Unread(a: array<u16>, offset: nat, s: seq<u16>, i: nat)
    reads a
  {
    offset + |s| <= a.Length && forall k :: i <= k < |s| ==> a[offset + k] == s[k]
  }

  /** Where the output of a scan may go: nowhere that the unread values of the first operand still are. */
  ghost predicate Behind(out: array<u16>, a: array<u16>, offset: nat, room: nat)
    reads {}
  {
    out == a ==> room <= offset
  }

  /**
   `union_uint16`. The output may go to the buffer of the first operand, when that operand stands at least as far from
   its front as the second operand is long.
   */
  method UnionUint16(a1: array<u16>, off1: nat, n1: nat, a2: array<u16>, n2: nat, out: array<u16>)
    returns (pos: nat)
    requires off1 + n1 <= a1.Length && n2 <= a2.Length && n1 + n2 <= out.Length
    requires Sorted(a1[off1..off1 + n1]) && Sorted(a2[..n2])
    requires out != a2 && Behind(out, a1, off1, n2)
    modifies out
    ensures pos <= n1 + n2
    ensures Sorted(out[..pos])
    ensures Elements(out[..pos]) == old(Elements(a1[off1..off1 + n1])) + old(Elements(a2[..n2]))
  {
    ghost var s, t := a1[off1..off1 + n1], a2[..n2];
    if n2 == 0 {
      MoveBetween(out, 0, a1, off1, n1);
      assert out[..n1] == s;
      return n1;
    }
    if n1 == 0 {
      Memory.Copy(out, 0, a2, 0, n2);
      assert out[..n2] == t;
      return n2;
    }
    var idx1, idx2;
    pos, idx1, idx2 := MergeScan(a1, off1, n1, a2, n2, out, s, t);
    pos := CopyTail(a1, off1, n1, a2, n2, out, pos, idx1, idx2, s, t);
  }

  /** The end of `union_uint16`: what is left of one operand. */
  method CopyTail(a1: array<u16>, off1: nat, n1: nat, a2: array<u16>, n2: nat, out: array<u16>,
                  pos: nat, idx1: nat, idx2: nat, ghost s: seq<u16>, ghost t: seq<u16>)
    returns (end: nat)
    requires n1 == |s| && n2 == |t| && n1 + n2 <= out.Length && Sorted(s) && Sorted(t)
    requires Unread(a1, off1, s, idx1) && Unread(a2, 0, t, 0) && out != a2
    requires idx1 <= n1 && idx2 <= n2 && (idx1 == n1 || idx2 == n2) && pos <= idx1 + idx2
    requires MergePrefix(out[..pos], s, idx1, t, idx2)
    modifies out
    ensures end <= n1 + n2
    ensures Sorted(out[..end]) && Elements(out[..end]) == Elements(s) + Elements(t)
  {
    hide MergePrefix, Sorted;
    ghost var o := out[..pos];
    if idx1 < n1 {
      MergeFinish(o, s, idx1, t);
      assert a1[off1 + idx1..off1 + n1] == s[idx1..];
      end := AppendRest(out, pos, a1, off1 + idx1, n1 - idx1);
    } else {
      MergeSymmetric(o, s, idx1, t, idx2);
      MergeFinish(o, t, idx2, s);
      assert a2[idx2..n2] == t[idx2..];
      end := AppendRest(out, pos, a2, idx2, n2 - idx2);
    }
  }

  /** Appends `count` values of `src` to the `pos` values output so far. */
  method AppendRest(out: array<u16>, pos: nat, src: array<u16>, from: nat, count: nat) returns (end: nat)
    requires pos + count <= out.Length && from + count <= src.Length
    modifies out
    ensures end == pos + count
    ensures out[..end] == old(out[..pos]) + old(src[from..from + count])
  {
    MoveBetween(out, pos, src, from, count);
    end := pos + count;
  }

  /** `memmove` between two buffers that may be the same. */
  method MoveBetween(dst: array<u16>, to: nat, src: array<u16>, from: nat, count: nat)
    requires to + count <= dst.Length && from + count <= src.Length
    modifies dst
    ensures dst[..] == old(dst[..to]) + old(src[from..from + count]) + old(dst[to + count..])
  {
    forall k | 0 <= k < count {
      dst[to + k] := src[from + k];
    }
  }

  /** The scan of `union_uint16`: the write position never reaches a value of the first operand that is still unread. */
  method MergeScan(a1: array<u16>, off1: nat, n1: nat, a2: array<u16>, n2: nat, out: array<u16>,
                   ghost s: seq<u16>, ghost t: seq<u16>)
    returns (pos: nat, idx1: nat, idx2: nat)
    requires n1 == |s| > 0 && n2 == |t| > 0 && n1 + n2 <= out.Length && Sorted(s) && Sorted(t)
    requires Unread(a1, off1, s, 0) && Unread(a2, 0, t, 0)
    requires out != a2 && Behind(out, a1, off1, n2)
    modifies out
    ensures idx1 <= n1 && idx2 <= n2 && (idx1 == n1 || idx2 == n2)
    ensures pos <= idx1 + idx2 && MergePrefix(out[..pos], s, idx1, t, idx2)
    ensures Unread(a1, off1, s, idx1) && Unread(a2, 0, t, 0)
  {
    hide MergePrefix, Sorted, Unread;
    pos, idx1, idx2 := 0, 0, 0;
    MergeStart(s, t);
    assert out[..0] == [];
    while idx1 < n1 && idx2 < n2
      invariant idx1 <= n1 && idx2 <= n2 && pos <= idx1 + idx2
      invariant MergePrefix(out[..pos], s, idx1, t, idx2)
      invariant Unread(a1, off1, s, idx1) && Unread(a2, 0, t, 0)
    {
      idx1, idx2 := MergeStep(a1, off1, idx1, a2, idx2, out, pos, s, t);
      pos := pos + 1;
    }
  }

  method MergeStep(a1: array<u16>, off1: nat, idx1: nat, a2: array<u16>, idx2: nat, out: array<u16>, pos: nat,
                   ghost s: seq<u16>, ghost t: seq<u16>)
    returns (idx1': nat, idx2': nat)
    requires idx1 < |s| && idx2 < |t| && pos <= idx1 + idx2 && |s| + |t| <= out.Length && Sorted(s) && Sorted(t)
    requires Unread(a1, off1, s, idx1) && Unread(a2, 0, t, 0)
    requires out != a2 && Behind(out, a1, off1, |t|)
    requires MergePrefix(out[..pos], s, idx1, t, idx2)
    modifies out
    ensures idx1 <= idx1' <= |s| && idx2 <= idx2' <= |t| && idx1 + idx2 < idx1' + idx2'
    ensures MergePrefix(out[..pos + 1], s, idx1', t, idx2')
    ensures Unread(a1, off1, s, idx1') && Unread(a2, 0, t, 0)
  {
    hide MergePrefix, Sorted, Unread;
    ghost var o := out[..pos];
    var val1, val2 := Fetch(a1, off1, idx1, s), FetchAny(a2, idx2, t);
    if val1 < val2 {
      MergeTake(o, s, idx1, t, idx2);
      Emit(out, pos, val1, a1, off1, s, idx1);
      return idx1 + 1, idx2;
    } else if val2 < val1 {
      MergeSymmetric(o, s, idx1, t, idx2);
      MergeTake(o, t, idx2, s, idx1);
      MergeSymmetric(o + [val2], t, idx2 + 1, s, idx1);
      Emit(out, pos, val2, a1, off1, s, idx1);
      return idx1, idx2 + 1;
    }
    MergeTakeBoth(o, s, idx1, t, idx2);
    Emit(out, pos, val1, a1, off1, s, idx1);
    return idx1 + 1, idx2 + 1;
  }

  function Fetch(a: array<u16>, offset: nat, i: nat, ghost s: seq<u16>): (v: u16)
    requires i < |s| && Unread(a, offset, s, i)
    reads a
    ensures v == s[i]
  {
    a[offset + i]
  }

  /** Writes one output value to the left of the unread values `s[i..]` of `a1`. */
  method Emit(out: array<u16>, pos: nat, val: u16, a1: array<u16>, ghost off1: nat, ghost s: seq<u16>, ghost i: nat)
    requires pos < out.Length && i < |s| && Unread(a1, off1, s, i) && (out == a1 ==> pos <= off1 + i)
    modifies out
    ensures out[..pos + 1] == old(out[..pos]) + [val]
    ensures Unread(a1, off1, s, i + 1)
    ensures pos < off1 + i || out != a1 ==> Unread(a1, off1, s, i)
  {
    out[pos] := val;
  }

  /**
   The in-place case of `array_array_container_inplace_union`: the first operand moves right by the length of the
   second, then the union fills it from the front.
   */
  method InplaceUnion(src1: array<u16>, card1: nat, src2: array<u16>, card2: nat) returns (card: nat)
    requires src1 != src2 && card1 + card2 <= src1.Length && card2 <= src2.Length
    requires Sorted(src1[..card1]) && Sorted(src2[..card2])
    modifies src1
    ensures card <= card1 + card2
    ensures Sorted(src1[..card])
    ensures Elements(src1[..card]) == old(Elements(src1[..card1])) + Elements(src2[..card2])
  {
    ghost var s, t := src1[..card1], src2[..card2];
    Memory.Move(src1, card2, 0, card1);
    assert src1[card2..card2 + card1] == s;
    assert src2[..card2] == t;
    card := UnionUint16(src1, card2, card1, src2, card2, src1);
  }

  // ---------- in-place difference ----------

  /** `difference_uint16`; the output may go to the buffer of the first operand. */
  method DifferenceUint16(a1: array<u16>, length1: nat, a2: array<u16>, length2: nat, out: array<u16>)
    returns (outCard: nat)
    requires length1 <= a1.Length && length2 <= a2.Length && length1 <= out.Length
    requires Sorted(a1[..length1]) && Sorted(a2[..length2]) && out != a2
    modifies out
    ensures outCard <= length1
    ensures Sorted(out[..outCard])
    ensures Elements(out[..outCard]) == old(Elements(a1[..length1])) - old(Elements(a2[..length2]))
  {
    ghost var s, t := a1[..length1], a2[..length2];
    if length1 == 0 {
      assert out[..0] == [];
      return 0;
    }
    if length2 == 0 {
      MoveBetween(out, 0, a1, 0, length1);
      assert out[..length1] == s;
      return length1;
    }
    var k1, k2;
    outCard, k1, k2 := DifferenceScan(a1, length1, a2, length2, out, s, t);
    if k1 < length1 {
      ghost var o := out[..outCard];
      DiffFinish(o, s, k1, t);
      assert a1[k1..length1] == s[k1..];
      outCard := AppendRest(out, outCard, a1, k1, length1 - k1);
    } else {
      assert s[..k1] == s;
    }
  }

  method DifferenceScan(a1: array<u16>, length1: nat, a2: array<u16>, length2: nat, out: array<u16>,
                        ghost s: seq<u16>, ghost t: seq<u16>)
    returns (outCard: nat, k1: nat, k2: nat)
    requires length1 == |s| <= out.Length && length2 == |t| && Sorted(s) && Sorted(t)
    requires Unread(a1, 0, s, 0) && Unread(a2, 0, t, 0) && out != a2
    modifies out
    ensures k1 <= length1 && k2 <= length2 && (k1 == length1 || k2 == length2) && outCard <= k1
    ensures DiffPrefix(out[..outCard], s, k1, t, k2)
    ensures Unread(a1, 0, s, k1)
  {
    hide DiffPrefix, Sorted, Unread;
    outCard, k1, k2 := 0, 0, 0;
    DiffStart(s, t);
    assert out[..0] == [];
    while k1 < length1 && k2 < length2
      invariant k1 <= length1 && k2 <= length2 && outCard <= k1
      invariant DiffPrefix(out[..outCard], s, k1, t, k2)
      invariant Unread(a1, 0, s, k1) && Unread(a2, 0, t, 0)
      decreases length1 - k1 + length2 - k2
    {
      ghost var o := out[..outCard];
      var s1, s2 := Fetch(a1, 0, k1, s), FetchAny(a2, k2, t);
      if s1 < s2 {
        DiffKeep(o, s, k1, t, k2);
        Emit(out, outCard, s1, a1, 0, s, k1);
        outCard, k1 := outCard + 1, k1 + 1;
      } else if s1 == s2 {
        DiffDrop(o, s, k1, t, k2);
        UnreadNext(a1, 0, s, k1);
        k1, k2 := k1 + 1, k2 + 1;
      } else {
        DiffSkip(o, s, k1, t, k2);
        k2 := k2 + 1;
      }
    }
  }

  function FetchAny(a: array<u16>, i: nat, ghost s: seq<u16>): (v: u16)
    requires i < |s| && Unread(a, 0, s, 0)
    reads a
    ensures v == s[i]
  {
    a[i]
  }

  lemma UnreadNext(a: array<u16>, offset: nat, s: seq<u16>, i: nat)
    requires Unread(a, offset, s, i)
    ensures Unread(a, offset, s, i + 1)
  {
  }

  // ---------- intersection of a small array with a large one ----------

  /** One branchless step: `base` moves up to the middle of the `n` candidates if the value there is too small. */
  method Halve(a: array<u16>, offset: nat, base: nat, n: nat, target: u16, ghost s: seq<u16>) returns (base': nat)
    requires Stretch(a, offset, s) && n > 1 && Candidates(s, base, n, target)
    ensures Candidates(s, base', n - n / 2, target)
  {
    var half := n / 2;
    assert a[offset + base + half] == s[base + half];
    base' := if a[offset + base + half] < target then base + half else base;
  }

  /** The lower bound of `target` is one of `base .. base + n`. */
  ghost predicate Candidates(s: seq<u16>, base: nat, n: nat, target: int) {
    && 0 < n && base + n <= |s| && Sorted(s)
    && (forall k :: 0 <= k < base ==> s[k] < target)
    && (forall k :: base + n <= k < |s| ==> target <= s[k])
  }

  method Settle(a: array<u16>, offset: nat, base: nat, target: u16, ghost s: seq<u16>) returns (index: nat)
    requires Stretch(a, offset, s) && Candidates(s, base, 1, target)
    ensures LowerBound(s, target, index)
  {
    assert a[offset + base] == s[base];
    index := (if a[offset + base] < target then 1 else 0) + base;
  }

  /** `binarySearch4`: four branchless lower bounds at once in the `n` values from `offset` on. */
  method BinarySearch4(a: array<u16>, offset: nat, n: nat, target1: u16, target2: u16, target3: u16, target4: u16,
                       ghost s: seq<u16>)
    returns (index1: nat, index2: nat, index3: nat, index4: nat)
    requires Stretch(a, offset, s) && n == |s| > 0 && Sorted(s)
    ensures LowerBound(s, target1, index1) && LowerBound(s, target2, index2)
    ensures LowerBound(s, target3, index3) && LowerBound(s, target4, index4)
  {
    hide Stretch, LowerBound;
    var base1, base2, base3, base4 := 0, 0, 0, 0;
    var left := n;
    while left > 1
      invariant Candidates(s, base1, left, target1) && Candidates(s, base2, left, target2)
      invariant Candidates(s, base3, left, target3) && Candidates(s, base4, left, target4)
    {
      base1 := Halve(a, offset, base1, left, target1, s);
      base2 := Halve(a, offset, base2, left, target2, s);
      base3 := Halve(a, offset, base3, left, target3, s);
      base4 := Halve(a, offset, base4, left, target4, s);
      left := left - left / 2;
    }
    index1 := Settle(a, offset, base1, target1, s);
    index2 := Settle(a, offset, base2, target2, s);
    index3 := Settle(a, offset, base3, target3, s);
    index4 := Settle(a, offset, base4, target4, s);
  }

  /** `binarySearch2` */
  method BinarySearch2(a: array<u16>, offset: nat, n: nat, target1: u16, target2: u16, ghost s: seq<u16>)
    returns (index1: nat, index2: nat)
    requires Stretch(a, offset, s) && n == |s| > 0 && Sorted(s)
    ensures LowerBound(s, target1, index1) && LowerBound(s, target2, index2)
  {
    hide Stretch, LowerBound;
    var base1, base2 := 0, 0;
    var left := n;
    while left > 1
      invariant Candidates(s, base1, left, target1) && Candidates(s, base2, left, target2)
    {
      base1 := Halve(a, offset, base1, left, target1, s);
      base2 := Halve(a, offset, base2, left, target2, s);
      left := left - left / 2;
    }
    index1 := Settle(a, offset, base1, target1, s);
    index2 := Settle(a, offset, base2, target2, s);
  }

  /** One target of a block: output iff it stands at its lower bound `m`. */
  method EmitIfFound(small: array<u16>, large: array<u16>, buffer: array<u16>, pos: nat, target: u16, m: nat, n: nat,
                     ghost s: seq<u16>, ghost i: nat, ghost l: seq<u16>)
    returns (pos': nat)
    requires small != large && Sorted(s) && Sorted(l) && i < |s| && target == s[i] && n == |l|
    requires |s| <= buffer.Length || |l| <= buffer.Length
    requires pos <= i && pos <= buffer.Length && MeetPrefix(buffer[..pos], s, i, l)
    requires Unread(small, 0, s, i + 1) && LowerBound(l, target, m) && Unread(large, 0, l, m)
    modifies buffer
    ensures pos' <= i + 1 && pos' <= buffer.Length && MeetPrefix(buffer[..pos'], s, i + 1, l)
    ensures Unread(small, 0, s, i + 1) && Unread(large, 0, l, m)
  {
    ghost var o := buffer[..pos];
    MeetBehind(o, s, i, l, m);
    MeetStep(o, s, i, l, m);
    pos' := pos;
    if m < n && large[m] == target {
      assert l[m] == target;
      buffer[pos] := target;
      pos' := pos + 1;
      assert buffer[..pos'] == o + [target];
    }
  }

  lemma UnreadLater(a: array<u16>, offset: nat, s: seq<u16>, i: nat, j: nat)
    requires Unread(a, offset, s, i) && i <= j
    ensures Unread(a, offset, s, j)
  {
  }

  /** A lower bound in the rest of `l` is one in `l`, when the values before are too small. */
  lemma LowerBoundFrom(l: seq<u16>, q: nat, x: int, m: nat)
    requires q <= |l| && LowerBound(l[q..], x, m) && forall k :: 0 <= k < q ==> l[k] < x
    ensures LowerBound(l, x, q + m)
  {
  }

  /** The values of `l` before `q` are all too small for the rest of `s`. */
  ghost predicate Passed(s: seq<u16>, i: nat, l: seq<u16>, q: nat) {
    q <= |l| && (i < |s| ==> forall k :: 0 <= k < q ==> l[k] < s[i])
  }

  lemma PassedNext(s: seq<u16>, i: nat, l: seq<u16>, m: nat)
    requires Sorted(s) && i < |s| && LowerBound(l, s[i], m)
    ensures Passed(s, i + 1, l, m)
  {
  }

  lemma PassedBoth(s: seq<u16>, i: nat, l: seq<u16>, q: nat)
    requires Sorted(s) && Sorted(l) && i < |s| && q < |l| && s[i] == l[q]
    ensures Passed(s, i + 1, l, q + 1)
  {
  }

  lemma PassedTarget(s: seq<u16>, i: nat, l: seq<u16>, q: nat, j: nat)
    requires Sorted(s) && i <= j < |s| && Passed(s, i, l, q)
    ensures forall k :: 0 <= k < q ==> l[k] < s[j]
  {
  }

  /**
   Where `intersect_skewed_uint16` stands between two blocks: `small` is read from `i` on and `large` from `q` on, and
   neither stretch has been overwritten, whichever of the two buffers the output shares.
   */
  ghost predicate Skewed(small: array<u16>, large: array<u16>, buffer: array<u16>, pos: nat,
                         s: seq<u16>, i: nat, l: seq<u16>, q: nat)
    reads small, large, buffer
  {
    && pos <= i <= |s| && pos <= buffer.Length
    && MeetPrefix(buffer[..pos], s, i, l)
    && Unread(small, 0, s, i) && Unread(large, 0, l, q)
    && Passed(s, i, l, q)
  }

  /** One target of a block, with its lower bound `index` in the rest of `large`. */
  method TakeTarget(small: array<u16>, large: array<u16>, buffer: array<u16>, pos: nat, target: u16,
                    q: nat, index: nat, n: nat, ghost s: seq<u16>, ghost i: nat, ghost l: seq<u16>, ghost p: nat)
    returns (pos': nat)
    requires small != large && Sorted(s) && Sorted(l) && i < |s| && target == s[i] && n == |l|
    requires |s| <= buffer.Length || |l| <= buffer.Length
    requires q <= p <= |l| && Skewed(small, large, buffer, pos, s, i, l, p)
    requires Passed(s, i, l, q) && LowerBound(l[q..], target, index)
    modifies buffer
    ensures p <= q + index && Skewed(small, large, buffer, pos', s, i + 1, l, q + index)
  {
    LowerBoundFrom(l, q, target, index);
    if p < |l| { LowerBoundAt(l, target, q + index, p); }
    BoundNotBefore(s, i, l, p, q + index);
    UnreadLater(large, 0, l, p, q + index);
    UnreadNext(small, 0, s, i);
    PassedNext(s, i, l, q + index);
    pos' := EmitIfFound(small, large, buffer, pos, target, q + index, n, s, i, l);
  }

  /** A lower bound of the next value does not lie before values already passed. */
  lemma BoundNotBefore(s: seq<u16>, i: nat, l: seq<u16>, p: nat, m: nat)
    requires i < |s| && Passed(s, i, l, p) && LowerBound(l, s[i], m)
    ensures p <= m
  {
    if p > 0 { LowerBoundAt(l, s[i], m, p - 1); }
  }

  lemma StretchFrom(a: array<u16>, l: seq<u16>, q: nat)
    requires q <= |l| && Unread(a, 0, l, q)
    ensures Stretch(a, q, l[q..])
  {
  }

  /** A block of four targets. */
  method TakeBlock4(small: array<u16>, large: array<u16>, sizeL: nat, buffer: array<u16>, pos: nat, i: nat, q: nat,
                    ghost s: seq<u16>, ghost l: seq<u16>)
    returns (pos': nat, q': nat)
    requires small != large && Sorted(s) && Sorted(l) && sizeL == |l| && q < sizeL && i + 4 <= |s|
    requires |s| <= buffer.Length || |l| <= buffer.Length
    requires Skewed(small, large, buffer, pos, s, i, l, q)
    modifies buffer
    ensures q' <= |l| && Skewed(small, large, buffer, pos', s, i + 4, l, q')
  {
    var target1, target2, target3, target4 := small[i], small[i + 1], small[i + 2], small[i + 3];
    assert target1 == s[i] && target2 == s[i + 1] && target3 == s[i + 2] && target4 == s[i + 3];
    StretchFrom(large, l, q);
    assert Sorted(l[q..]);
    PassedTarget(s, i, l, q, i + 1);
    PassedTarget(s, i, l, q, i + 2);
    PassedTarget(s, i, l, q, i + 3);
    pos', q' := TakeTargets(small, large, sizeL, buffer, pos, i, q, target1, target2, target3, target4, s, l);
  }

  method TakeTargets(small: array<u16>, large: array<u16>, sizeL: nat, buffer: array<u16>, pos: nat, i: nat, q: nat,
                     target1: u16, target2: u16, target3: u16, target4: u16, ghost s: seq<u16>, ghost l: seq<u16>)
    returns (pos': nat, q': nat)
    requires small != large && Sorted(s) && Sorted(l) && sizeL == |l| && q < sizeL && i + 4 <= |s|
    requires |s| <= buffer.Length || |l| <= buffer.Length
    requires Skewed(small, large, buffer, pos, s, i, l, q)
    requires target1 == s[i] && target2 == s[i + 1] && target3 == s[i + 2] && target4 == s[i + 3]
    requires Stretch(large, q, l[q..]) && Sorted(l[q..])
    requires Passed(s, i, l, q) && Passed(s, i + 1, l, q) && Passed(s, i + 2, l, q) && Passed(s, i + 3, l, q)
    modifies buffer
    ensures q' <= |l| && Skewed(small, large, buffer, pos', s, i + 4, l, q')
  {
    hide Skewed, Sorted, Stretch, Passed, LowerBound;
    var index1, index2, index3, index4 :=
      BinarySearch4(large, q, sizeL - q, target1, target2, target3, target4, l[q..]);
    LowerBoundSize(l[q..], target1, index1);
    LowerBoundSize(l[q..], target2, index2);
    LowerBoundSize(l[q..], target3, index3);
    LowerBoundSize(l[q..], target4, index4);
    pos' := TakeTarget(small, large, buffer, pos, target1, q, index1, sizeL, s, i, l, q);
    pos' := TakeTarget(small, large, buffer, pos', target2, q, index2, sizeL, s, i + 1, l, q + index1);
    pos' := TakeTarget(small, large, buffer, pos', target3, q, index3, sizeL, s, i + 2, l, q + index2);
    pos' := TakeTarget(small, large, buffer, pos', target4, q, index4, sizeL, s, i + 3, l, q + index3);
    q' := q + index4;
  }

  lemma LowerBoundSize(s: seq<u16>, x: int, m: nat)
    requires LowerBound(s, x, m)
    ensures m <= |s|
  {
  }

  /** A block of two targets. */
  method TakeBlock2(small: array<u16>, large: array<u16>, sizeL: nat, buffer: array<u16>, pos: nat, i: nat, q: nat,
                    ghost s: seq<u16>, ghost l: seq<u16>)
    returns (pos': nat, q': nat)
    requires small != large && Sorted(s) && Sorted(l) && sizeL == |l| && q < sizeL && i + 2 <= |s|
    requires |s| <= buffer.Length || |l| <= buffer.Length
    requires Skewed(small, large, buffer, pos, s, i, l, q)
    modifies buffer
    ensures q' <= |l| && Skewed(small, large, buffer, pos', s, i + 2, l, q')
  {
    var target1, target2 := small[i], small[i + 1];
    assert target1 == s[i] && target2 == s[i + 1];
    StretchFrom(large, l, q);
    assert Sorted(l[q..]);
    PassedTarget(s, i, l, q, i + 1);
    pos', q' := TakeTwo(small, large, sizeL, buffer, pos, i, q, target1, target2, s, l);
  }

  method TakeTwo(small: array<u16>, large: array<u16>, sizeL: nat, buffer: array<u16>, pos: nat, i: nat, q: nat,
                 target1: u16, target2: u16, ghost s: seq<u16>, ghost l: seq<u16>)
    returns (pos': nat, q': nat)
    requires small != large && Sorted(s) && Sorted(l) && sizeL == |l| && q < sizeL && i + 2 <= |s|
    requires |s| <= buffer.Length || |l| <= buffer.Length
    requires Skewed(small, large, buffer, pos, s, i, l, q)
    requires target1 == s[i] && target2 == s[i + 1]
    requires Stretch(large, q, l[q..]) && Sorted(l[q..])
    requires Passed(s, i, l, q) && Passed(s, i + 1, l, q)
    modifies buffer
    ensures q' <= |l| && Skewed(small, large, buffer, pos', s, i + 2, l, q')
  {
    hide Skewed, Sorted, Stretch, Passed, LowerBound;
    var index1, index2 := BinarySearch2(large, q, sizeL - q, target1, target2, l[q..]);
    LowerBoundSize(l[q..], target1, index1);
    LowerBoundSize(l[q..], target2, index2);
    pos' := TakeTarget(small, large, buffer, pos, target1, q, index1, sizeL, s, i, l, q);
    pos' := TakeTarget(small, large, buffer, pos', target2, q, index2, sizeL, s, i + 1, l, q + index1);
    q' := q + index2;
  }

  /** The last target, when one is left over. */
  method TakeLast(small: array<u16>, large: array<u16>, sizeL: nat, buffer: array<u16>, pos: nat, i: nat, q: nat,
                  ghost s: seq<u16>, ghost l: seq<u16>)
    returns (pos': nat, ghost q': nat)
    requires small != large && Sorted(s) && Sorted(l) && sizeL == |l| && q < sizeL && i < |s|
    requires |s| <= buffer.Length || |l| <= buffer.Length
    requires Skewed(small, large, buffer, pos, s, i, l, q)
    modifies buffer
    ensures q' <= |l| && Skewed(small, large, buffer, pos', s, i + 1, l, q')
  {
    var valS := small[i];
    assert valS == s[i];
    StretchFrom(large, l, q);
    var index := BinarySearch(large, q, sizeL - q, valS);
    ghost var m := if index >= 0 then index else -index - 1;
    assert LowerBound(l[q..], valS, m);
    LowerBoundFrom(l, q, valS, m);
    q' := q + m;
    MeetBehind(buffer[..pos], s, i, l, q');
    MeetStep(buffer[..pos], s, i, l, q');
    PassedNext(s, i, l, q');
    pos' := pos;
    if index >= 0 {
      buffer[pos] := valS;
      pos' := pos + 1;
      assert buffer[..pos'] == old(buffer[..pos]) + [valS];
    }
  }

  /**
   `intersect_skewed_uint16`: blocks of four targets, then two, then one. The output may go to a third buffer, to the
   small array or to the large one.
   */
  method IntersectSkewed(small: array<u16>, sizeS: nat, large: array<u16>, sizeL: nat, buffer: array<u16>)
    returns (pos: nat)
    requires small != large && sizeS <= small.Length && sizeL <= large.Length
    requires sizeS <= buffer.Length || sizeL <= buffer.Length
    requires Sorted(small[..sizeS]) && Sorted(large[..sizeL])
    modifies buffer
    ensures pos <= sizeS && pos <= buffer.Length && Sorted(buffer[..pos])
    ensures Elements(buffer[..pos]) == old(Elements(small[..sizeS])) * old(Elements(large[..sizeL]))
  {
    ghost var s, l := small[..sizeS], large[..sizeL];
    assert Skewed(small, large, buffer, 0, s, 0, l, 0) by {
      assert buffer[..0] == [];
      MeetStart(s, l);
    }
    if 0 == sizeS {
      MeetExhausted(buffer[..0], s, 0, l);
      return 0;
    }
    pos := SkewedBlocks(small, sizeS, large, sizeL, buffer, s, l);
  }

  method SkewedBlocks(small: array<u16>, sizeS: nat, large: array<u16>, sizeL: nat, buffer: array<u16>,
                      ghost s: seq<u16>, ghost l: seq<u16>)
    returns (pos: nat)
    requires small != large && sizeS == |s| && sizeL == |l| && Sorted(s) && Sorted(l)
    requires sizeS <= buffer.Length || sizeL <= buffer.Length
    requires Skewed(small, large, buffer, 0, s, 0, l, 0)
    modifies buffer
    ensures pos <= sizeS && pos <= buffer.Length && Sorted(buffer[..pos])
    ensures Elements(buffer[..pos]) == Elements(s) * Elements(l)
  {
    hide Skewed, Sorted, Elements;
    var idxL: nat, idxS: nat := 0, 0;
    pos := 0;
    while idxS + 4 <= sizeS && idxL < sizeL
      invariant idxS <= sizeS && idxL <= sizeL && Skewed(small, large, buffer, pos, s, idxS, l, idxL)
      decreases sizeS - idxS
    {
      pos, idxL := TakeBlock4(small, large, sizeL, buffer, pos, idxS, idxL, s, l);
      idxS := idxS + 4;
    }
    if idxS + 2 <= sizeS && idxL < sizeL {
      pos, idxL := TakeBlock2(small, large, sizeL, buffer, pos, idxS, idxL, s, l);
      idxS := idxS + 2;
    }
    ghost var q := idxL;
    if idxS < sizeS && idxL < sizeL {
      pos, q := TakeLast(small, large, sizeL, buffer, pos, idxS, idxL, s, l);
      idxS := idxS + 1;
    }
    SkewedDone(small, large, buffer, pos, s, idxS, l, q);
  }

  lemma SkewedDone(small: array<u16>, large: array<u16>, buffer: array<u16>, pos: nat,
                   s: seq<u16>, i: nat, l: seq<u16>, q: nat)
    requires Sorted(s) && Skewed(small, large, buffer, pos, s, i, l, q) && (i == |s| || q == |l|)
    ensures pos <= |s| && pos <= buffer.Length && Sorted(buffer[..pos])
    ensures Elements(buffer[..pos]) == Elements(s) * Elements(l)
  {
  }

  /** `intersect_uint16` with its output in the buffer of the first operand, or in a third buffer. */
  method IntersectUint16(a: array<u16>, lenA: nat, b: array<u16>, lenB: nat, out: array<u16>) returns (pos: nat)
    requires a != b && b != out && lenA <= a.Length && lenB <= b.Length && (lenA <= out.Length || lenB <= out.Length)
    requires Sorted(a[..lenA]) && Sorted(b[..lenB])
    modifies out
    ensures pos <= lenA && pos <= out.Length && Sorted(out[..pos])
    ensures Elements(out[..pos]) == old(Elements(a[..lenA])) * Elements(b[..lenB])
  {
    ghost var s, l := a[..lenA], b[..lenB];
    assert Skewed(a, b, out, 0, s, 0, l, 0) by {
      assert out[..0] == [];
      MeetStart(s, l);
    }
    ghost var i, q;
    pos, i, q := IntersectLoop(a, lenA, b, lenB, out, s, l);
    SkewedDone(a, b, out, pos, s, i, l, q);
    assert b[..lenB] == l;
  }

  method IntersectLoop(a: array<u16>, lenA: nat, b: array<u16>, lenB: nat, out: array<u16>,
                       ghost s: seq<u16>, ghost l: seq<u16>)
    returns (pos: nat, i: nat, q: nat)
    requires a != b && b != out && lenA == |s| && lenB == |l| && Sorted(s) && Sorted(l)
    requires lenA <= out.Length || lenB <= out.Length
    requires Skewed(a, b, out, 0, s, 0, l, 0)
    modifies out
    ensures i <= lenA && q <= lenB && (i == lenA || q == lenB) && Skewed(a, b, out, pos, s, i, l, q)
  {
    hide Skewed, Sorted;
    pos, i, q := 0, 0, 0;
    while i < lenA && q < lenB
      invariant i <= lenA && q <= lenB && Skewed(a, b, out, pos, s, i, l, q)
      decreases lenA - i + lenB - q
    {
      pos, i, q := IntersectStep(a, b, lenB, out, pos, i, q, s, l);
    }
  }

  method IntersectStep(a: array<u16>, b: array<u16>, lenB: nat, out: array<u16>, pos: nat, i: nat, q: nat,
                       ghost s: seq<u16>, ghost l: seq<u16>)
    returns (pos': nat, i': nat, q': nat)
    requires a != b && b != out && Sorted(s) && Sorted(l) && i < |s| && q < |l| == lenB
    requires |s| <= out.Length || |l| <= out.Length
    requires Skewed(a, b, out, pos, s, i, l, q)
    modifies out
    ensures i <= i' <= |s| && q <= q' <= |l| && i + q < i' + q' && Skewed(a, b, out, pos', s, i', l, q')
  {
    var x, y := a[i], b[q];
    assert x == s[i] && y == l[q];
    pos', i', q' := pos, i, q;
    if x > y {
      q' := q + 1;
      UnreadNext(b, 0, l, q);
    } else {
      assert LowerBound(l, x, q);
      UnreadNext(a, 0, s, i);
      PassedNext(s, i, l, q);
      pos' := EmitIfFound(a, b, out, pos, x, q, lenB, s, i, l);
      i' := i + 1;
      if x == y {
        q' := q + 1;
        UnreadNext(b, 0, l, q);
        PassedBoth(s, i, l, q);
      }
    }
  }

  /** `array_container_intersection_inplace` */
  method IntersectInplace(src1: array<u16>, card1: nat, src2: array<u16>, card2: nat) returns (card: nat)
    requires src1 != src2 && card1 <= src1.Length && card2 <= src2.Length
    requires Sorted(src1[..card1]) && Sorted(src2[..card2])
    modifies src1
    ensures card <= src1.Length && Sorted(src1[..card])
    ensures Elements(src1[..card]) == old(Elements(src1[..card1])) * Elements(src2[..card2])
  {
    var threshold := 64;
    if card1 * threshold < card2 {
      card := IntersectSkewed(src1, card1, src2, card2, src1);
    } else if card2 * threshold < card1 {
      card := IntersectSkewed(src2, card2, src1, card1, src1);
    } else {
      card := IntersectUint16(src1, card1, src2, card2, src1);
    }
  }
}
