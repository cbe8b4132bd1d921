/**
 Sorted duplicate-free sequences of 16-bit values, and the prefixes of their merges: what the scans of the array
 kernels have produced so far.
 */
module SortedArrays {
  import opened IntSets

  ghost predicate Sorted(s: seq<u16>) {
    forall i, j :: 0 <= i < j < |s| ==> s[i] < s[j]
  }

  ghost function Elements(s: seq<u16>): set<int> {
    set x: int | x in s
  }

  lemma ElementsSnoc(s: seq<u16>, x: u16)
    ensures Elements(s + [x]) == Elements(s) + {x as int}
  {
  }

  lemma ElementsConcat(s: seq<u16>, t: seq<u16>)
    ensures Elements(s + t) == Elements(s) + Elements(t)
  {
  }

  lemma PrefixGrow(s: seq<u16>, i: nat)
    requires i < |s|
    ensures Elements(s[..i + 1]) == Elements(s[..i]) + {s[i] as int}
  {
    assert s[..i + 1] == s[..i] + [s[i]];
    ElementsSnoc(s[..i], s[i]);
  }

  lemma SortedSnoc(s: seq<u16>, x: u16)
    requires Sorted(s) && (s != [] ==> s[|s| - 1] < x)
    ensures Sorted(s + [x])
  {
  }

  lemma SortedConcat(s: seq<u16>, t: seq<u16>)
    requires Sorted(s) && Sorted(t) && (s != [] && t != [] ==> s[|s| - 1] < t[0])
    ensures Sorted(s + t)
  {
    var u := s + t;
    forall i, j | 0 <= i < j < |u| ensures u[i] < u[j] {
      if i < |s| <= j {
        assert s[i] <= s[|s| - 1] && t[0] <= t[j - |s|];
      }
    }
  }

  /** A sorted sequence has as many elements as entries. */
  lemma {:induction false} SortedSize(s: seq<u16>)
    requires Sorted(s)
    ensures |Elements(s)| == |s|
  {
    if s != [] {
      var t, x := s[..|s| - 1], s[|s| - 1];
      SortedSize(t);
      assert s == t + [x];
      ElementsSnoc(t, x);
      assert x as int !in Elements(t);
    }
  }

  lemma SplitLast(s: seq<u16>)
    requires Sorted(s) && s != []
    ensures Sorted(s[..|s| - 1]) && s == s[..|s| - 1] + [s[|s| - 1]]
    ensures Elements(s[..|s| - 1]) == Elements(s) - {s[|s| - 1] as int}
  {
    var t, x := s[..|s| - 1], s[|s| - 1];
    assert s == t + [x];
    ElementsSnoc(t, x);
  }

  /** Two sorted sequences with the same elements are the same sequence. */
  lemma {:induction false} SortedUnique(s: seq<u16>, t: seq<u16>)
    requires Sorted(s) && Sorted(t) && Elements(s) == Elements(t)
    ensures s == t
    decreases |s|
  {
    hide Elements;
    SortedSize(s);
    SortedSize(t);
    if s != [] {
      LastIsLargest(s, t);
      LastIsLargest(t, s);
      SplitLast(s);
      SplitLast(t);
      SortedUnique(s[..|s| - 1], t[..|t| - 1]);
    }
  }

  lemma LastIsLargest(s: seq<u16>, t: seq<u16>)
    requires Sorted(t) && s != [] && t != [] && Elements(s) <= Elements(t)
    ensures s[|s| - 1] <= t[|t| - 1]
  {
    assert s[|s| - 1] as int in Elements(t);
  }

  // ---------- union ----------

  /** `out` holds the first `i` values of `s` and the first `j` values of `t`, and can take the next of either. */
  ghost predicate MergePrefix(out: seq<u16>, s: seq<u16>, i: nat, t: seq<u16>, j: nat) {
    && i <= |s| && j <= |t| && |out| <= i + j
    && Sorted(out)
    && Elements(out) == Elements(s[..i]) + Elements(t[..j])
    && (out != [] && i < |s| ==> out[|out| - 1] < s[i])
    && (out != [] && j < |t| ==> out[|out| - 1] < t[j])
  }

  lemma MergeStart(s: seq<u16>, t: seq<u16>)
    ensures MergePrefix([], s, 0, t, 0)
  {
  }

  lemma MergeSymmetric(out: seq<u16>, s: seq<u16>, i: nat, t: seq<u16>, j: nat)
    requires MergePrefix(out, s, i, t, j)
    ensures MergePrefix(out, t, j, s, i)
  {
  }

  lemma MergeTake(out: seq<u16>, s: seq<u16>, i: nat, t: seq<u16>, j: nat)
    requires Sorted(s) && Sorted(t) && MergePrefix(out, s, i, t, j)
    requires i < |s| && (j < |t| ==> s[i] < t[j])
    ensures MergePrefix(out + [s[i]], s, i + 1, t, j)
  {
    SortedSnoc(out, s[i]);
    ElementsSnoc(out, s[i]);
    PrefixGrow(s, i);
  }

  lemma MergeTakeBoth(out: seq<u16>, s: seq<u16>, i: nat, t: seq<u16>, j: nat)
    requires Sorted(s) && Sorted(t) && MergePrefix(out, s, i, t, j)
    requires i < |s| && j < |t| && s[i] == t[j]
    ensures MergePrefix(out + [s[i]], s, i + 1, t, j + 1)
  {
    SortedSnoc(out, s[i]);
    ElementsSnoc(out, s[i]);
    PrefixGrow(s, i);
    PrefixGrow(t, j);
  }

  /** Once `t` is used up, the rest of `s` is copied. */
  lemma MergeFinish(out: seq<u16>, s: seq<u16>, i: nat, t: seq<u16>)
    requires Sorted(s) && MergePrefix(out, s, i, t, |t|)
    ensures Sorted(out + s[i..]) && Elements(out + s[i..]) == Elements(s) + Elements(t)
  {
    SortedConcat(out, s[i..]);
    ElementsConcat(out, s[i..]);
    ElementsConcat(s[..i], s[i..]);
    assert s == s[..i] + s[i..] && t[..|t|] == t;
  }

  // ---------- difference ----------

  /**
   `out` holds what `t` leaves of the first `i` values of `s`; the first `j` values of `t` are too small to matter.
   */
  ghost predicate DiffPrefix(out: seq<u16>, s: seq<u16>, i: nat, t: seq<u16>, j: nat) {
    && i <= |s| && j <= |t| && |out| <= i
    && Sorted(out)
    && Elements(out) == Elements(s[..i]) - Elements(t)
    && (out != [] && i < |s| ==> out[|out| - 1] < s[i])
    && (i < |s| ==> forall k :: 0 <= k < j ==> t[k] < s[i])
  }

  lemma DiffStart(s: seq<u16>, t: seq<u16>)
    ensures DiffPrefix([], s, 0, t, 0)
  {
  }

  lemma DiffKeep(out: seq<u16>, s: seq<u16>, i: nat, t: seq<u16>, j: nat)
    requires Sorted(s) && Sorted(t) && DiffPrefix(out, s, i, t, j)
    requires i < |s| && (j < |t| ==> s[i] < t[j])
    ensures DiffPrefix(out + [s[i]], s, i + 1, t, j)
  {
    SortedSnoc(out, s[i]);
    ElementsSnoc(out, s[i]);
    PrefixGrow(s, i);
    assert s[i] !in t;
  }

  lemma DiffDrop(out: seq<u16>, s: seq<u16>, i: nat, t: seq<u16>, j: nat)
    requires Sorted(s) && Sorted(t) && DiffPrefix(out, s, i, t, j)
    requires i < |s| && j < |t| && s[i] == t[j]
    ensures DiffPrefix(out, s, i + 1, t, j + 1)
  {
    PrefixGrow(s, i);
  }

  lemma DiffSkip(out: seq<u16>, s: seq<u16>, i: nat, t: seq<u16>, j: nat)
    requires Sorted(t) && DiffPrefix(out, s, i, t, j) && i < |s| && j < |t| && t[j] < s[i]
    ensures DiffPrefix(out, s, i, t, j + 1)
  {
  }

  /** Once `t` is used up, the rest of `s` is copied. */
  lemma DiffFinish(out: seq<u16>, s: seq<u16>, i: nat, t: seq<u16>)
    requires Sorted(s) && DiffPrefix(out, s, i, t, |t|)
    ensures Sorted(out + s[i..]) && Elements(out + s[i..]) == Elements(s) - Elements(t)
  {
    SortedConcat(out, s[i..]);
    ElementsConcat(out, s[i..]);
    ElementsConcat(s[..i], s[i..]);
    assert s == s[..i] + s[i..];
    forall x | x in s[i..] ensures x !in t {
      assert i < |s| ==> s[i] <= x;
    }
  }

  // ---------- intersection against a large array ----------

  /** `m` is the lower bound of `x` in `s`. */
  ghost predicate LowerBound(s: seq<u16>, x: int, m: nat) {
    && m <= |s|
    && (forall k :: 0 <= k < m ==> s[k] < x)
    && (forall k :: m <= k < |s| ==> x <= s[k])
  }

  lemma LowerBoundAt(s: seq<u16>, x: int, m: nat, k: nat)
    requires LowerBound(s, x, m) && k < |s|
    ensures s[k] < x <==> k < m
  {
  }

  /** `out` holds those of the first `i` values of `s` that `l` has. */
  ghost predicate MeetPrefix(out: seq<u16>, s: seq<u16>, i: nat, l: seq<u16>) {
    && i <= |s| && |out| <= i
    && Sorted(out)
    && Elements(out) == Elements(s[..i]) * Elements(l)
    && (out != [] && i < |s| ==> out[|out| - 1] < s[i])
  }

  lemma MeetStart(s: seq<u16>, l: seq<u16>)
    ensures MeetPrefix([], s, 0, l)
  {
  }

  /** The next value is output iff it stands at its lower bound. */
  lemma MeetStep(out: seq<u16>, s: seq<u16>, i: nat, l: seq<u16>, m: nat)
    requires Sorted(s) && Sorted(l) && MeetPrefix(out, s, i, l) && i < |s| && LowerBound(l, s[i], m)
    ensures m < |l| && l[m] == s[i] ==> MeetPrefix(out + [s[i]], s, i + 1, l)
    ensures !(m < |l| && l[m] == s[i]) ==> MeetPrefix(out, s, i + 1, l)
  {
    PrefixGrow(s, i);
    SortedSnoc(out, s[i]);
    ElementsSnoc(out, s[i]);
    if s[i] in l {
      var k :| 0 <= k < |l| && l[k] == s[i];
      assert m < |l| && s[i] <= l[m];
    }
  }

  /** The output never gets ahead of the large array: it holds distinct values below the lower bound. */
  lemma MeetBehind(out: seq<u16>, s: seq<u16>, i: nat, l: seq<u16>, m: nat)
    requires Sorted(l) && MeetPrefix(out, s, i, l) && i < |s| && LowerBound(l, s[i], m)
    ensures |out| <= m
  {
    SortedSize(out);
    SortedSize(l[..m]);
    forall x | x in Elements(out) ensures x in Elements(l[..m]) {
      assert x in Elements(l);
      var k :| 0 <= k < |l| && l[k] == x;
      assert l[..m][k] == x;
    }
    SubsetSize(Elements(out), Elements(l[..m]));
  }

  /** Nothing of `s` from `i` on is in `l` once `l` is exhausted. */
  lemma MeetExhausted(out: seq<u16>, s: seq<u16>, i: nat, l: seq<u16>)
    requires Sorted(s) && MeetPrefix(out, s, i, l)
    requires i < |s| ==> forall k :: 0 <= k < |l| ==> l[k] < s[i]
    ensures Sorted(out) && Elements(out) == Elements(s) * Elements(l)
  {
    ElementsConcat(s[..i], s[i..]);
    assert s == s[..i] + s[i..];
    forall x | x in s[i..] ensures x !in l {
      assert i < |s| ==> s[i] <= x;
    }
  }
}
