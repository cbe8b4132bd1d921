/** Smallest and largest members, ranks and selection in a finite set of integers. */
module Ranks {
  import opened IntSets

  /** `x` is the smallest member of `s`. */
  ghost predicate Smallest(s: set<int>, x: int) {
    x in s && forall y :: y in s ==> x <= y
  }

  /** `x` is the largest member of `s`. */
  ghost predicate Largest(s: set<int>, x: int) {
    x in s && forall y :: y in s ==> y <= x
  }

  /** The number of members up to and including `x`. */
  ghost function RankOf(s: set<int>, x: int): nat { |Below(s, x + 1)| }

  /** `x` is the member of `s` that has exactly `k` members before it. */
  ghost predicate Selects(s: set<int>, k: int, x: int) {
    x in s && |Below(s, x)| == k
  }

  /** The outcome of a container's `select`: the element of rank `rank`, or the rank after the container. */
  ghost predicate Selected(s: set<int>, startRank: int, rank: int, found: bool, startRank': int, element: int) {
    && (found <==> rank < startRank + |s|)
    && (found ==> Selects(s, rank - startRank, element))
    && (!found ==> startRank' == startRank + |s|)
  }

  lemma BelowNext(s: set<int>, x: int)
    requires x in s
    ensures |Below(s, x + 1)| == |Below(s, x)| + 1 && |Below(s, x + 1)| <= |s|
  {
    assert Below(s, x + 1) == Below(s, x) + {x};
    SubsetSize(Below(s, x + 1), s);
  }

  lemma BelowMonotone(s: set<int>, x: int, y: int)
    requires x <= y
    ensures Below(s, x) <= Below(s, y) && |Below(s, x)| <= |Below(s, y)|
  {
    SubsetSize(Below(s, x), Below(s, y));
  }

  /**
   Rank and selection are inverse: the member selected by `k` has rank `k + 1`, and every member is selected by its
   rank.
   */
  lemma SelectedRank(s: set<int>, k: int, x: int)
    ensures Selects(s, k, x) <==> x in s && RankOf(s, x) == k + 1
  {
    if x in s { BelowNext(s, x); }
  }

  /** At most one member is selected by `k`. */
  lemma SelectsUnique(s: set<int>, k: int, x: int, y: int)
    requires Selects(s, k, x) && Selects(s, k, y)
    ensures x == y
  {
    if x < y {
      BelowNext(s, x);
      BelowMonotone(s, x + 1, y);
    } else if y < x {
      BelowNext(s, y);
      BelowMonotone(s, y + 1, x);
    }
  }

  /** A range holds as many members as the ranks at its two ends differ by. */
  lemma RangeCount(s: set<int>, lo: int, hi: int)
    requires lo <= hi
    ensures |s * Range(lo, hi)| == |Below(s, hi)| - |Below(s, lo)|
  {
    var p, q, r := Below(s, lo), s * Range(lo, hi), Below(s, hi);
    assert r == p + q;
  }
}
