/**
 Symmetric difference of run lists as a start-ordered scan that appends one run at a time
 (`run_container_smart_append_exclusive`).
 */
module RunXor {
  import opened IntSets
  import opened Runs

  /** The scan only ever appends a run that starts at or after the last run held. */
  predicate Appendable(s: seq<Run>, r: Run) {
    && r.End() <= 0x1_0000
    && (s != [] ==> s[|s| - 1].End() <= 0x1_0000 && s[|s| - 1].value <= r.value)
  }

  /** What becomes of the last run `last` and the appended run `r`: nothing, one run or two. */
  function ExclusiveTail(last: Run, r: Run): (t: seq<Run>)
    requires last.End() <= 0x1_0000 && r.End() <= 0x1_0000 && last.value <= r.value
    ensures |t| <= 2
  {
    var oldEnd, newEnd := last.End(), r.End();
    if r.value > oldEnd then [last, r]
    else if r.value == oldEnd then [Interval(last.value, newEnd)]
    else if r.value == last.value then
      if newEnd < oldEnd then [Interval(newEnd, oldEnd)]
      else if newEnd > oldEnd then [Interval(oldEnd, newEnd)]
      else []
    else
      var kept := Interval(last.value, r.value);
      if newEnd < oldEnd then [kept, Interval(newEnd, oldEnd)]
      else if newEnd > oldEnd then [kept, Interval(oldEnd, newEnd)]
      else [kept]
  }

  /** The list after appending `r`, dropping the values that the list already holds. */
  function AppendExclusive(s: seq<Run>, r: Run): (t: seq<Run>)
    requires Appendable(s, r)
    ensures |s| - 1 <= |t| <= |s| + 1
  {
    if s == [] then [r] else s[..|s| - 1] + ExclusiveTail(s[|s| - 1], r)
  }

  /** The tail is the canonical symmetric difference of the two runs. */
  lemma ExclusiveTailIsXor(last: Run, r: Run)
    requires last.End() <= 0x1_0000 && r.End() <= 0x1_0000 && last.value <= r.value
    ensures var t := ExclusiveTail(last, r);
      && Canonical(t)
      && Denote(t) == Xor(Range(last.value, last.End()), Range(r.value, r.End()))
      && (t != [] ==> last.value <= t[0].value)
  {
    var t := ExclusiveTail(last, r);
    if |t| == 1 {
      DenoteSingle(t[0]);
    } else if |t| == 2 {
      assert t == [t[0]] + [t[1]];
      DenoteSingle(t[0]);
      DenoteSnoc([t[0]], t[1]);
    }
  }

  /** Where the last run of the list `t` obtained by appending `r` to `s` may start and end. */
  ghost predicate LastAfterAppend(s: seq<Run>, r: Run, t: seq<Run>) {
    t != [] ==>
      var last := t[|t| - 1];
      if s == [] then last == r
      else
        var oldEnd := s[|s| - 1].End();
        && (last.End() <= oldEnd || last.End() <= r.End())
        && (last.value <= r.value || (last.value <= oldEnd && last.value <= r.End() && r.value < oldEnd))
  }

  /** One append is one symmetric difference, and keeps the list canonical. */
  lemma AppendExclusiveIsXor(s: seq<Run>, r: Run)
    requires Canonical(s) && Appendable(s, r)
    ensures var t := AppendExclusive(s, r);
      && Canonical(t)
      && Denote(t) == Xor(Denote(s), Range(r.value, r.End()))
      && LastAfterAppend(s, r, t)
  {
    if s == [] {
      DenoteSingle(r);
    } else {
      hide Denote, ExclusiveTail, Xor;
      var init, last := s[..|s| - 1], s[|s| - 1];
      var tail := ExclusiveTail(last, r);
      ExclusiveTailIsXor(last, r);
      CanonicalSlice(s, 0, |s| - 1);
      CanonicalConcat(init, tail);
      DenoteConcat(init, tail);
      AppendLast(s, r);
      LastSplitsOff(s);
      XorOutside(Denote(init), Range(last.value, last.End()), Range(r.value, r.End()));
    }
  }

  lemma LastSplitsOff(s: seq<Run>)
    requires Canonical(s) && s != []
    ensures var last := s[|s| - 1];
      && Denote(s) == Denote(s[..|s| - 1]) + Range(last.value, last.End())
      && Denote(s[..|s| - 1]) <= Range(0, last.value)
  {
    var init := s[..|s| - 1];
    forall x | x in Denote(init) ensures x < s[|s| - 1].value {
      SplitLast(s, x);
      DenoteBelow(init, x);
    }
  }

  lemma AppendLast(s: seq<Run>, r: Run)
    requires Canonical(s) && Appendable(s, r)
    ensures LastAfterAppend(s, r, AppendExclusive(s, r))
  {
    if s != [] && ExclusiveTail(s[|s| - 1], r) == [] && |s| > 1 {
      assert AppendExclusive(s, r) == s[..|s| - 1];
    }
  }

  // ---------- the merge of two canonical lists ----------

  /** One past everything in the first `i` runs of `a`. */
  function EndOf(a: seq<Run>, i: nat): int
    requires i <= |a|
  {
    if i == 0 then 0 else a[i - 1].End()
  }

  /**
   `acc` is the xor of the first `i` runs of `a` and the first `j` runs of `b`, and can take the next run of either.
   */
  ghost predicate XorPrefix(acc: seq<Run>, a: seq<Run>, i: nat, b: seq<Run>, j: nat) {
    && i <= |a| && j <= |b| && |acc| <= i + j
    && Canonical(acc)
    && Denote(acc) == Xor(Denote(a[..i]), Denote(b[..j]))
    && (acc != [] ==>
      var last := acc[|acc| - 1];
      && last.End() <= (if EndOf(a, i) < EndOf(b, j) then EndOf(b, j) else EndOf(a, i))
      && (i < |a| ==> last.value <= a[i].value)
      && (j < |b| ==> last.value <= b[j].value))
  }

  lemma XorPrefixStart(a: seq<Run>, b: seq<Run>)
    ensures XorPrefix([], a, 0, b, 0)
  {
    assert a[..0] == [] && b[..0] == [];
  }

  lemma XorPrefixSymmetric(acc: seq<Run>, a: seq<Run>, i: nat, b: seq<Run>, j: nat)
    requires XorPrefix(acc, a, i, b, j)
    ensures XorPrefix(acc, b, j, a, i)
  {
    assert Xor(Denote(a[..i]), Denote(b[..j])) == Xor(Denote(b[..j]), Denote(a[..i]));
  }

  /** Appending the next run of `a`, when it starts no later than the next run of `b`. */
  lemma XorPrefixStep(acc: seq<Run>, a: seq<Run>, i: nat, b: seq<Run>, j: nat)
    requires Loose(a) && Loose(b) && XorPrefix(acc, a, i, b, j)
    requires i < |a| && (j < |b| ==> a[i].value <= b[j].value)
    ensures Appendable(acc, a[i])
    ensures XorPrefix(AppendExclusive(acc, a[i]), a, i + 1, b, j)
  {
    AppendExclusiveIsXor(acc, a[i]);
    XorOneMore(Denote(acc), a, i, Denote(b[..j]));
    assert i > 0 ==> EndOf(a, i) <= a[i].value;
    assert j > 0 && j < |b| ==> EndOf(b, j) <= b[j].value;
    assert i + 1 < |a| ==> a[i].End() <= a[i + 1].value;
  }

  lemma XorOneMore(acc: set<int>, a: seq<Run>, i: nat, b: set<int>)
    requires Loose(a) && i < |a| && acc == Xor(Denote(a[..i]), b)
    ensures Xor(acc, Range(a[i].value, a[i].End())) == Xor(Denote(a[..i + 1]), b)
  {
    assert a[..i + 1] == a[..i] + [a[i]];
    DenoteSnoc(a[..i], a[i]);
    forall x | x in Denote(a[..i]) ensures x < a[i].value { var k := DenoteWitness(a[..i], x); }
  }

  /** The finished merge: the canonical list of the symmetric difference, in at most `|a| + |b|` runs. */
  lemma XorPrefixDone(acc: seq<Run>, a: seq<Run>, b: seq<Run>)
    requires XorPrefix(acc, a, |a|, b, |b|)
    ensures Canonical(acc) && Denote(acc) == Xor(Denote(a), Denote(b)) && |acc| <= |a| + |b|
  {
    assert a[..|a|] == a && b[..|b|] == b;
  }

  // ---------- negating an interval ----------

  /** A canonical list cut after `k` runs is ready to take the interval, if the cut is in start order. */
  lemma NegationStart(s: seq<Run>, k: nat, r: Run)
    requires Canonical(s) && k <= |s|
    requires k > 0 ==> s[k - 1].value < r.value
    requires k < |s| ==> r.value <= s[k].value
    ensures XorPrefix(s[..k], s, k, [r], 0)
  {
    CanonicalSlice(s, 0, k);
    assert [r][..0] == [];
  }

  /** Membership tests at the two ends of the interval decide whether the negation needs one more run. */
  lemma NegationFits(s: seq<Run>, t: seq<Run>, r: Run)
    requires Canonical(s) && r.End() <= 0x1_0000
    requires XorPrefix(t, s, |s|, [r], 1)
    ensures |t| <= |s| <==> Edge(Denote(s), r.value) || Edge(Denote(s), r.End())
  {
    assert [r][..1] == [r];
    assert Canonical([r]);
    XorPrefixDone(t, s, [r]);
    DenoteSingle(r);
    XorRunCount(s, t, r.value, r.End());
  }
}
