/** Negating an interval of a run container, into a new container or in place. */
module RunNegation {
  import opened IntSets
  import opened Runs
  import opened RunXor
  import opened RunContainers
  import opened RunAlgebra

  /** `s` with the interval `r` negated has room: either the buffer has a spare slot, or an end of `r` is a boundary. */
  ghost predicate HasRoom(s: seq<Run>, r: Run, capacity: nat) {
    |s| < capacity || (|s| == capacity && (Edge(Denote(s), r.value) || Edge(Denote(s), r.End())))
  }

  /** Appends run `k` of the list being negated. No write lands past the slot after the `k` consumed ones. */
  method TakeRun(ans: RunContainer, next: Run, ghost s: seq<Run>, ghost k: nat, ghost r: Run)
    requires Canonical(s) && r.End() <= 0x1_0000 && k < |s| && next == s[k]
    requires ans.nRuns <= ans.runs.Length && XorPrefix(ans.View(), s, k, [r], 1)
    requires HasRoom(s, r, ans.runs.Length)
    modifies ans`nRuns, ans.runs
    ensures ans.nRuns <= ans.runs.Length && XorPrefix(ans.View(), s, k + 1, [r], 1)
    ensures forall i :: k + 1 < i < ans.runs.Length ==> ans.runs[i] == old(ans.runs[i])
  {
    XorPrefixStep(ans.View(), s, k, [r], 1);
    if k + 1 == |s| {
      NegationFits(s, AppendExclusive(ans.View(), next), r);
    }
    ans.SmartAppendExclusive(next.value, next.length);
  }

  /** Appends the interval itself, after the `k` runs that start before it. */
  method TakeInterval(ans: RunContainer, ghost s: seq<Run>, ghost k: nat, r: Run)
    requires Canonical(s) && r.End() <= 0x1_0000 && k <= |s| && (k < |s| ==> r.value <= s[k].value)
    requires ans.nRuns <= ans.runs.Length && XorPrefix(ans.View(), s, k, [r], 0)
    requires HasRoom(s, r, ans.runs.Length)
    modifies ans`nRuns, ans.runs
    ensures ans.nRuns <= ans.runs.Length && XorPrefix(ans.View(), s, k, [r], 1)
    ensures forall i :: k < i < ans.runs.Length ==> ans.runs[i] == old(ans.runs[i])
  {
    ghost var acc := ans.View();
    XorPrefixSymmetric(acc, s, k, [r], 0);
    XorPrefixStep(acc, [r], 0, s, k);
    XorPrefixSymmetric(AppendExclusive(acc, r), [r], 1, s, k);
    if k == |s| {
      NegationFits(s, AppendExclusive(acc, r), r);
    }
    ans.SmartAppendExclusive(r.value, r.length);
  }

  /** The first loop of `run_container_negation_range`: the runs that start before the interval. */
  method CopyPrefix(src: RunContainer, ans: RunContainer, rangeStart: int) returns (k: nat)
    requires src.nRuns <= src.runs.Length && src != ans && src.runs != ans.runs
    requires ans.nRuns == 0 && src.nRuns <= ans.runs.Length
    modifies ans`nRuns, ans.runs
    ensures k <= src.nRuns && ans.nRuns == k && ans.View() == src.View()[..k]
    ensures k > 0 ==> src.runs[k - 1].value < rangeStart
    ensures k < src.nRuns ==> rangeStart <= src.runs[k].value
  {
    k := 0;
    while k < src.nRuns && src.runs[k].value < rangeStart
      invariant k <= src.nRuns && ans.nRuns == k && ans.View() == src.View()[..k]
      invariant k > 0 ==> src.runs[k - 1].value < rangeStart
    {
      ans.runs[k] := src.runs[k];
      ans.nRuns := ans.nRuns + 1;
      k := k + 1;
    }
  }

  /** Its last loop: the runs that start at or after the interval. */
  method TakeRest(src: RunContainer, ans: RunContainer, start: nat, r: Run)
    requires src.Valid() && src != ans && src.runs != ans.runs && r.End() <= 0x1_0000 && start <= src.nRuns
    requires ans.nRuns <= ans.runs.Length && src.nRuns < ans.runs.Length
    requires XorPrefix(ans.View(), src.View(), start, [r], 1)
    modifies ans`nRuns, ans.runs
    ensures ans.nRuns <= ans.runs.Length && XorPrefix(ans.View(), src.View(), src.nRuns, [r], 1)
  {
    hide XorPrefix, Canonical;
    ghost var s := src.View();
    var k := start;
    while k < src.nRuns
      invariant k <= src.nRuns && Holds(src, s)
      invariant ans.nRuns <= ans.runs.Length && XorPrefix(ans.View(), s, k, [r], 1)
    {
      TakeRun(ans, src.runs[k], s, k, r);
      k := k + 1;
    }
  }

  /** `run_container_negation_range`, up to the choice of the result's representation. */
  method NegationRange(src: RunContainer, rangeStart: int, rangeEnd: int) returns (ans: RunContainer)
    requires src.Valid() && 0 <= rangeStart && rangeEnd <= 0x1_0000
    ensures fresh(ans) && fresh(ans.runs) && ans.Valid()
    ensures Denote(ans.View()) == Xor(Denote(src.View()), Range(rangeStart, rangeEnd))
    ensures rangeStart < rangeEnd ==> ans.runs.Length == src.nRuns + 1
  {
    if rangeEnd <= rangeStart {
      assert Range(rangeStart, rangeEnd) == {};
      ans := Clone(src);
    } else {
      ans := NegateInto(src, Run(rangeStart, rangeEnd - rangeStart - 1));
    }
  }

  /** `run_container_clone` */
  method Clone(src: RunContainer) returns (run: RunContainer)
    requires src.nRuns <= src.runs.Length
    ensures fresh(run) && fresh(run.runs) && run.nRuns <= run.runs.Length && run.View() == src.View()
  {
    run := new RunContainer(src.runs.Length);
    run.CopyFrom(src);
  }

  /** The case of `run_container_negation_range` with a non-empty interval. */
  method NegateInto(src: RunContainer, r: Run) returns (ans: RunContainer)
    requires src.Valid() && r.End() <= 0x1_0000
    ensures fresh(ans) && fresh(ans.runs) && ans.Valid() && ans.runs.Length == src.nRuns + 1
    ensures Denote(ans.View()) == Xor(Denote(src.View()), Range(r.value, r.End()))
  {
    hide XorPrefix, Canonical, Edge;
    ans := new RunContainer(src.nRuns + 1);
    var k := CopyPrefix(src, ans, r.value);
    ghost var s := src.View();
    NegationStart(s, k, r);
    TakeInterval(ans, s, k, r);
    TakeRest(src, ans, k, r);
    Negated(ans.View(), s, r);
  }

  lemma Negated(t: seq<Run>, s: seq<Run>, r: Run)
    requires XorPrefix(t, s, |s|, [r], 1)
    ensures Canonical(t) && Denote(t) == Xor(Denote(s), Range(r.value, r.End()))
  {
    assert [r][..1] == [r];
    XorPrefixDone(t, s, [r]);
    DenoteSingle(r);
  }

  /** The membership tests of `run_container_negation_range_inplace` on a full buffer. */
  method FitsInPlace(src: RunContainer, rangeStart: int, rangeEnd: int) returns (fits: bool)
    requires src.Valid() && 0 <= rangeStart < rangeEnd <= 0x1_0000
    ensures fits <==> HasRoom(src.View(), Interval(rangeStart, rangeEnd), src.runs.Length)
  {
    ghost var s := src.View();
    DenoteBounds(s);
    if src.runs.Length == src.nRuns {
      var lastValBeforeRange, firstValPastRange := false, false;
      if rangeStart > 0 {
        lastValBeforeRange := src.Contains(rangeStart - 1);
      }
      var firstValInRange := src.Contains(rangeStart);
      if lastValBeforeRange == firstValInRange {
        var lastValInRange := src.Contains(rangeEnd - 1);
        if rangeEnd != 0x1_0000 {
          firstValPastRange := src.Contains(rangeEnd);
        }
        return lastValInRange != firstValPastRange;
      }
    }
    return true;
  }

  /** `run_container_negation_range_inplace`, up to the choice of the result's representation. */
  method NegationRangeInplace(src: RunContainer, rangeStart: int, rangeEnd: int) returns (ans: RunContainer)
    requires src.Valid() && 0 <= rangeStart && rangeEnd <= 0x1_0000
    modifies src`nRuns, src.runs
    ensures ans == src || fresh(ans)
    ensures ans.Valid() && Denote(ans.View()) == Xor(old(Denote(src.View())), Range(rangeStart, rangeEnd))
    ensures rangeStart < rangeEnd ==>
      (ans == src <==> old(HasRoom(src.View(), Interval(rangeStart, rangeEnd), src.runs.Length)))
    ensures var s := old(Denote(src.View()));
      rangeStart < rangeEnd ==>
        (ans == src <==> old(src.nRuns) < src.runs.Length || (rangeStart in s) != (rangeStart - 1 in s)
                         || (rangeEnd in s) != (rangeEnd - 1 in s))
  {
    if rangeEnd <= rangeStart {
      return src;
    }
    var fits := FitsInPlace(src, rangeStart, rangeEnd);
    if !fits {
      ans := NegationRange(src, rangeStart, rangeEnd);
      return;
    }
    NegateBuffer(src, Run(rangeStart, rangeEnd - rangeStart - 1));
    ans := src;
  }

  /** Keeps the runs that start before the interval, where they are. */
  method SkipPrefix(src: RunContainer, rangeStart: int) returns (k: nat)
    requires src.nRuns <= src.runs.Length
    modifies src`nRuns
    ensures k <= old(src.nRuns) && src.nRuns == k && src.View() == old(src.View())[..k]
    ensures k > 0 ==> src.runs[k - 1].value < rangeStart
    ensures k < old(src.nRuns) ==> rangeStart <= src.runs[k].value
  {
    var myNbrRuns := src.nRuns;
    src.nRuns := 0;
    k := 0;
    while k < myNbrRuns && src.runs[k].value < rangeStart
      invariant k <= myNbrRuns && src.nRuns == k
      invariant k > 0 ==> src.runs[k - 1].value < rangeStart
    {
      src.nRuns := src.nRuns + 1;
      k := k + 1;
    }
  }

  /** The in-place scan: one look-ahead run is held in `buffered`, so no unread run is overwritten. */
  method TakeBuffered(src: RunContainer, start: nat, myNbrRuns: nat, first: Run, ghost s: seq<Run>, ghost r: Run)
    requires Canonical(s) && r.End() <= 0x1_0000 && start <= myNbrRuns == |s|
    requires src.nRuns <= src.runs.Length && HasRoom(s, r, src.runs.Length)
    requires XorPrefix(src.View(), s, start, [r], 1)
    requires start < |s| ==> first == s[start]
    requires forall i :: start < i < |s| ==> src.runs[i] == s[i]
    modifies src`nRuns, src.runs
    ensures src.nRuns <= src.runs.Length && XorPrefix(src.View(), s, |s|, [r], 1)
  {
    hide XorPrefix, Canonical, Edge;
    var k := start;
    var buffered, next := first, Run(0, 0);
    while k < myNbrRuns
      invariant k <= |s| && src.nRuns <= src.runs.Length
      invariant XorPrefix(src.View(), s, k, [r], 1)
      invariant k < |s| ==> buffered == s[k]
      invariant forall i :: k < i < |s| ==> src.runs[i] == s[i]
    {
      if k + 1 < myNbrRuns {
        next := src.runs[k + 1];
      }
      TakeRun(src, buffered, s, k, r);
      buffered := next;
      k := k + 1;
    }
  }

  /** The in-place case of `run_container_negation_range_inplace`. */
  method NegateBuffer(src: RunContainer, r: Run)
    requires src.Valid() && r.End() <= 0x1_0000 && HasRoom(src.View(), r, src.runs.Length)
    modifies src`nRuns, src.runs
    ensures src.Valid() && Denote(src.View()) == Xor(old(Denote(src.View())), Range(r.value, r.End()))
  {
    ghost var s := src.View();
    var myNbrRuns := src.nRuns;
    var k := SkipPrefix(src, r.value);
    assert forall i :: 0 <= i < |s| ==> src.runs[i] == s[i];
    NegationStart(s, k, r);
    var buffered := Run(0, 0);
    if k < myNbrRuns {
      buffered := src.runs[k];
    }
    TakeInterval(src, s, k, r);
    TakeBuffered(src, k, myNbrRuns, buffered, s, r);
    Negated(src.View(), s, r);
  }
}
