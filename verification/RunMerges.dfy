/** Union, intersection and difference of canonical run lists as two-finger scans. */
module RunMerges {
  import opened IntSets
  import opened Runs
  import opened RunXor

  // ---------- union ----------

  /** The list after `run_container_append` of a run that starts no earlier than the last one. */
  function AppendUnion(s: seq<Run>, r: Run): (t: seq<Run>)
    requires Appendable(s, r)
    ensures |s| <= |t| <= |s| + 1
  {
    if s == [] then [r]
    else
      var last := s[|s| - 1];
      if r.value > last.End() then s + [r]
      else if r.End() >= last.End() then s[..|s| - 1] + [Interval(last.value, r.End())]
      else s
  }

  lemma AppendUnionDenotes(s: seq<Run>, r: Run)
    requires Canonical(s) && Appendable(s, r)
    ensures var t := AppendUnion(s, r);
      && Canonical(t)
      && Denote(t) == Denote(s) + Range(r.value, r.End())
      && t[|t| - 1].value <= r.value
  {
    if s == [] {
      DenoteSingle(r);
    } else if r.value > s[|s| - 1].End() {
      CanonicalSnoc(s, r);
      DenoteSnoc(s, r);
    } else if r.End() >= s[|s| - 1].End() {
      ExtendLast(s, r.End());
      Join(s[|s| - 1].value, s[|s| - 1].End(), r.value, r.End());
    }
  }

  /** The last run grows up to `hi`. */
  lemma ExtendLast(s: seq<Run>, hi: int)
    requires Canonical(s) && s != [] && s[|s| - 1].End() <= hi <= 0x1_0000
    ensures var t := s[..|s| - 1] + [Interval(s[|s| - 1].value, hi)];
      Canonical(t) && Denote(t) == Denote(s) + Range(s[|s| - 1].value, hi)
  {
    var init, last := s[..|s| - 1], s[|s| - 1];
    CanonicalSlice(s, 0, |s| - 1);
    CanonicalSnoc(init, Interval(last.value, hi));
    DenoteSnoc(init, Interval(last.value, hi));
  }

  lemma Join(a: int, b: int, c: int, d: int)
    requires a <= c <= b <= d
    ensures Range(a, d) == Range(a, b) + Range(c, d)
  {
  }

  // ---------- one value at a time ----------

  lemma PrefixGrow(a: seq<Run>, i: nat, x: int)
    requires i < |a|
    ensures x in Denote(a[..i + 1]) <==> x in Denote(a[..i]) || a[i].Contains(x)
  {
    hide Denote;
    assert a[..i + 1] == a[..i] + [a[i]];
    DenoteSnoc(a[..i], a[i]);
  }

  /** A value below the end of run `j` lies in an earlier run or in run `j`. */
  lemma UpToRun(b: seq<Run>, j: nat, x: int)
    requires Canonical(b) && j < |b| && x in Denote(b) && x < b[j].End()
    ensures x in Denote(b[..j]) || b[j].Contains(x)
  {
    hide Denote;
    var k := DenoteWitness(b, x);
    if k < j { DenoteMember(b[..j], k, x); }
  }

  lemma PrefixSubset(a: seq<Run>, i: nat)
    requires i <= |a|
    ensures Denote(a[..i]) <= Denote(a)
  {
    hide Denote;
    assert a == a[..i] + a[i..];
    DenoteConcat(a[..i], a[i..]);
  }

  // ---------- union, continued ----------

  /**
   `acc` is the union of the first `i` runs of `a` and the first `j` runs of `b`, and can take the next run of either.
   */
  ghost predicate UnionPrefix(acc: seq<Run>, a: seq<Run>, i: nat, b: seq<Run>, j: nat) {
    && i <= |a| && j <= |b| && |acc| <= i + j
    && (i + j > 0 ==> acc != [])
    && Canonical(acc)
    && Denote(acc) == Denote(a[..i]) + Denote(b[..j])
    && (acc != [] ==>
      var last := acc[|acc| - 1];
      && (i < |a| ==> last.value <= a[i].value)
      && (j < |b| ==> last.value <= b[j].value))
  }

  lemma UnionPrefixStart(a: seq<Run>, b: seq<Run>)
    ensures UnionPrefix([], a, 0, b, 0)
  {
  }

  lemma UnionPrefixSymmetric(acc: seq<Run>, a: seq<Run>, i: nat, b: seq<Run>, j: nat)
    requires UnionPrefix(acc, a, i, b, j)
    ensures UnionPrefix(acc, b, j, a, i)
  {
  }

  lemma UnionPrefixStep(acc: seq<Run>, a: seq<Run>, i: nat, b: seq<Run>, j: nat)
    requires Loose(a) && UnionPrefix(acc, a, i, b, j)
    requires i < |a| && (j < |b| ==> a[i].value <= b[j].value)
    ensures Appendable(acc, a[i])
    ensures UnionPrefix(AppendUnion(acc, a[i]), a, i + 1, b, j)
  {
    hide Denote;
    AppendUnionDenotes(acc, a[i]);
    assert a[..i + 1] == a[..i] + [a[i]];
    DenoteSnoc(a[..i], a[i]);
  }

  lemma UnionPrefixDone(acc: seq<Run>, a: seq<Run>, b: seq<Run>)
    requires UnionPrefix(acc, a, |a|, b, |b|)
    ensures Canonical(acc) && Denote(acc) == Denote(a) + Denote(b) && |acc| <= |a| + |b|
  {
    hide Denote;
    assert a[..|a|] == a && b[..|b|] == b;
  }

  // ---------- intersection ----------

  /** The common values settled by the first `i` runs of `a` or the first `j` runs of `b`. */
  ghost function AndSoFar(a: seq<Run>, i: nat, b: seq<Run>, j: nat): set<int>
    requires i <= |a| && j <= |b|
  {
    (Denote(a[..i]) * Denote(b)) + (Denote(a) * Denote(b[..j]))
  }

  /** The common values of two runs. */
  ghost function Meet(p: Run, q: Run): set<int> {
    Range(p.value, p.End()) * Range(q.value, q.End())
  }

  function LatestStart(p: Run, q: Run): int { if p.value > q.value then p.value else q.value }

  lemma MeetIsRange(p: Run, q: Run)
    requires p.End() <= q.End()
    ensures Meet(p, q) == Range(LatestStart(p, q), p.End())
  {
  }

  /** `acc` is the intersection as far as the first `i` runs of `a` or the first `j` runs of `b` go. */
  ghost predicate AndPrefix(acc: seq<Run>, a: seq<Run>, i: nat, b: seq<Run>, j: nat) {
    && i <= |a| && j <= |b| && |acc| <= i + j
    && Canonical(acc)
    && Denote(acc) == AndSoFar(a, i, b, j)
    && (acc != [] ==> acc[|acc| - 1].End() <= EndOf(a, i) || acc[|acc| - 1].End() <= EndOf(b, j))
  }

  lemma AndPrefixStart(a: seq<Run>, b: seq<Run>)
    ensures AndPrefix([], a, 0, b, 0)
  {
  }

  lemma AndPrefixSize(acc: seq<Run>, a: seq<Run>, i: nat, b: seq<Run>, j: nat)
    requires AndPrefix(acc, a, i, b, j) && Canonical(a) && Canonical(b)
    ensures |acc| <= i + j
    ensures forall k :: 0 <= k < |a| ==> a[k].End() <= 0x1_0000
    ensures forall k :: 0 <= k < |b| ==> b[k].End() <= 0x1_0000
  {
  }

  lemma AndPrefixSymmetric(acc: seq<Run>, a: seq<Run>, i: nat, b: seq<Run>, j: nat)
    requires AndPrefix(acc, a, i, b, j)
    ensures AndPrefix(acc, b, j, a, i)
  {
  }

  /** The next run of `a` ends before the next run of `b` starts. */
  lemma AndPrefixSkip(acc: seq<Run>, a: seq<Run>, i: nat, b: seq<Run>, j: nat)
    requires Canonical(a) && Canonical(b) && AndPrefix(acc, a, i, b, j)
    requires i < |a| && j < |b| && a[i].End() <= b[j].value
    ensures AndPrefix(acc, a, i + 1, b, j)
  {
    hide Denote;
    AndGrow(a, i, b, j);
    assert Meet(a[i], b[j]) == {};
    assert i > 0 ==> EndOf(a, i) < EndOf(a, i + 1);
  }

  /** What the next run of `a` adds when it ends no later than the next run of `b`. */
  lemma AndGrow(a: seq<Run>, i: nat, b: seq<Run>, j: nat)
    requires Canonical(a) && Canonical(b) && i < |a| && j < |b| && a[i].End() <= b[j].End()
    ensures AndSoFar(a, i + 1, b, j) == AndSoFar(a, i, b, j) + Meet(a[i], b[j])
  {
    hide Denote;
    forall x ensures x in AndSoFar(a, i + 1, b, j) <==> x in AndSoFar(a, i, b, j) + Meet(a[i], b[j]) {
      PrefixGrow(a, i, x);
      if a[i].Contains(x) {
        DenoteMember(a, i, x);
        if x in Denote(b) { UpToRun(b, j, x); }
        if b[j].Contains(x) { DenoteMember(b, j, x); }
      }
    }
  }

  /** Nothing more is settled by run `j` of `b` when it ends with run `i` of `a`. */
  lemma AndGrowBoth(a: seq<Run>, i: nat, b: seq<Run>, j: nat)
    requires Canonical(a) && Canonical(b) && i < |a| && j < |b| && a[i].End() == b[j].End()
    ensures AndSoFar(a, i + 1, b, j + 1) == AndSoFar(a, i + 1, b, j)
  {
    hide Denote;
    var p, q := AndSoFar(a, i + 1, b, j + 1), AndSoFar(a, i + 1, b, j);
    forall x ensures x in p <==> x in q {
      PrefixGrow(b, j, x);
      PrefixGrow(a, i, x);
      if b[j].Contains(x) {
        DenoteMember(b, j, x);
        if x in Denote(a) { UpToRun(a, i, x); }
      }
    }
  }

  lemma AndAppend(acc: seq<Run>, a: seq<Run>, i: nat, b: seq<Run>, j: nat, r: Run)
    requires Canonical(a) && Canonical(b) && AndPrefix(acc, a, i, b, j)
    requires i < |a| && j < |b| && a[i].value <= r.value && b[j].value <= r.value && r.End() <= 0x1_0000
    ensures Canonical(acc + [r])
    ensures Denote(acc + [r]) == Denote(acc) + Range(r.value, r.End())
  {
    hide Denote;
    assert i > 0 ==> EndOf(a, i) < a[i].value;
    assert j > 0 ==> EndOf(b, j) < b[j].value;
    CanonicalSnoc(acc, r);
    DenoteSnoc(acc, r);
  }

  /** The two next runs overlap and the run of `a` ends first. */
  lemma AndPrefixOverlap(acc: seq<Run>, a: seq<Run>, i: nat, b: seq<Run>, j: nat)
    requires Canonical(a) && Canonical(b) && AndPrefix(acc, a, i, b, j)
    requires i < |a| && j < |b| && a[i].End() < b[j].End() && b[j].value < a[i].End()
    ensures AndPrefix(acc + [Interval(LatestStart(a[i], b[j]), a[i].End())], a, i + 1, b, j)
  {
    hide Denote;
    AndGrow(a, i, b, j);
    AndAppend(acc, a, i, b, j, Interval(LatestStart(a[i], b[j]), a[i].End()));
    MeetIsRange(a[i], b[j]);
  }

  /** The two next runs overlap and end together. */
  lemma AndPrefixBoth(acc: seq<Run>, a: seq<Run>, i: nat, b: seq<Run>, j: nat)
    requires Canonical(a) && Canonical(b) && AndPrefix(acc, a, i, b, j)
    requires i < |a| && j < |b| && a[i].End() == b[j].End()
    ensures AndPrefix(acc + [Interval(LatestStart(a[i], b[j]), a[i].End())], a, i + 1, b, j + 1)
  {
    hide Denote;
    AndGrow(a, i, b, j);
    AndGrowBoth(a, i, b, j);
    AndAppend(acc, a, i, b, j, Interval(LatestStart(a[i], b[j]), a[i].End()));
    MeetIsRange(a[i], b[j]);
  }

  /** The two next runs overlap and the run of `b` ends first. */
  lemma AndPrefixOverlapOther(acc: seq<Run>, a: seq<Run>, i: nat, b: seq<Run>, j: nat)
    requires Canonical(a) && Canonical(b) && AndPrefix(acc, a, i, b, j)
    requires i < |a| && j < |b| && b[j].End() < a[i].End() && a[i].value < b[j].End()
    ensures AndPrefix(acc + [Interval(LatestStart(a[i], b[j]), b[j].End())], a, i, b, j + 1)
  {
    hide AndPrefix;
    AndPrefixSymmetric(acc, a, i, b, j);
    AndPrefixOverlap(acc, b, j, a, i);
    AndPrefixSymmetric(acc + [Interval(LatestStart(b[j], a[i]), b[j].End())], b, j + 1, a, i);
  }

  lemma AndPrefixDone(acc: seq<Run>, a: seq<Run>, i: nat, b: seq<Run>, j: nat)
    requires AndPrefix(acc, a, i, b, j) && (i == |a| || j == |b|)
    ensures Canonical(acc) && Denote(acc) == Denote(a) * Denote(b) && |acc| <= |a| + |b|
  {
    hide Denote;
    assert a[..|a|] == a && b[..|b|] == b;
    PrefixSubset(a, i);
    PrefixSubset(b, j);
  }

  // ---------- difference ----------

  /** Where the scan of `a` stands: the next run of `a` is already consumed up to `start`. */
  ghost predicate AndNotPrefix(acc: seq<Run>, a: seq<Run>, i: nat, start: int, b: seq<Run>, j: nat) {
    && i < |a| && j <= |b|
    && a[i].value <= start < a[i].End()
    && Canonical(acc)
    && Denote(acc) == Below(Denote(a) - Denote(b), start)
    && EndOf(b, j) <= start
    && (acc != [] ==> acc[|acc| - 1].End() < start)
    && |acc| <= i + j + (if j < |b| && b[j].End() <= start then 1 else 0)
  }

  /** The scan consumed every run of `a`. */
  ghost predicate AndNotDone(acc: seq<Run>, a: seq<Run>, b: seq<Run>, n: int) {
    Canonical(acc) && Denote(acc) == Denote(a) - Denote(b) && |acc| <= n
  }

  lemma AndNotFacts(acc: seq<Run>, a: seq<Run>, i: nat, start: int, b: seq<Run>, j: nat)
    requires Canonical(a) && Loose(b) && j < |b| && AndNotPrefix(acc, a, i, start, b, j)
    ensures a[i].value <= start < a[i].End() <= 0x1_0000 && b[j].End() <= 0x1_0000
  {
  }

  lemma AndNotStart(a: seq<Run>, b: seq<Run>)
    requires Canonical(a) && Loose(b) && a != []
    ensures AndNotPrefix([], a, 0, a[0].value, b, 0)
  {
    forall x | x in Denote(a) ensures a[0].value <= x { DenoteBelow(a, x); }
  }

  /** Nothing of `b` meets the interval `[start, stop)` of the next run of `a`. */
  lemma AndNotClear(a: seq<Run>, i: nat, start: int, stop: int, b: seq<Run>, j: nat)
    requires Canonical(a) && Loose(b) && i < |a| && j <= |b|
    requires a[i].value <= start <= stop <= a[i].End() && EndOf(b, j) <= start
    requires j < |b| ==> stop <= b[j].value
    ensures Below(Denote(a) - Denote(b), stop) == Below(Denote(a) - Denote(b), start) + Range(start, stop)
  {
    hide Denote;
    forall x | start <= x < stop ensures x in Denote(a) && x !in Denote(b) {
      DenoteMember(a, i, x);
      BetweenRuns(b, j, x);
    }
  }

  /** No run of `b` holds a value between the end of one run and the start of the next. */
  lemma BetweenRuns(b: seq<Run>, j: nat, x: int)
    requires Loose(b) && j <= |b| && EndOf(b, j) <= x && (j < |b| ==> x < b[j].value)
    ensures x !in Denote(b)
  {
    hide Denote;
    DenoteHas(b, x);
  }

  /** The values from `stop` on to the next run of `a` are in `b` or not in `a`. */
  lemma AndNotGap(a: seq<Run>, i: nat, stop: int, b: seq<Run>, j: nat, next: int)
    requires Canonical(a) && Loose(b) && i < |a|
    requires a[i].value <= stop <= next
    requires next <= a[i].End() || i + 1 == |a| || next <= a[i + 1].value
    requires stop < next && stop < a[i].End() ==>
      j < |b| && b[j].value <= stop && (next <= b[j].End() || a[i].End() <= b[j].End())
    ensures Below(Denote(a) - Denote(b), next) == Below(Denote(a) - Denote(b), stop)
  {
    hide Denote;
    forall x | stop <= x < next && x in Denote(a) ensures x in Denote(b) {
      var k := DenoteWitness(a, x);
      DenoteMember(b, j, x);
    }
  }

  /** Ends of lists: everything of `a` lies below `0x1_0000`. */
  lemma BelowAll(a: seq<Run>, s: set<int>)
    requires Canonical(a) && s <= Denote(a)
    ensures Below(s, 0x1_0000) == s
  {
    hide Denote;
    DenoteBounds(a);
  }

  /** The part of the next run of `a` before the next run of `b`, or before its own end, is output. */
  lemma AndNotOutput(acc: seq<Run>, a: seq<Run>, i: nat, start: int, b: seq<Run>, j: nat, stop: int)
    requires Canonical(a) && Loose(b) && AndNotPrefix(acc, a, i, start, b, j)
    requires start < stop <= a[i].End() && (j < |b| ==> stop <= b[j].value)
    ensures Canonical(acc + [Interval(start, stop)])
    ensures Denote(acc + [Interval(start, stop)]) == Below(Denote(a) - Denote(b), stop)
    ensures |acc| <= i + j
  {
    hide Denote;
    CanonicalSnoc(acc, Interval(start, stop));
    DenoteSnoc(acc, Interval(start, stop));
    AndNotClear(a, i, start, stop, b, j);
  }

  /** Advancing past run `i` of `a` once everything up to `stop` is settled. */
  lemma AndNotNext(acc: seq<Run>, a: seq<Run>, i: nat, stop: int, b: seq<Run>, j: nat)
    requires Canonical(a) && Loose(b) && Canonical(acc) && i < |a| && j <= |b|
    requires a[i].value <= stop <= a[i].End() && EndOf(b, j) <= a[i].End()
    requires stop < a[i].End() ==> j < |b| && b[j].value <= stop && a[i].End() <= b[j].End()
    requires Denote(acc) == Below(Denote(a) - Denote(b), stop) && |acc| <= i + j + 1
    requires acc != [] ==> acc[|acc| - 1].End() <= a[i].End()
    ensures i + 1 < |a| ==> AndNotPrefix(acc, a, i + 1, a[i + 1].value, b, j)
    ensures i + 1 == |a| ==> AndNotDone(acc, a, b, i + 1 + j)
  {
    hide Denote;
    if i + 1 < |a| {
      AndNotGap(a, i, stop, b, j, a[i + 1].value);
    } else {
      AndNotGap(a, i, stop, b, j, 0x1_0000);
      BelowAll(a, Denote(a) - Denote(b));
    }
  }

  /** A step that outputs the rest of the next run of `a`. */
  lemma AndNotWhole(acc: seq<Run>, a: seq<Run>, i: nat, start: int, b: seq<Run>, j: nat)
    requires Canonical(a) && Loose(b) && AndNotPrefix(acc, a, i, start, b, j)
    requires j < |b| && a[i].End() <= b[j].value
    ensures var t := acc + [Interval(start, a[i].End())];
      && |t| <= |a| + |b|
      && (i + 1 < |a| ==> AndNotPrefix(t, a, i + 1, a[i + 1].value, b, j))
      && (i + 1 == |a| ==> AndNotDone(t, a, b, |a| + |b|))
  {
    AndNotOutput(acc, a, i, start, b, j, a[i].End());
    AndNotNext(acc + [Interval(start, a[i].End())], a, i, a[i].End(), b, j);
  }

  /** A step that passes a run of `b` that ends before the rest of the next run of `a` starts. */
  lemma AndNotSkip(acc: seq<Run>, a: seq<Run>, i: nat, start: int, b: seq<Run>, j: nat)
    requires Loose(b) && AndNotPrefix(acc, a, i, start, b, j) && j < |b| && b[j].End() <= start
    ensures AndNotPrefix(acc, a, i, start, b, j + 1)
  {
  }

  /** A step on overlapping runs: what comes before the run of `b` is output, and the overlap is passed. */
  lemma AndNotOverlap(acc: seq<Run>, a: seq<Run>, i: nat, start: int, b: seq<Run>, j: nat)
    requires Canonical(a) && Loose(b) && AndNotPrefix(acc, a, i, start, b, j)
    requires j < |b| && b[j].value < a[i].End() && start < b[j].End()
    ensures var t := if start < b[j].value then acc + [Interval(start, b[j].value)] else acc;
      && |t| <= |a| + |b|
      && (b[j].End() < a[i].End() ==> AndNotPrefix(t, a, i, b[j].End(), b, j))
      && (a[i].End() <= b[j].End() && i + 1 < |a| ==> AndNotPrefix(t, a, i + 1, a[i + 1].value, b, j))
      && (a[i].End() <= b[j].End() && i + 1 == |a| ==> AndNotDone(t, a, b, |a| + |b|))
  {
    var t := if start < b[j].value then acc + [Interval(start, b[j].value)] else acc;
    var stop := if start < b[j].value then b[j].value else start;
    if start < b[j].value { AndNotOutput(acc, a, i, start, b, j, stop); }
    if b[j].End() < a[i].End() {
      AndNotGap(a, i, stop, b, j, b[j].End());
    } else {
      AndNotNext(t, a, i, stop, b, j);
    }
  }

  /** Once `b` is used up, the rest of `a` is copied. */
  lemma AndNotFinish(acc: seq<Run>, a: seq<Run>, i: nat, start: int, b: seq<Run>)
    requires Canonical(a) && Loose(b) && AndNotPrefix(acc, a, i, start, b, |b|)
    ensures AndNotDone(acc + [Interval(start, a[i].End())] + a[i + 1..], a, b, |a| + |b|)
  {
    hide Denote;
    var out, tail := acc + [Interval(start, a[i].End())], a[i + 1..];
    AndNotOutput(acc, a, i, start, b, |b|, a[i].End());
    CanonicalSlice(a, i + 1, |a|);
    CanonicalConcat(out, tail);
    DenoteConcat(out, tail);
    AndNotTail(a, i, b);
  }

  /** The runs after run `i` of `a` are the part of the difference from the end of run `i` on. */
  lemma AndNotTail(a: seq<Run>, i: nat, b: seq<Run>)
    requires Canonical(a) && Loose(b) && i < |a| && EndOf(b, |b|) <= a[i].End()
    ensures Below(Denote(a) - Denote(b), a[i].End()) + Denote(a[i + 1..]) == Denote(a) - Denote(b)
  {
    hide Denote;
    forall x ensures x in Denote(a[i + 1..]) <==> x in Denote(a) - Denote(b) && a[i].End() <= x {
      TailMember(a, i, x);
      if x in Denote(b) { var k := DenoteWitness(b, x); }
    }
  }

  lemma TailMember(a: seq<Run>, i: nat, x: int)
    requires Canonical(a) && i < |a|
    ensures x in Denote(a[i + 1..]) <==> x in Denote(a) && a[i].End() <= x
  {
    hide Denote;
    var tail := a[i + 1..];
    if x in Denote(tail) {
      var k := DenoteWitness(tail, x);
      DenoteMember(a, i + 1 + k, x);
    }
    if x in Denote(a) && a[i].End() <= x {
      var k := DenoteWitness(a, x);
      DenoteMember(tail, k - i - 1, x);
    }
  }
}
