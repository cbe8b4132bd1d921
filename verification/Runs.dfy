/**
 Run lists: what a list of runs denotes, when it is canonical, and the facts that the kernels of a
 run container rest on: canonical lists are determined by their sets, and the number of runs is half
 the number of boundaries of the set.
 */
module Runs {
  import opened IntSets

  /** `rle16_t`: the values `value .. value + length`, both ends included. */
  datatype Run = Run(value: u16, length: u16) {

    /** One past the last value. */
    function End(): int { value + length + 1 }

    predicate Contains(x: int) { value <= x < End() }
  }

  /** The run of the non-empty interval `[lo, hi)` of 16-bit values. */
  function Interval(lo: int, hi: int): (r: Run)
    requires 0 <= lo < hi <= 0x1_0000
    ensures r.value == lo && r.End() == hi
  {
    Run(lo, hi - lo - 1)
  }

  /** The set of values a run list stands for. */
  ghost function Denote(s: seq<Run>): set<int> {
    if s == [] then {} else Denote(s[..|s| - 1]) + Range(s[|s| - 1].value, s[|s| - 1].End())
  }

  /** Every run ends inside 16 bits, and at least one missing value separates neighbours. */
  ghost predicate Canonical(s: seq<Run>) {
    && (forall i :: 0 <= i < |s| ==> s[i].End() <= 0x1_0000)
    && (forall i, j :: 0 <= i < j < |s| ==> s[i].End() < s[j].value)
  }

  /** As `Canonical`, but neighbours may touch: the runs of length 0 of a sorted array are of this kind. */
  ghost predicate Loose(s: seq<Run>) {
    && (forall i :: 0 <= i < |s| ==> s[i].End() <= 0x1_0000)
    && (forall i, j :: 0 <= i < j < |s| ==> s[i].End() <= s[j].value)
  }

  lemma CanonicalIsLoose(s: seq<Run>)
    requires Canonical(s)
    ensures Loose(s)
  {
  }

  ghost predicate Has(s: seq<Run>, x: int) {
    exists i :: 0 <= i < |s| && s[i].Contains(x)
  }

  lemma DenoteSnoc(s: seq<Run>, r: Run)
    ensures Denote(s + [r]) == Denote(s) + Range(r.value, r.End())
  {
    assert (s + [r])[..|s|] == s;
  }

  lemma DenoteSingle(r: Run)
    ensures Denote([r]) == Range(r.value, r.End())
  {
    DenoteSnoc([], r);
    assert [] + [r] == [r];
  }

  /** The values of a list are those of its runs. */
  lemma {:induction false} DenoteHas(s: seq<Run>, x: int)
    ensures x in Denote(s) <==> Has(s, x)
  {
    if s != [] {
      var n := |s| - 1;
      var s' := s[..n];
      DenoteHas(s', x);
      if Has(s', x) {
        var i :| 0 <= i < n && s'[i].Contains(x);
        assert s[i].Contains(x);
      }
      if Has(s, x) {
        var i :| 0 <= i < |s| && s[i].Contains(x);
        assert i == n || s'[i].Contains(x);
      }
    }
  }

  lemma DenoteMember(s: seq<Run>, i: int, x: int)
    requires 0 <= i < |s| && s[i].Contains(x)
    ensures x in Denote(s)
  {
    DenoteHas(s, x);
  }

  lemma DenoteWitness(s: seq<Run>, x: int) returns (i: int)
    requires x in Denote(s)
    ensures 0 <= i < |s| && s[i].Contains(x)
  {
    DenoteHas(s, x);
    i :| 0 <= i < |s| && s[i].Contains(x);
  }

  lemma {:induction false} DenoteConcat(s: seq<Run>, t: seq<Run>)
    ensures Denote(s + t) == Denote(s) + Denote(t)
  {
    if t == [] {
      assert s + t == s;
    } else {
      var t' := t[..|t| - 1];
      assert (s + t)[..|s + t| - 1] == s + t';
      DenoteConcat(s, t');
    }
  }

  /** The values of a canonical list lie between its first value and its last end. */
  lemma DenoteBelow(s: seq<Run>, x: int)
    requires Canonical(s) && x in Denote(s)
    ensures |s| > 0 && s[0].value <= x < s[|s| - 1].End()
  {
    var i := DenoteWitness(s, x);
  }

  lemma DenoteBounds(s: seq<Run>)
    requires Canonical(s)
    ensures Denote(s) <= Range(0, 0x1_0000)
  {
    forall x | x in Denote(s) ensures x in Range(0, 0x1_0000) { DenoteBelow(s, x); }
  }

  lemma CanonicalSlice(s: seq<Run>, i: nat, j: nat)
    requires Canonical(s) && i <= j <= |s|
    ensures Canonical(s[i..j])
  {
  }

  lemma CanonicalConcat(s: seq<Run>, t: seq<Run>)
    requires Canonical(s) && Canonical(t)
    requires |s| > 0 && |t| > 0 ==> s[|s| - 1].End() < t[0].value
    ensures Canonical(s + t)
  {
    var u := s + t;
    forall i, j | 0 <= i < j < |u|
      ensures u[i].End() < u[j].value
    {
      if i < |s| <= j {
        assert s[i].End() <= s[|s| - 1].End();
        assert t[0].value <= t[j - |s|].value;
      }
    }
  }

  lemma CanonicalSnoc(s: seq<Run>, r: Run)
    requires Canonical(s) && r.End() <= 0x1_0000
    requires |s| > 0 ==> s[|s| - 1].End() < r.value
    ensures Canonical(s + [r])
  {
    CanonicalConcat(s, [r]);
  }

  /** Splits off the last run: its values and those before it are disjoint, with a gap between. */
  lemma SplitLast(s: seq<Run>, x: int)
    requires Canonical(s) && s != []
    ensures var r := s[|s| - 1];
      && Canonical(s[..|s| - 1])
      && (x in Denote(s) <==> x in Denote(s[..|s| - 1]) || r.Contains(x))
      && (x in Denote(s[..|s| - 1]) ==> x + 1 < r.value)
  {
    var s', r := s[..|s| - 1], s[|s| - 1];
    CanonicalSlice(s, 0, |s| - 1);
    if x in Denote(s') { DenoteBelow(s', x); }
  }

  // ---------- canonical lists are determined by their sets ----------

  /** Two canonical lists with the same values are the same list. */
  lemma {:induction false} CanonicalUnique(s: seq<Run>, t: seq<Run>)
    requires Canonical(s) && Canonical(t)
    requires Denote(s) == Denote(t)
    ensures s == t
    decreases |s|
  {
    if s == [] || t == [] {
      if s != [] { DenoteMember(s, 0, s[0].value); }
      if t != [] { DenoteMember(t, 0, t[0].value); }
    } else {
      LastRun(s, t);
      LastRun(t, s);
      var s', t' := s[..|s| - 1], t[..|t| - 1];
      forall x ensures x in Denote(s') <==> x in Denote(t') {
        SplitLast(s, x);
        SplitLast(t, x);
      }
      SplitLast(s, 0);
      SplitLast(t, 0);
      CanonicalUnique(s', t');
      assert s == s' + [s[|s| - 1]] && t == t' + [t[|t| - 1]];
    }
  }

  lemma LastRun(s: seq<Run>, t: seq<Run>)
    requires Canonical(s) && Canonical(t) && s != [] && t != []
    requires Denote(s) == Denote(t)
    ensures s[|s| - 1].End() <= t[|t| - 1].End()
    ensures s[|s| - 1].End() == t[|t| - 1].End() ==> t[|t| - 1].value <= s[|s| - 1].value
  {
    var a, b := s[|s| - 1], t[|t| - 1];
    DenoteMember(s, |s| - 1, a.End() - 1);
    DenoteBelow(t, a.End() - 1);
    if a.value < b.value <= a.End() {
      DenoteMember(s, |s| - 1, b.value - 1);
      SplitLast(t, b.value - 1);
    }
  }

  // ---------- boundaries ----------

  ghost predicate Edge(s: set<int>, x: int) {
    (x in s) != (x - 1 in s)
  }

  /** The places where membership of `s` changes. */
  ghost function Boundaries(s: set<int>): set<int> {
    set x: int | 0 <= x < 0x2_0000 && Edge(s, x)
  }

  /** A canonical list of `n` runs has exactly `2n` boundaries. */
  lemma {:induction false} BoundaryCount(s: seq<Run>)
    requires Canonical(s)
    ensures |Boundaries(Denote(s))| == 2 * |s|
  {
    if s == [] {
      assert Boundaries(Denote(s)) == {};
    } else {
      hide Denote;
      var s', r := s[..|s| - 1], s[|s| - 1];
      SplitLast(s, 0);
      BoundaryCount(s');
      forall x ensures Edge(Denote(s), x) <==> Edge(Denote(s'), x) || x == r.value || x == r.End() {
        SplitLast(s, x);
        SplitLast(s, x - 1);
      }
      forall x | Edge(Denote(s'), x) ensures x < r.value {
        SplitLast(s, x);
        SplitLast(s, x - 1);
      }
      var b := Boundaries(Denote(s'));
      assert r.value !in b && r.End() !in b;
      assert Boundaries(Denote(s)) == b + {r.value, r.End()};
    }
  }

  /** Xor with an interval toggles exactly the two boundaries of the interval. */
  lemma BoundariesXor(s: set<int>, lo: int, hi: int)
    requires 0 <= lo < hi <= 0x1_0000
    ensures Boundaries(Xor(s, Range(lo, hi))) == Xor(Boundaries(s), {lo, hi})
  {
    var t := Xor(s, Range(lo, hi));
    forall x ensures Edge(t, x) <==> (Edge(s, x) != (x == lo || x == hi)) {
    }
  }

  function Toggle(b: set<int>, x: int): (r: set<int>)
    ensures |r| == |b| + (if x in b then -1 else 1)
  {
    if x in b then b - {x} else b + {x}
  }

  lemma XorPairSize(b: set<int>, lo: int, hi: int)
    requires lo != hi
    ensures |Xor(b, {lo, hi})| == |b| + (if lo in b then -1 else 1) + (if hi in b then -1 else 1)
  {
    var c := Toggle(Toggle(b, lo), hi);
    forall x ensures x in Xor(b, {lo, hi}) <==> x in c {}
    assert Xor(b, {lo, hi}) == c;
  }

  /**
   Negating `[lo, hi)` adds a run exactly when neither end of the interval is a boundary already:
   the two tests that decide whether an in-place negation fits in a full buffer.
   */
  lemma XorRunCount(s: seq<Run>, t: seq<Run>, lo: int, hi: int)
    requires Canonical(s) && Canonical(t) && 0 <= lo < hi <= 0x1_0000
    requires Denote(t) == Xor(Denote(s), Range(lo, hi))
    ensures |s| - 1 <= |t| <= |s| + 1
    ensures |t| <= |s| <==> Edge(Denote(s), lo) || Edge(Denote(s), hi)
  {
    BoundaryCount(s);
    BoundaryCount(t);
    BoundariesXor(Denote(s), lo, hi);
    XorPairSize(Boundaries(Denote(s)), lo, hi);
  }

  // ---------- last values ----------

  /** The members of `s` whose successor is not a member. */
  ghost function Ends(s: set<int>): set<int> {
    set x | x in s && IsEnd(s, x)
  }

  ghost predicate IsEnd(s: set<int>, x: int) {
    x in s && x + 1 !in s
  }

  /** A canonical list has one run for every last value. */
  lemma {:induction false} EndCount(s: seq<Run>)
    requires Canonical(s)
    ensures |Ends(Denote(s))| == |s|
  {
    if s == [] {
      assert Ends(Denote(s)) == {};
    } else {
      hide Denote;
      var s', r := s[..|s| - 1], s[|s| - 1];
      SplitLast(s, 0);
      EndCount(s');
      forall x ensures x in Ends(Denote(s)) <==> x in Ends(Denote(s')) || x == r.End() - 1 {
        SplitLast(s, x);
        SplitLast(s, x + 1);
      }
      SplitLast(s, r.End() - 1);
      assert r.End() - 1 !in Ends(Denote(s'));
      assert Ends(Denote(s)) == Ends(Denote(s')) + {r.End() - 1};
    }
  }
}
