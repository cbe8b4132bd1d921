/** Cardinality, rank, select and bounds of a run container. */
module RunQueries {
  import opened IntSets
  import opened Ranks
  import opened Runs
  import opened RunContainers

  /** The values below a point inside run `i` are those of the runs before it and the start of run `i`. */
  lemma BelowInRun(s: seq<Run>, i: nat, y: int)
    requires Canonical(s) && i < |s| && s[i].value <= y <= s[i].End()
    ensures Below(Denote(s), y) == Denote(s[..i]) + Range(s[i].value, y)
    ensures |Below(Denote(s), y)| == |Denote(s[..i])| + y - s[i].value
  {
    hide Denote;
    var p, q, r := Denote(s[..i]), Range(s[i].value, y), Below(Denote(s), y);
    forall x ensures x in r <==> x in p || x in q { BelowInRunMember(s, i, y, x); }
    forall x | x in p ensures x !in q { BelowInRunMember(s, i, y, x); }
    assert r == p + q;
    DisjointUnionSize(p, q);
    RangeSize(s[i].value, y);
  }

  lemma BelowInRunMember(s: seq<Run>, i: nat, y: int, x: int)
    requires Canonical(s) && i < |s| && s[i].value <= y <= s[i].End()
    ensures x in Denote(s) && x < y <==> x in Denote(s[..i]) || s[i].value <= x < y
    ensures x in Denote(s[..i]) ==> x < s[i].value
  {
    hide Denote;
    if x in Denote(s) && x < y {
      var k := DenoteWitness(s, x);
      if k < i { DenoteMember(s[..i], k, x); }
    }
    if x in Denote(s[..i]) {
      var k := DenoteWitness(s[..i], x);
      DenoteMember(s, k, x);
    }
    if s[i].value <= x < y { DenoteMember(s, i, x); }
  }

  /** One more run adds its length plus one. */
  lemma PrefixSize(s: seq<Run>, i: nat)
    requires Canonical(s) && i < |s|
    ensures |Denote(s[..i + 1])| == |Denote(s[..i])| + s[i].length + 1
  {
    hide Denote;
    var t := s[..i + 1];
    CanonicalSlice(s, 0, i + 1);
    assert t[..i] == s[..i] && t[i] == s[i];
    BelowInRun(t, i, t[i].End());
    assert Below(Denote(t), t[i].End()) == Denote(t) by {
      forall x | x in Denote(t) ensures x < t[i].End() { DenoteBelow(t, x); }
    }
  }

  lemma NoRuns()
    ensures Denote([]) == {}
  {
  }

  lemma AtLeastOneEach(s: seq<Run>, i: nat)
    requires Canonical(s) && i <= |s|
    ensures |Denote(s[..i])| <= |Denote(s)|
  {
    hide Denote;
    var p, q := Denote(s[..i]), Denote(s);
    forall x | x in p ensures x in q {
      var k := DenoteWitness(s[..i], x);
      DenoteMember(s, k, x);
    }
    SubsetSize(p, q);
  }

  /** `run_container_cardinality`: starting from the number of runs saves the `+ 1` of each. */
  method Cardinality(run: RunContainer) returns (sum: nat)
    requires run.Valid()
    ensures sum == |Denote(run.View())|
  {
    hide Denote, Canonical;
    ghost var s := run.View();
    NoRuns();
    assert s[..0] == [];
    sum := run.nRuns;
    var k := 0;
    while k < run.nRuns
      invariant k <= run.nRuns && sum == |Denote(s[..k])| + run.nRuns - k
    {
      PrefixSize(s, k);
      sum := sum + run.runs[k].length;
      k := k + 1;
    }
    assert s[..|s|] == s;
  }

  /** `run_container_rank` */
  method Rank(run: RunContainer, x: u16) returns (sum: nat)
    requires run.Valid()
    ensures sum == RankOf(Denote(run.View()), x)
  {
    hide Denote, Canonical;
    ghost var s := run.View();
    NoRuns();
    assert s[..0] == [];
    sum := 0;
    var i := 0;
    while i < run.nRuns
      invariant i <= run.nRuns && sum == |Denote(s[..i])|
      invariant i > 0 ==> s[i - 1].End() <= x
    {
      assert s[i] == run.runs[i];
      var startpoint: u32, length: u32 := run.runs[i].value, run.runs[i].length;
      var endpoint: u32 := length + startpoint;
      if x <= endpoint {
        if x < startpoint {
          BelowBeforeRun(s, i, x);
          return;
        }
        BelowInRun(s, i, x + 1);
        return sum + (x - startpoint) + 1;
      }
      PrefixSize(s, i);
      sum := sum + (length + 1);
      i := i + 1;
    }
    BelowPastEnd(s, x);
  }

  lemma BelowBeforeRun(s: seq<Run>, i: nat, x: int)
    requires Canonical(s) && i < |s| && x < s[i].value && (i > 0 ==> s[i - 1].End() <= x)
    ensures Below(Denote(s), x + 1) == Denote(s[..i])
  {
    hide Denote;
    var p, q := Below(Denote(s), x + 1), Denote(s[..i]);
    CanonicalSlice(s, 0, i);
    forall y ensures y in p <==> y in q {
      BelowInRunMember(s, i, s[i].value, y);
      if y in q { DenoteBelow(s[..i], y); }
    }
  }

  lemma BelowPastEnd(s: seq<Run>, x: int)
    requires Canonical(s) && (|s| > 0 ==> s[|s| - 1].End() <= x)
    ensures Below(Denote(s), x + 1) == Denote(s) && s[..|s|] == s
  {
  }

  /** `run_container_select`, which compares with the last value of a run and so never wraps around. */
  method Select(run: RunContainer, startRank: u32, rank: u32) returns (found: bool, startRank': u32, element: u32)
    requires run.Valid() && startRank <= rank && startRank + |Denote(run.View())| <= 0x1_0000_0000
    ensures Selected(Denote(run.View()), startRank, rank, found, startRank', element)
  {
    hide Denote, Canonical;
    ghost var s := run.View();
    NoRuns();
    assert s[..0] == [];
    startRank' := startRank;
    var i := 0;
    while i < run.nRuns
      invariant i <= run.nRuns && startRank' == startRank + |Denote(s[..i])| <= rank
    {
      assert s[i] == run.runs[i];
      var length: u32 := run.runs[i].length;
      PrefixSize(s, i);
      AtLeastOneEach(s, i + 1);
      if rank <= startRank' + length {
        var value: u32 := run.runs[i].value;
        SelectedInRun(s, i, value + rank - startRank');
        return true, startRank', value + rank - startRank';
      }
      startRank' := startRank' + (length + 1);
      i := i + 1;
    }
    assert s[..|s|] == s;
    return false, startRank', 0;
  }

  lemma SelectedInRun(s: seq<Run>, i: nat, x: int)
    requires Canonical(s) && i < |s| && s[i].Contains(x)
    ensures x < 0x1_0000 && Selects(Denote(s), |Denote(s[..i])| + x - s[i].value, x)
  {
    hide Denote;
    BelowInRun(s, i, x);
    DenoteMember(s, i, x);
  }

  /** `run_container_minimum` */
  method Minimum(run: RunContainer) returns (x: u16)
    requires run.Valid()
    ensures run.nRuns > 0 ==> Smallest(Denote(run.View()), x)
  {
    hide Denote;
    if run.nRuns == 0 {
      return 0;
    }
    ghost var s := run.View();
    DenoteMember(s, 0, s[0].value);
    forall y | y in Denote(s) ensures s[0].value <= y { DenoteBelow(s, y); }
    return run.runs[0].value;
  }

  /** `run_container_maximum` */
  method Maximum(run: RunContainer) returns (x: u16)
    requires run.Valid()
    ensures run.nRuns > 0 ==> Largest(Denote(run.View()), x)
  {
    hide Denote;
    if run.nRuns == 0 {
      return 0;
    }
    ghost var s := run.View();
    var last := run.runs[run.nRuns - 1];
    assert s[|s| - 1] == last;
    DenoteMember(s, |s| - 1, last.End() - 1);
    forall y | y in Denote(s) ensures y <= last.End() - 1 { DenoteBelow(s, y); }
    return last.value + last.length;
  }

  /** `run_container_index_equalorlarger`: the first run that ends at or after `x`, or -1. */
  method IndexEqualOrLarger(run: RunContainer, x: u16) returns (index: int)
    requires run.Valid()
    ensures -1 <= index < run.nRuns
    ensures index >= 0 ==> x < run.View()[index].End() && (index > 0 ==> run.View()[index - 1].End() <= x)
    ensures index == -1 && run.nRuns > 0 ==> run.View()[run.nRuns - 1].End() <= x
  {
    ghost var s := run.View();
    index := run.Search(x);
    if index >= 0 {
      return;
    }
    index := -index - 2;
    if index != -1 {
      assert s[index] == run.runs[index];
      var offset := x - run.runs[index].value;
      var le := run.runs[index].length;
      if offset <= le {
        return;
      }
    }
    index := index + 1;
    if index < run.nRuns {
      return;
    }
    return -1;
  }
}
