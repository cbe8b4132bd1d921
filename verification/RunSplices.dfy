/** Replacing a block of a canonical run list: the common shape of every edit of a run container. */
module RunSplices {
  import opened IntSets
  import opened Runs

  /** `s` with the runs `i .. j` replaced by `mid`. */
  function Splice(s: seq<Run>, i: nat, j: nat, mid: seq<Run>): seq<Run>
    requires i <= j <= |s|
  {
    s[..i] + mid + s[j..]
  }

  /** The new runs leave a gap to the runs that stay. */
  ghost predicate FitsBetween(s: seq<Run>, i: nat, j: nat, mid: seq<Run>)
    requires i <= j <= |s|
  {
    && Canonical(mid)
    && (mid != [] && i > 0 ==> s[i - 1].End() < mid[0].value)
    && (mid != [] && j < |s| ==> mid[|mid| - 1].End() < s[j].value)
  }

  lemma SpliceDenotes(s: seq<Run>, i: nat, j: nat, mid: seq<Run>)
    requires i <= j <= |s| && Canonical(s) && FitsBetween(s, i, j, mid)
    ensures Canonical(Splice(s, i, j, mid))
    ensures Denote(Splice(s, i, j, mid)) == (Denote(s) - Denote(s[i..j])) + Denote(mid)
  {
    hide Denote;
    SpliceCanonical(s, i, j, mid);
    DenoteConcat(s[..i], mid);
    DenoteConcat(s[..i] + mid, s[j..]);
    DenoteParts(s, i, j);
    Apart(s, i, j);
  }

  lemma DenoteParts(s: seq<Run>, i: nat, j: nat)
    requires i <= j <= |s|
    ensures Denote(s) == Denote(s[..i]) + Denote(s[i..j]) + Denote(s[j..])
  {
    hide Denote;
    DenoteConcat(s[..i], s[i..j]);
    DenoteConcat(s[..i] + s[i..j], s[j..]);
    assert s == s[..i] + s[i..j] + s[j..];
  }

  lemma SpliceCanonical(s: seq<Run>, i: nat, j: nat, mid: seq<Run>)
    requires i <= j <= |s| && Canonical(s) && FitsBetween(s, i, j, mid)
    ensures Canonical(Splice(s, i, j, mid))
  {
    hide Denote;
    CanonicalSlice(s, 0, i);
    CanonicalSlice(s, j, |s|);
    CanonicalConcat(s[..i], mid);
    CanonicalConcat(s[..i] + mid, s[j..]);
  }

  lemma Apart(s: seq<Run>, i: nat, j: nat)
    requires i <= j <= |s| && Canonical(s)
    ensures Denote(s[i..j]) !! Denote(s[..i])
    ensures Denote(s[i..j]) !! Denote(s[j..])
  {
    hide Denote;
    forall x | x in Denote(s[i..j]) ensures x !in Denote(s[..i]) && x !in Denote(s[j..]) {
      CanonicalSlice(s, 0, i);
      CanonicalSlice(s, i, j);
      CanonicalSlice(s, j, |s|);
      DenoteBelow(s[i..j], x);
      if x in Denote(s[..i]) { DenoteBelow(s[..i], x); }
      if x in Denote(s[j..]) { DenoteBelow(s[j..], x); }
    }
  }

  lemma DenoteOne(s: seq<Run>, i: nat)
    requires i < |s|
    ensures Denote(s[i..i + 1]) == Range(s[i].value, s[i].End())
  {
    hide Denote;
    assert s[i..i + 1] == [s[i]];
    DenoteSingle(s[i]);
  }

  lemma DenoteTwo(s: seq<Run>, i: nat)
    requires i + 1 < |s|
    ensures Denote(s[i..i + 2]) == Range(s[i].value, s[i].End()) + Range(s[i + 1].value, s[i + 1].End())
  {
    hide Denote;
    assert s[i..i + 2] == [s[i]] + [s[i + 1]];
    DenoteSingle(s[i]);
    DenoteSnoc([s[i]], s[i + 1]);
  }

  lemma DenoteNone(s: seq<Run>, i: nat)
    requires i <= |s|
    ensures Denote(s[i..i]) == {}
  {
  }

  // ---------- one value in, one value out ----------

  /** `p` is where a run starting at `x` would be inserted; no run starts at `x`. */
  ghost predicate InsertionPoint(s: seq<Run>, p: nat, x: int) {
    && p <= |s|
    && (forall i :: 0 <= i < p ==> s[i].value < x)
    && (forall i :: p <= i < |s| ==> x < s[i].value)
  }

  /** A value that starts no run lies in the list iff the run before its insertion point holds it. */
  lemma InsertionPointMember(s: seq<Run>, p: nat, x: int)
    requires Canonical(s) && InsertionPoint(s, p, x)
    ensures x in Denote(s) <==> p > 0 && s[p - 1].Contains(x)
  {
    hide Denote;
    DenoteHas(s, x);
    if p > 0 && s[p - 1].Contains(x) { DenoteMember(s, p - 1, x); }
  }

  /** The first run to replace when `x` is inserted at `p`: one earlier if that run ends just before `x`. */
  function FuseFrom(s: seq<Run>, p: nat, x: int): (i: nat)
    requires p <= |s|
    ensures i <= p
  {
    if p > 0 && s[p - 1].End() == x then p - 1 else p
  }

  /** One past the last run to replace: one later if the next run starts just after `x`. */
  function FuseTo(s: seq<Run>, p: nat, x: int): (j: nat)
    requires p <= |s|
    ensures p <= j <= |s|
  {
    if p < |s| && s[p].value == x + 1 then p + 1 else p
  }

  /** `x` together with the runs it touches. */
  function Fused(s: seq<Run>, p: nat, x: u16): (r: Run)
    requires p <= |s| && (p < |s| ==> s[p].End() <= 0x1_0000)
    requires p > 0 ==> s[p - 1].value < x
    ensures r.Contains(x)
  {
    Interval(if FuseFrom(s, p, x) < p then s[p - 1].value else x,
             if FuseTo(s, p, x) > p then s[p].End() else x + 1)
  }

  /** The list with the missing value `x`, fused with whatever it touches on either side. */
  function WithValue(s: seq<Run>, p: nat, x: u16): seq<Run>
    requires p <= |s| && (p < |s| ==> s[p].End() <= 0x1_0000)
    requires p > 0 ==> s[p - 1].value < x
  {
    Splice(s, FuseFrom(s, p, x), FuseTo(s, p, x), [Fused(s, p, x)])
  }

  lemma WithValueAdds(s: seq<Run>, p: nat, x: u16)
    requires Canonical(s) && InsertionPoint(s, p, x) && x !in Denote(s)
    ensures Canonical(WithValue(s, p, x))
    ensures Denote(WithValue(s, p, x)) == Denote(s) + {x}
  {
    hide Denote;
    InsertionPointMember(s, p, x);
    FusedFits(s, p, x);
    FusedDenotes(s, p, x);
    SpliceReplaces(s, FuseFrom(s, p, x), FuseTo(s, p, x), Fused(s, p, x), {x});
  }

  lemma FusedFits(s: seq<Run>, p: nat, x: u16)
    requires Canonical(s) && InsertionPoint(s, p, x) && (p > 0 ==> s[p - 1].End() <= x)
    ensures FitsBetween(s, FuseFrom(s, p, x), FuseTo(s, p, x), [Fused(s, p, x)])
  {
  }

  lemma FusedDenotes(s: seq<Run>, p: nat, x: u16)
    requires Canonical(s) && InsertionPoint(s, p, x) && (p > 0 ==> s[p - 1].End() <= x)
    ensures var r := Fused(s, p, x);
      Range(r.value, r.End()) == Denote(s[FuseFrom(s, p, x)..FuseTo(s, p, x)]) + {x}
  {
    hide Denote;
    var i, j := FuseFrom(s, p, x), FuseTo(s, p, x);
    if i < p < j {
      DenoteTwo(s, i);
      Glue(s[i].value, x, s[p].End());
    } else if i < p {
      DenoteOne(s, i);
      Glue(s[i].value, x, x + 1);
    } else if p < j {
      DenoteOne(s, p);
      Glue(x, x, s[p].End());
    } else {
      DenoteNone(s, p);
      Glue(x, x, x + 1);
    }
  }

  lemma Glue(lo: int, x: int, hi: int)
    requires lo <= x < hi
    ensures Range(lo, hi) == Range(lo, x) + {x} + Range(x + 1, hi)
  {
  }

  /** A block replaced by one run that holds the block and the values `extra`. */
  lemma SpliceReplaces(s: seq<Run>, i: nat, j: nat, r: Run, extra: set<int>)
    requires i <= j <= |s| && Canonical(s) && FitsBetween(s, i, j, [r])
    requires Range(r.value, r.End()) == Denote(s[i..j]) + extra
    ensures Canonical(Splice(s, i, j, [r]))
    ensures Denote(Splice(s, i, j, [r])) == Denote(s) + extra
  {
    hide Denote;
    SpliceDenotes(s, i, j, [r]);
    DenoteSingle(r);
    DenoteParts(s, i, j);
  }

  /** A block replaced by runs that hold the block without the values `gone`. */
  lemma SpliceShrinks(s: seq<Run>, i: nat, j: nat, mid: seq<Run>, gone: set<int>)
    requires i <= j <= |s| && Canonical(s) && FitsBetween(s, i, j, mid)
    requires Denote(mid) == Denote(s[i..j]) - gone
    requires gone * Denote(s) <= Denote(s[i..j])
    ensures Canonical(Splice(s, i, j, mid))
    ensures Denote(Splice(s, i, j, mid)) == Denote(s) - gone
  {
    hide Denote;
    SpliceDenotes(s, i, j, mid);
    DenoteParts(s, i, j);
  }

  lemma UpdateIsSplice(s: seq<Run>, i: nat, r: Run)
    requires i < |s|
    ensures s[i := r] == Splice(s, i, i + 1, [r])
  {
  }

  /** The run `r` without the values `lo .. hi`: nothing, what is left on one side, or two runs. */
  function Without(r: Run, lo: int, hi: int): seq<Run>
    requires r.End() <= 0x1_0000 && lo <= hi && lo < r.End() && r.value <= hi
  {
    (if r.value < lo then [Interval(r.value, lo)] else []) +
    (if hi + 1 < r.End() then [Interval(hi + 1, r.End())] else [])
  }

  lemma WithoutDenotes(r: Run, lo: int, hi: int)
    requires r.End() <= 0x1_0000 && lo <= hi && lo < r.End() && r.value <= hi
    ensures Canonical(Without(r, lo, hi))
    ensures Denote(Without(r, lo, hi)) == Range(r.value, r.End()) - Range(lo, hi + 1)
  {
    hide Denote;
    SidesDenote(r.value < lo, hi + 1 < r.End(), r.value, lo, hi + 1, r.End());
    assert Range(r.value, r.End()) - Range(lo, hi + 1) == Range(r.value, lo) + Range(hi + 1, r.End());
  }

  /** At most one interval on either side of a hole. */
  lemma SidesDenote(l: bool, r: bool, a: int, b: int, c: int, d: int)
    requires l <==> a < b
    requires r <==> c < d
    requires l ==> 0 <= a && b <= 0x1_0000
    requires r ==> 0 <= c && d <= 0x1_0000
    ensures Denote((if l then [Interval(a, b)] else []) + (if r then [Interval(c, d)] else []))
         == Range(a, b) + Range(c, d)
  {
    var left := if l then [Interval(a, b)] else [];
    var right := if r then [Interval(c, d)] else [];
    DenoteConcat(left, right);
    if l { DenoteSingle(Interval(a, b)); }
    if r { DenoteSingle(Interval(c, d)); }
    assert Denote(left) == Range(a, b);
    assert Denote(right) == Range(c, d);
  }

  lemma WithoutRemoves(s: seq<Run>, k: nat, x: int)
    requires Canonical(s) && k < |s| && s[k].Contains(x)
    ensures Canonical(Splice(s, k, k + 1, Without(s[k], x, x)))
    ensures Denote(Splice(s, k, k + 1, Without(s[k], x, x))) == Denote(s) - {x}
  {
    hide Denote;
    WithoutDenotes(s[k], x, x);
    DenoteOne(s, k);
    assert {x} == Range(x, x + 1);
    SpliceShrinks(s, k, k + 1, Without(s[k], x, x), {x});
  }

  // ---------- a closed range in, a closed range out ----------

  /** The first `less` runs end too early to touch `lo`, and no other run does. */
  ghost predicate CountsLess(s: seq<Run>, less: int, lo: int) {
    && 0 <= less <= |s|
    && (forall i :: 0 <= i < less ==> s[i].End() < lo)
    && (forall i :: less <= i < |s| ==> lo <= s[i].End())
  }

  /** The last `greater` runs start too late to touch `hi`, and no other run does. */
  ghost predicate CountsGreater(s: seq<Run>, greater: int, hi: int) {
    && 0 <= greater <= |s|
    && (forall i :: 0 <= i < |s| - greater ==> s[i].value <= hi + 1)
    && (forall i :: |s| - greater <= i < |s| ==> hi + 1 < s[i].value)
  }

  /** `lo .. hi` together with the runs `i .. j` it touches. */
  function Covered(s: seq<Run>, i: nat, j: nat, lo: u16, hi: u16): Run
    requires i <= j <= |s| && lo <= hi
    requires forall k :: 0 <= k < |s| ==> s[k].End() <= 0x1_0000
  {
    if i == j then Interval(lo, hi + 1)
    else Interval(if s[i].value < lo then s[i].value else lo,
                  if s[j - 1].End() > hi + 1 then s[j - 1].End() else hi + 1)
  }

  lemma CoveredAdds(s: seq<Run>, less: nat, greater: nat, lo: u16, hi: u16)
    requires Canonical(s) && lo <= hi && less + greater <= |s|
    requires CountsLess(s[..|s| - greater], less, lo) && CountsGreater(s, greater, hi)
    ensures var t := Splice(s, less, |s| - greater, [Covered(s, less, |s| - greater, lo, hi)]);
      Canonical(t) && Denote(t) == Denote(s) + Range(lo, hi + 1)
  {
    hide Denote;
    var i, j := less, |s| - greater;
    var r := Covered(s, i, j, lo, hi);
    assert i > 0 ==> s[..j][i - 1].End() < lo;
    assert i < j ==> lo <= s[..j][i].End() && s[i].value < s[i].End();
    assert j > i ==> s[j - 1].value <= hi + 1;
    CoveredFits(s, i, j, lo, hi);
    CoveredDenotes(s, i, j, lo, hi);
    SpliceReplaces(s, i, j, r, Range(lo, hi + 1));
  }

  lemma CoveredFits(s: seq<Run>, i: nat, j: nat, lo: u16, hi: u16)
    requires Canonical(s) && lo <= hi && i <= j <= |s|
    requires i > 0 ==> s[i - 1].End() < lo
    requires j < |s| ==> hi + 1 < s[j].value
    ensures FitsBetween(s, i, j, [Covered(s, i, j, lo, hi)])
  {
  }

  lemma CoveredDenotes(s: seq<Run>, i: nat, j: nat, lo: u16, hi: u16)
    requires Canonical(s) && lo <= hi && i <= j <= |s|
    requires i < j ==> lo <= s[i].End() && s[j - 1].value <= hi + 1
    ensures var r := Covered(s, i, j, lo, hi);
      Range(r.value, r.End()) == Denote(s[i..j]) + Range(lo, hi + 1)
  {
    hide Denote;
    var r := Covered(s, i, j, lo, hi);
    CanonicalSlice(s, i, j);
    forall x ensures x in Range(r.value, r.End()) <==> x in Denote(s[i..j]) || x in Range(lo, hi + 1) {
      if x in Denote(s[i..j]) { DenoteBelow(s[i..j], x); }
      if r.value <= x < lo { DenoteMember(s[i..j], 0, x); }
      if hi < x < r.End() { DenoteMember(s[i..j], j - i - 1, x); }
    }
  }

  /** What is left of the runs `i .. j` when the values `lo .. hi` go. */
  function Remainder(s: seq<Run>, i: nat, j: nat, lo: u16, hi: u16): seq<Run>
    requires i <= j <= |s|
    requires forall k :: 0 <= k < |s| ==> s[k].End() <= 0x1_0000
  {
    (if i < j && s[i].value < lo then [Interval(s[i].value, lo)] else []) +
    (if i < j && hi + 1 < s[j - 1].End() then [Interval(hi + 1, s[j - 1].End())] else [])
  }

  /** The runs `i .. j` are exactly those that meet `lo .. hi`. */
  ghost predicate Meets(s: seq<Run>, i: nat, j: nat, lo: int, hi: int) {
    && i <= j <= |s|
    && (forall k :: 0 <= k < i ==> s[k].End() <= lo)
    && (forall k :: i <= k < |s| ==> lo < s[k].End())
    && (forall k :: 0 <= k < j ==> s[k].value <= hi)
    && (forall k :: j <= k < |s| ==> hi < s[k].value)
  }

  lemma RemainderRemoves(s: seq<Run>, i: nat, j: nat, lo: u16, hi: u16)
    requires Canonical(s) && lo <= hi && Meets(s, i, j, lo, hi)
    ensures var t := Splice(s, i, j, Remainder(s, i, j, lo, hi));
      Canonical(t) && Denote(t) == Denote(s) - Range(lo, hi + 1)
  {
    hide Denote;
    var gone := Range(lo, hi + 1);
    RemainderFits(s, i, j, lo, hi);
    RemainderDenotes(s, i, j, lo, hi);
    forall x | x in gone * Denote(s) ensures x in Denote(s[i..j]) {
      var k := DenoteWitness(s, x);
      assert i <= k < j;
      DenoteMember(s[i..j], k - i, x);
    }
    SpliceShrinks(s, i, j, Remainder(s, i, j, lo, hi), gone);
  }

  lemma RemainderFits(s: seq<Run>, i: nat, j: nat, lo: u16, hi: u16)
    requires Canonical(s) && lo <= hi && Meets(s, i, j, lo, hi)
    ensures FitsBetween(s, i, j, Remainder(s, i, j, lo, hi))
  {
    hide Denote;
    if i < j {
      assert s[i].value <= s[j - 1].value && s[i].End() <= s[j - 1].End();
      assert i > 0 ==> s[i - 1].End() < s[i].value;
      assert j < |s| ==> s[j - 1].End() < s[j].value;
    }
  }

  lemma RemainderDenotes(s: seq<Run>, i: nat, j: nat, lo: u16, hi: u16)
    requires Canonical(s) && lo <= hi && Meets(s, i, j, lo, hi)
    ensures Denote(Remainder(s, i, j, lo, hi)) == Denote(s[i..j]) - Range(lo, hi + 1)
  {
    hide Denote;
    var t, mid := s[i..j], Remainder(s, i, j, lo, hi);
    CanonicalSlice(s, i, j);
    RemainderSet(s, i, j, lo, hi);
    forall x ensures x in Denote(mid) <==> x in Denote(t) && !(lo <= x <= hi) {
      if x in Denote(t) {
        var k := DenoteWitness(t, x);
        assert k > 0 ==> t[0].End() < t[k].value;
        assert k < |t| - 1 ==> t[k].End() < t[|t| - 1].value;
      }
      if i < j && s[i].Contains(x) { DenoteMember(t, 0, x); }
      if i < j && s[j - 1].Contains(x) { DenoteMember(t, |t| - 1, x); }
    }
  }

  lemma RemainderSet(s: seq<Run>, i: nat, j: nat, lo: u16, hi: u16)
    requires i <= j <= |s|
    requires forall k :: 0 <= k < |s| ==> s[k].End() <= 0x1_0000
    ensures Denote(Remainder(s, i, j, lo, hi)) ==
      if i == j then {} else Range(s[i].value, lo) + Range(hi + 1, s[j - 1].End())
  {
    if i < j {
      SidesDenote(s[i].value < lo, hi + 1 < s[j - 1].End(), s[i].value, lo, hi + 1, s[j - 1].End());
    }
  }
}
