/** Scans of a run list against a sorted array: the array takes part as runs of length 0, which may touch. */
module MixedRuns {
  import opened IntSets
  import opened SortedArrays
  import opened Runs
  import opened RunXor
  import opened RunMerges
  import opened RunContainers
  import opened RunAlgebra
  import opened ArrayContainers
  import Memory

  ghost function Singles(vals: seq<u16>): (s: seq<Run>)
    ensures |s| == |vals| && forall i :: 0 <= i < |s| ==> s[i] == Run(vals[i], 0)
  {
    seq(|vals|, i requires 0 <= i < |vals| => Run(vals[i], 0))
  }

  lemma SinglesLoose(vals: seq<u16>)
    requires Sorted(vals)
    ensures Loose(Singles(vals))
  {
  }

  lemma {:induction false} SinglesDenote(vals: seq<u16>)
    ensures Denote(Singles(vals)) == Elements(vals)
  {
    if vals != [] {
      var n := |vals| - 1;
      SinglesDenote(vals[..n]);
      assert Singles(vals)[..n] == Singles(vals[..n]);
      assert vals == vals[..n] + [vals[n]];
      ElementsSnoc(vals[..n], vals[n]);
      var v: int := vals[n];
      assert Range(v, v + 1) == {v};
    }
  }

  /** The values of an array that a scan reads while it writes the buffer of `dst`. */
  ghost predicate HoldsVals(a: ArrayContainer, vals: seq<u16>, dst: RunContainer)
    reads a, a.vals, dst
  {
    && a.cardinality == |vals| <= a.vals.Length && a.View() == vals
    && a != dst as object && a.vals != dst as object && a != dst.runs as object && a.vals != dst.runs as object
  }

  // ---------- union ----------

  /** A step of the union scan that takes a value of the array. */
  method UnionTakeValue(dst: RunContainer, val: u16, previous: Run,
                        ghost a: seq<Run>, ghost i: nat, ghost b: seq<Run>, ghost j: nat) returns (last: Run)
    requires Loose(b) && j < |b| && b[j] == Run(val, 0) && (i < |a| ==> b[j].value <= a[i].value)
    requires dst.nRuns <= dst.runs.Length && UnionPrefix(dst.View(), a, i, b, j)
    requires dst.nRuns > 0 ==> previous == dst.runs[dst.nRuns - 1]
    requires i + j < dst.runs.Length
    modifies dst`nRuns, dst.runs
    ensures 0 < dst.nRuns <= dst.runs.Length && UnionPrefix(dst.View(), a, i, b, j + 1)
    ensures last == dst.runs[dst.nRuns - 1]
    ensures forall k :: i + j < k < dst.runs.Length ==> dst.runs[k] == old(dst.runs[k])
  {
    hide Loose, UnionPrefix, AppendUnion;
    ghost var acc := dst.View();
    UnionPrefixSymmetric(acc, a, i, b, j);
    UnionPrefixStep(acc, b, j, a, i);
    UnionPrefixSize(acc, a, i, b, j);
    last := dst.AppendValue(val, previous);
    UnionPrefixSymmetric(dst.View(), b, j + 1, a, i);
  }

  lemma UnionPrefixSize(acc: seq<Run>, a: seq<Run>, i: nat, b: seq<Run>, j: nat)
    requires UnionPrefix(acc, a, i, b, j)
    ensures i <= |a| && j <= |b| && |acc| <= i + j
  {
  }

  /** The merging loop of `array_run_container_union` and of its in-place form. */
  method MixedBoth(input: array<Run>, offset: nat, n: nat, src: ArrayContainer, dst: RunContainer,
                   ghost a: seq<Run>, ghost vals: seq<u16>)
    returns (rlepos: nat, arraypos: nat, previous: Run)
    requires Loose(a) && Sorted(vals) && |a| == n > 0 && |vals| > 0
    requires Reads(input, offset, a, dst, n + |vals|) && HoldsVals(src, vals, dst) && dst.nRuns == 0
    modifies dst`nRuns, dst.runs
    ensures rlepos <= n && arraypos <= |vals| && (rlepos == n || arraypos == |vals|)
    ensures Reads(input, offset, a, dst, n + |vals|) && HoldsVals(src, vals, dst)
    ensures 0 < dst.nRuns <= dst.runs.Length && UnionPrefix(dst.View(), a, rlepos, Singles(vals), arraypos)
    ensures previous == dst.runs[dst.nRuns - 1]
  {
    hide Loose, UnionPrefix;
    ghost var b := Singles(vals);
    SinglesLoose(vals);
    rlepos, arraypos, previous := 0, 0, Run(0, 0);
    UnionPrefixStart(a, b);
    while rlepos < n && arraypos < src.cardinality
      invariant rlepos <= n && arraypos <= |vals| && HoldsVals(src, vals, dst) &&
        Reads(input, offset, a, dst, n + |vals|)
      invariant dst.nRuns <= dst.runs.Length && UnionPrefix(dst.View(), a, rlepos, b, arraypos)
      invariant rlepos + arraypos > 0 ==> dst.nRuns > 0
      invariant dst.nRuns > 0 ==> previous == dst.runs[dst.nRuns - 1]
    {
      var next, val := input[offset + rlepos], src.vals[arraypos];
      assert next == input[offset..offset + |a|][rlepos] && val == src.View()[arraypos];
      if next.value <= val {
        previous := UnionTake(dst, next, previous, a, rlepos, b, arraypos);
        rlepos := rlepos + 1;
      } else {
        previous := UnionTakeValue(dst, val, previous, a, rlepos, b, arraypos);
        arraypos := arraypos + 1;
      }
    }
  }

  /** The loop over the values left of the array. */
  method MixedRest(src: ArrayContainer, start: nat, dst: RunContainer, last: Run,
                   ghost a: seq<Run>, ghost vals: seq<u16>)
    requires Sorted(vals) && start <= |vals| && |a| + |vals| <= dst.runs.Length && HoldsVals(src, vals, dst)
    requires 0 < dst.nRuns <= dst.runs.Length && UnionPrefix(dst.View(), a, |a|, Singles(vals), start)
    requires last == dst.runs[dst.nRuns - 1]
    modifies dst`nRuns, dst.runs
    ensures 0 < dst.nRuns <= dst.runs.Length && UnionPrefix(dst.View(), a, |a|, Singles(vals), |vals|)
  {
    hide Loose, UnionPrefix;
    ghost var b := Singles(vals);
    SinglesLoose(vals);
    var pos, previous := start, last;
    while pos < src.cardinality
      invariant pos <= |vals| && HoldsVals(src, vals, dst)
      invariant 0 < dst.nRuns <= dst.runs.Length && UnionPrefix(dst.View(), a, |a|, b, pos)
      invariant previous == dst.runs[dst.nRuns - 1]
    {
      assert src.vals[pos] == src.View()[pos];
      previous := UnionTakeValue(dst, src.vals[pos], previous, a, |a|, b, pos);
      pos := pos + 1;
    }
  }

  method MixedScan(input: array<Run>, offset: nat, n: nat, src: ArrayContainer, dst: RunContainer,
                   ghost a: seq<Run>, ghost vals: seq<u16>)
    requires Canonical(a) && Sorted(vals) && |a| == n > 0 && |vals| > 0
    requires Reads(input, offset, a, dst, n + |vals|) && HoldsVals(src, vals, dst) && dst.nRuns == 0
    modifies dst`nRuns, dst.runs
    ensures dst.Valid() && Denote(dst.View()) == Denote(a) + Elements(vals)
  {
    hide Canonical, Loose, UnionPrefix, Denote, Elements;
    ghost var b := Singles(vals);
    CanonicalIsLoose(a);
    var rlepos, arraypos, previous := MixedBoth(input, offset, n, src, dst, a, vals);
    if arraypos < src.cardinality {
      MixedRest(src, arraypos, dst, previous, a, vals);
    } else {
      UnionRestFirst(input, offset, rlepos, n, dst, previous, a, b);
    }
    UnionPrefixDone(dst.View(), a, b);
    SinglesDenote(vals);
  }

  /** `array_run_container_union` */
  method ArrayRunUnion(src1: ArrayContainer, src2: RunContainer, dst: RunContainer)
    requires src1.Valid() && src2.Valid() && src1.cardinality > 0 && src2.nRuns > 0
    requires dst.nRuns == 0 && dst != src2 && dst.runs != src2.runs
    requires HoldsVals(src1, src1.View(), dst)
    modifies dst, dst.runs
    ensures dst.Valid() && Denote(dst.View()) == Denote(src2.View()) + Elements(src1.View())
  {
    hide Canonical, Denote, Elements;
    ghost var a, vals := src2.View(), src1.View();
    var full := src2.IsFull();
    if full {
      dst.CopyFrom(src2);
      FullAbsorbs(vals);
      return;
    }
    dst.Grow(2 * (src1.cardinality + src2.nRuns), false);
    MixedScan(src2.runs, 0, src2.nRuns, src1, dst, a, vals);
  }

  lemma FullAbsorbs(vals: seq<u16>)
    ensures Range(0, 0x1_0000) + Elements(vals) == Range(0, 0x1_0000)
    ensures Elements(vals) * Range(0, 0x1_0000) == Elements(vals)
  {
  }

  /** `array_run_container_inplace_union` */
  method ArrayRunInplaceUnion(src1: ArrayContainer, src2: RunContainer)
    requires src1.Valid() && src2.Valid() && src1.cardinality > 0 && src2.nRuns > 0
    requires HoldsVals(src1, src1.View(), src2)
    modifies src2, src2.runs
    ensures src2.Valid() && Denote(src2.View()) == old(Denote(src2.View())) + Elements(src1.View())
  {
    hide Canonical, Denote, Elements;
    ghost var a, vals := src2.View(), src1.View();
    var full := src2.IsFull();
    if full {
      FullAbsorbs(vals);
      return;
    }
    var maxOutput := src1.cardinality + src2.nRuns;
    var neededCapacity := maxOutput + src2.nRuns;
    if src2.runs.Length < neededCapacity {
      src2.Grow(neededCapacity, true);
    }
    assert src2.View() == a;
    Memory.Move(src2.runs, maxOutput, 0, src2.nRuns);
    var src2nRuns := src2.nRuns;
    src2.nRuns := 0;
    MixedScan(src2.runs, maxOutput, src2nRuns, src1, src2, a, vals);
  }

  // ---------- xor ----------

  /** `array_run_container_lazy_xor` */
  method ArrayRunLazyXor(src1: ArrayContainer, src2: RunContainer, dst: RunContainer)
    requires src1.Valid() && src2.Valid() && dst != src2 && dst.runs != src2.runs
    requires dst.nRuns <= dst.runs.Length && HoldsVals(src1, src1.View(), dst)
    modifies dst, dst.runs
    ensures dst.Valid() && Denote(dst.View()) == Xor(Denote(src2.View()), Elements(src1.View()))
  {
    hide Canonical, Denote, Elements, XorPrefix, Loose;
    ghost var a, vals := src2.View(), src1.View();
    ghost var b := Singles(vals);
    CanonicalIsLoose(a);
    SinglesLoose(vals);
    SinglesDenote(vals);
    dst.Grow(src1.cardinality + src2.nRuns, false);
    dst.nRuns := 0;
    var rlepos, arraypos := LazyXorBoth(src1, src2, dst, a, vals);
    XorValues(src1, arraypos, src2, rlepos, dst, a, vals);
    XorRest(src2, rlepos, dst, b);
    XorPrefixDone(dst.View(), a, b);
  }

  method LazyXorBoth(src1: ArrayContainer, src2: RunContainer, dst: RunContainer, ghost a: seq<Run>,
                     ghost vals: seq<u16>)
    returns (rlepos: nat, arraypos: nat)
    requires Loose(a) && Sorted(vals) && HoldsVals(src1, vals, dst) && Holds(src2, a)
    requires dst != src2 && dst.runs != src2.runs && dst.nRuns == 0 && |a| + |vals| <= dst.runs.Length
    modifies dst`nRuns, dst.runs
    ensures rlepos <= |a| && arraypos <= |vals| && (rlepos == |a| || arraypos == |vals|)
    ensures HoldsVals(src1, vals, dst)
    ensures dst.nRuns <= dst.runs.Length && XorPrefix(dst.View(), a, rlepos, Singles(vals), arraypos)
  {
    hide XorPrefix, Loose;
    ghost var b := Singles(vals);
    SinglesLoose(vals);
    rlepos, arraypos := 0, 0;
    XorPrefixStart(a, b);
    while rlepos < src2.nRuns && arraypos < src1.cardinality
      invariant rlepos <= |a| && arraypos <= |vals| && HoldsVals(src1, vals, dst) && Holds(src2, a)
      invariant dst.nRuns <= dst.runs.Length && XorPrefix(dst.View(), a, rlepos, b, arraypos)
    {
      assert src2.runs[rlepos] == a[rlepos] && src1.vals[arraypos] == src1.View()[arraypos];
      if src2.runs[rlepos].value <= src1.vals[arraypos] {
        XorTake(dst, src2.runs[rlepos], a, rlepos, b, arraypos);
        rlepos := rlepos + 1;
      } else {
        XorTakeOther(dst, Run(src1.vals[arraypos], 0), a, rlepos, b, arraypos);
        arraypos := arraypos + 1;
      }
    }
  }

  /** The loop over the values left of the array; it does nothing while runs are left. */
  method XorValues(src1: ArrayContainer, from: nat, src2: RunContainer, rlepos: nat, dst: RunContainer,
                   ghost a: seq<Run>, ghost vals: seq<u16>)
    requires Loose(a) && Sorted(vals) && HoldsVals(src1, vals, dst) && Holds(src2, a)
    requires dst != src2 && dst.runs != src2.runs && |a| + |vals| <= dst.runs.Length
    requires from <= |vals| && rlepos <= |a| && (rlepos == |a| || from == |vals|)
    requires dst.nRuns <= dst.runs.Length && XorPrefix(dst.View(), a, rlepos, Singles(vals), from)
    modifies dst`nRuns, dst.runs
    ensures dst.nRuns <= dst.runs.Length && XorPrefix(dst.View(), a, rlepos, Singles(vals), |vals|)
  {
    hide XorPrefix, Loose;
    ghost var b := Singles(vals);
    SinglesLoose(vals);
    var arraypos := from;
    while arraypos < src1.cardinality
      invariant from <= arraypos <= |vals| && HoldsVals(src1, vals, dst)
      invariant dst.nRuns <= dst.runs.Length && XorPrefix(dst.View(), a, rlepos, b, arraypos)
    {
      assert src1.vals[arraypos] == src1.View()[arraypos];
      XorTakeOther(dst, Run(src1.vals[arraypos], 0), a, rlepos, b, arraypos);
      arraypos := arraypos + 1;
    }
  }

  // ---------- difference ----------

  /** The first case of `run_array_container_andnot`: the scan of `run_container_andnot` against single values. */
  method RunArrayScan(src1: RunContainer, src2: ArrayContainer, dst: RunContainer)
    requires src1.Valid() && src2.Valid() && src1.nRuns > 0 && src2.cardinality > 0
    requires dst != src1 && dst.runs != src1.runs && HoldsVals(src2, src2.View(), dst)
    requires dst.nRuns == 0 && src1.nRuns + src2.cardinality <= dst.runs.Length
    modifies dst, dst.runs
    ensures dst.Valid() && Denote(dst.View()) == Denote(src1.View()) - Elements(src2.View())
  {
    hide Denote, Elements, Loose, Canonical;
    ghost var a, vals := src1.View(), src2.View();
    ghost var b := Singles(vals);
    SinglesLoose(vals);
    SinglesDenote(vals);
    var rlepos, start := SubtractValues(src1, src2, dst, a, vals);
    if rlepos < src1.nRuns {
      AndNotFinish(dst.View(), a, rlepos, start, b);
      AndNotRoom(dst.View(), a, rlepos, start, b);
      CopyRest(src1, rlepos, start, dst, a);
    }
  }

  lemma AndNotRoom(acc: seq<Run>, a: seq<Run>, i: nat, start: int, b: seq<Run>)
    requires Canonical(a) && AndNotPrefix(acc, a, i, start, b, |b|)
    ensures a[i].value <= start < a[i].End() <= 0x1_0000 && |acc| <= i + |b|
  {
  }

  method SubtractValues(src1: RunContainer, src2: ArrayContainer, dst: RunContainer, ghost a: seq<Run>,
                        ghost vals: seq<u16>)
    returns (rlepos: nat, start: int)
    requires Canonical(a) && Sorted(vals) && |a| > 0 && |vals| > 0
    requires dst != src1 && dst.runs != src1.runs && Holds(src1, a) && HoldsVals(src2, vals, dst)
    requires dst.nRuns == 0 && |a| + |vals| <= dst.runs.Length
    modifies dst`nRuns, dst.runs
    ensures rlepos <= |a| && dst.nRuns <= dst.runs.Length
    ensures rlepos < |a| ==> AndNotPrefix(dst.View(), a, rlepos, start, Singles(vals), |vals|)
    ensures rlepos == |a| ==> AndNotDone(dst.View(), a, Singles(vals), |a| + |vals|)
  {
    hide Canonical, Loose, AndNotPrefix, AndNotDone;
    ghost var b := Singles(vals);
    SinglesLoose(vals);
    var xrlepos := 0;
    rlepos, start := 0, src1.runs[0].value;
    assert src1.runs[0] == a[0];
    AndNotStart(a, b);
    while rlepos < src1.nRuns && xrlepos < src2.cardinality
      invariant rlepos <= |a| && xrlepos <= |vals| && Holds(src1, a) && HoldsVals(src2, vals, dst)
      invariant dst.nRuns <= dst.runs.Length
      invariant rlepos < |a| ==> AndNotPrefix(dst.View(), a, rlepos, start, b, xrlepos)
      invariant rlepos == |a| ==> AndNotDone(dst.View(), a, b, |a| + |vals|)
      decreases |a| - rlepos + |vals| - xrlepos, if xrlepos < |b| && b[xrlepos].End() <= start then 0 else 1
    {
      assert src1.runs[rlepos] == a[rlepos] && src2.vals[xrlepos] == src2.View()[xrlepos];
      var nextStart := start;
      if rlepos + 1 < src1.nRuns {
        nextStart := src1.runs[rlepos + 1].value;
      }
      rlepos, start, xrlepos :=
        AndNotStep(src1.runs[rlepos], nextStart, Run(src2.vals[xrlepos], 0), dst, a, rlepos, start, b, xrlepos);
    }
  }
}
