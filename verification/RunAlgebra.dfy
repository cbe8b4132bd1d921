/** The set operations on whole run containers. */
module RunAlgebra {
  import opened IntSets
  import opened Runs
  import opened RunXor
  import opened RunMerges
  import opened RunContainers
  import Memory

  /** One step of the xor scan: the next run of `a`, which starts no later than that of `b`. */
  method XorTake(dst: RunContainer, r: Run, ghost a: seq<Run>, ghost i: nat, ghost b: seq<Run>, ghost j: nat)
    requires Loose(a) && Loose(b)
    requires dst.nRuns <= dst.runs.Length && XorPrefix(dst.View(), a, i, b, j)
    requires i < |a| && r == a[i] && (j < |b| ==> a[i].value <= b[j].value)
    requires i + j < dst.runs.Length
    modifies dst`nRuns, dst.runs
    ensures dst.nRuns <= dst.runs.Length && XorPrefix(dst.View(), a, i + 1, b, j)
  {
    XorPrefixStep(dst.View(), a, i, b, j);
    dst.SmartAppendExclusive(r.value, r.length);
  }

  /** The same step for the next run of `b`. */
  method XorTakeOther(dst: RunContainer, r: Run, ghost a: seq<Run>, ghost i: nat, ghost b: seq<Run>, ghost j: nat)
    requires Loose(a) && Loose(b)
    requires dst.nRuns <= dst.runs.Length && XorPrefix(dst.View(), a, i, b, j)
    requires j < |b| && r == b[j] && (i < |a| ==> b[j].value <= a[i].value)
    requires i + j < dst.runs.Length
    modifies dst`nRuns, dst.runs
    ensures dst.nRuns <= dst.runs.Length && XorPrefix(dst.View(), a, i, b, j + 1)
  {
    hide Loose, XorPrefix;
    XorPrefixSymmetric(dst.View(), a, i, b, j);
    XorTake(dst, r, b, j, a, i);
    XorPrefixSymmetric(dst.View(), b, j + 1, a, i);
  }

  /** The two operands of a scan, apart from the destination it writes. */
  ghost predicate Apart(src1: RunContainer, src2: RunContainer, dst: RunContainer)
    reads src1, src2, dst
  {
    dst != src1 && dst != src2 && dst.runs != src1.runs && dst.runs != src2.runs
  }

  ghost predicate Holds(src: RunContainer, s: seq<Run>)
    reads src, src.runs
  {
    src.nRuns <= src.runs.Length && src.View() == s
  }

  /** The first loop of `run_container_xor`: until one operand is used up. */
  method XorBoth(src1: RunContainer, src2: RunContainer, dst: RunContainer) returns (pos1: nat, pos2: nat)
    requires src1.Valid() && src2.Valid() && Apart(src1, src2, dst)
    requires dst.nRuns == 0 && src1.nRuns + src2.nRuns <= dst.runs.Length
    modifies dst`nRuns, dst.runs
    ensures pos1 == src1.nRuns || pos2 == src2.nRuns
    ensures dst.nRuns <= dst.runs.Length && XorPrefix(dst.View(), src1.View(), pos1, src2.View(), pos2)
  {
    hide Canonical, Loose, XorPrefix;
    ghost var a, b := src1.View(), src2.View();
    CanonicalIsLoose(a);
    CanonicalIsLoose(b);
    pos1, pos2 := 0, 0;
    XorPrefixStart(a, b);
    while pos1 < src1.nRuns && pos2 < src2.nRuns
      invariant pos1 <= src1.nRuns && pos2 <= src2.nRuns
      invariant Holds(src1, a) && Holds(src2, b)
      invariant dst.nRuns <= dst.runs.Length && XorPrefix(dst.View(), a, pos1, b, pos2)
    {
      if src1.runs[pos1].value <= src2.runs[pos2].value {
        XorTake(dst, src1.runs[pos1], a, pos1, b, pos2);
        pos1 := pos1 + 1;
      } else {
        XorTakeOther(dst, src2.runs[pos2], a, pos1, b, pos2);
        pos2 := pos2 + 1;
      }
    }
  }

  /** The two loops after it: the runs left of one operand, once the other is used up. */
  method XorRest(src: RunContainer, start: nat, dst: RunContainer, ghost b: seq<Run>)
    requires src.Valid() && Loose(b) && src != dst && src.runs != dst.runs && start <= src.nRuns
    requires dst.nRuns <= dst.runs.Length && XorPrefix(dst.View(), src.View(), start, b, |b|)
    requires src.nRuns + |b| <= dst.runs.Length
    modifies dst`nRuns, dst.runs
    ensures dst.nRuns <= dst.runs.Length && XorPrefix(dst.View(), src.View(), src.nRuns, b, |b|)
  {
    hide XorPrefix, Canonical, Loose;
    ghost var a := src.View();
    CanonicalIsLoose(a);
    var pos := start;
    while pos < src.nRuns
      invariant pos <= src.nRuns && Holds(src, a)
      invariant dst.nRuns <= dst.runs.Length && XorPrefix(dst.View(), a, pos, b, |b|)
    {
      XorTake(dst, src.runs[pos], a, pos, b, |b|);
      pos := pos + 1;
    }
  }

  /** `run_container_xor` */
  method ContainerXor(src1: RunContainer, src2: RunContainer, dst: RunContainer)
    requires src1.Valid() && src2.Valid() && dst.nRuns <= dst.runs.Length && Apart(src1, src2, dst)
    modifies dst, dst.runs
    ensures dst.Valid() && Denote(dst.View()) == Xor(Denote(src1.View()), Denote(src2.View()))
    ensures |dst.View()| <= |src1.View()| + |src2.View()|
  {
    ghost var a, b := src1.View(), src2.View();
    CanonicalIsLoose(a);
    CanonicalIsLoose(b);
    var neededCapacity := src1.nRuns + src2.nRuns;
    if dst.runs.Length < neededCapacity {
      dst.Grow(neededCapacity, false);
    }
    dst.nRuns := 0;
    var pos1, pos2 := XorBoth(src1, src2, dst);
    if pos1 < src1.nRuns {
      XorRest(src1, pos1, dst, b);
    } else {
      XorPrefixSymmetric(dst.View(), a, pos1, b, pos2);
      XorRest(src2, pos2, dst, a);
      XorPrefixSymmetric(dst.View(), b, |b|, a, |a|);
    }
    XorPrefixDone(dst.View(), a, b);
  }

  // ---------- union ----------

  /** One step of the union scan: the next run of `a`, which starts no later than that of `b`. */
  method UnionTake(dst: RunContainer, r: Run, previous: Run,
                   ghost a: seq<Run>, ghost i: nat, ghost b: seq<Run>, ghost j: nat) returns (last: Run)
    requires Loose(a) && i < |a| && r == a[i] && (j < |b| ==> a[i].value <= b[j].value)
    requires dst.nRuns <= dst.runs.Length && UnionPrefix(dst.View(), a, i, b, j)
    requires dst.nRuns > 0 ==> previous == dst.runs[dst.nRuns - 1]
    requires i + j < dst.runs.Length
    modifies dst`nRuns, dst.runs
    ensures 0 < dst.nRuns <= dst.runs.Length && UnionPrefix(dst.View(), a, i + 1, b, j)
    ensures last == dst.runs[dst.nRuns - 1]
    ensures forall k :: i + j < k < dst.runs.Length ==> dst.runs[k] == old(dst.runs[k])
  {
    UnionPrefixStep(dst.View(), a, i, b, j);
    last := dst.Append(r, previous);
  }

  /** The same step for the next run of `b`. */
  method UnionTakeOther(dst: RunContainer, r: Run, previous: Run,
                        ghost a: seq<Run>, ghost i: nat, ghost b: seq<Run>, ghost j: nat) returns (last: Run)
    requires Loose(b) && j < |b| && r == b[j] && (i < |a| ==> b[j].value <= a[i].value)
    requires dst.nRuns <= dst.runs.Length && UnionPrefix(dst.View(), a, i, b, j)
    requires dst.nRuns > 0 ==> previous == dst.runs[dst.nRuns - 1]
    requires i + j < dst.runs.Length
    modifies dst`nRuns, dst.runs
    ensures 0 < dst.nRuns <= dst.runs.Length && UnionPrefix(dst.View(), a, i, b, j + 1)
    ensures last == dst.runs[dst.nRuns - 1]
    ensures forall k :: i + j < k < dst.runs.Length ==> dst.runs[k] == old(dst.runs[k])
  {
    hide Loose, UnionPrefix;
    UnionPrefixSymmetric(dst.View(), a, i, b, j);
    last := UnionTake(dst, r, previous, b, j, a, i);
    UnionPrefixSymmetric(dst.View(), b, j + 1, a, i);
  }

  /** Where a scan reads its runs: a stretch of a buffer that the scan may also be writing, further left. */
  ghost predicate Reads(input: array<Run>, offset: nat, a: seq<Run>, dst: RunContainer, room: nat)
    reads input, dst
  {
    && offset + |a| <= input.Length && input[offset..offset + |a|] == a
    && (input == dst.runs ==> room <= offset)
    && room <= dst.runs.Length
  }

  /**
   The first two loops of `run_container_union` and `run_container_union_inplace`. In the in-place case the runs of
   the first operand were moved to the end of the buffer that the scan fills from the front.
   */
  method UnionBoth(input: array<Run>, offset: nat, n1: nat, src2: RunContainer, dst: RunContainer,
                   ghost a: seq<Run>, ghost b: seq<Run>)
    returns (pos1: nat, pos2: nat, previous: Run)
    requires Loose(a) && Loose(b) && |a| == n1 > 0 && |b| > 0
    requires Reads(input, offset, a, dst, n1 + |b|)
    requires dst != src2 && dst.runs != src2.runs && Holds(src2, b) && dst.nRuns == 0
    modifies dst`nRuns, dst.runs
    ensures pos1 <= n1 && pos2 <= |b| && (pos1 == n1 || pos2 == |b|)
    ensures Reads(input, offset, a, dst, n1 + |b|)
    ensures 0 < dst.nRuns <= dst.runs.Length && UnionPrefix(dst.View(), a, pos1, b, pos2)
    ensures previous == dst.runs[dst.nRuns - 1]
  {
    hide Loose, UnionPrefix;
    pos1, pos2, previous := 0, 0, Run(0, 0);
    UnionPrefixStart(a, b);
    while pos1 < n1 && pos2 < src2.nRuns
      invariant pos1 <= n1 && pos2 <= |b| && Holds(src2, b) && Reads(input, offset, a, dst, n1 + |b|)
      invariant dst.nRuns <= dst.runs.Length && UnionPrefix(dst.View(), a, pos1, b, pos2)
      invariant pos1 + pos2 > 0 ==> dst.nRuns > 0
      invariant dst.nRuns > 0 ==> previous == dst.runs[dst.nRuns - 1]
    {
      var next1, next2 := input[offset + pos1], src2.runs[pos2];
      assert next1 == input[offset..offset + |a|][pos1];
      if next1.value <= next2.value {
        previous := UnionTake(dst, next1, previous, a, pos1, b, pos2);
        pos1 := pos1 + 1;
      } else {
        previous := UnionTakeOther(dst, next2, previous, a, pos1, b, pos2);
        pos2 := pos2 + 1;
      }
    }
  }

  /** The third loop: what is left of the first operand. */
  method UnionRestFirst(input: array<Run>, offset: nat, start: nat, n1: nat, dst: RunContainer, last: Run,
                        ghost a: seq<Run>, ghost b: seq<Run>)
    requires Loose(a) && |a| == n1 && start <= n1 && Reads(input, offset, a, dst, n1 + |b|)
    requires 0 < dst.nRuns <= dst.runs.Length && UnionPrefix(dst.View(), a, start, b, |b|)
    requires last == dst.runs[dst.nRuns - 1]
    modifies dst`nRuns, dst.runs
    ensures 0 < dst.nRuns <= dst.runs.Length && UnionPrefix(dst.View(), a, |a|, b, |b|)
  {
    hide Loose, UnionPrefix;
    var pos, previous := start, last;
    while pos < n1
      invariant pos <= n1 && Reads(input, offset, a, dst, n1 + |b|)
      invariant 0 < dst.nRuns <= dst.runs.Length && UnionPrefix(dst.View(), a, pos, b, |b|)
      invariant previous == dst.runs[dst.nRuns - 1]
    {
      var next := input[offset + pos];
      assert next == input[offset..offset + |a|][pos];
      previous := UnionTake(dst, next, previous, a, pos, b, |b|);
      pos := pos + 1;
    }
  }

  /** The fourth loop: what is left of the second operand. */
  method UnionRestSecond(src2: RunContainer, start: nat, dst: RunContainer, last: Run,
                         ghost a: seq<Run>, ghost b: seq<Run>)
    requires Loose(b) && start <= |b| && |a| + |b| <= dst.runs.Length
    requires dst != src2 && dst.runs != src2.runs && Holds(src2, b)
    requires 0 < dst.nRuns <= dst.runs.Length && UnionPrefix(dst.View(), a, |a|, b, start)
    requires last == dst.runs[dst.nRuns - 1]
    modifies dst`nRuns, dst.runs
    ensures 0 < dst.nRuns <= dst.runs.Length && UnionPrefix(dst.View(), a, |a|, b, |b|)
  {
    hide Loose, UnionPrefix;
    var pos, previous := start, last;
    while pos < src2.nRuns
      invariant pos <= |b| && Holds(src2, b)
      invariant 0 < dst.nRuns <= dst.runs.Length && UnionPrefix(dst.View(), a, |a|, b, pos)
      invariant previous == dst.runs[dst.nRuns - 1]
    {
      previous := UnionTakeOther(dst, src2.runs[pos], previous, a, |a|, b, pos);
      pos := pos + 1;
    }
  }

  method UnionScan(input: array<Run>, offset: nat, n1: nat, src2: RunContainer, dst: RunContainer,
                   ghost a: seq<Run>, ghost b: seq<Run>)
    requires Canonical(a) && Canonical(b) && |a| == n1 > 0 && |b| > 0
    requires Reads(input, offset, a, dst, n1 + |b|)
    requires dst != src2 && dst.runs != src2.runs && Holds(src2, b) && dst.nRuns == 0
    modifies dst`nRuns, dst.runs
    ensures dst.Valid() && Denote(dst.View()) == Denote(a) + Denote(b) && dst.nRuns <= n1 + |b|
  {
    hide Canonical, Loose, UnionPrefix;
    CanonicalIsLoose(a);
    CanonicalIsLoose(b);
    var pos1, pos2, previous := UnionBoth(input, offset, n1, src2, dst, a, b);
    if pos2 < src2.nRuns {
      UnionRestSecond(src2, pos2, dst, previous, a, b);
    } else {
      UnionRestFirst(input, offset, pos1, n1, dst, previous, a, b);
    }
    UnionPrefixDone(dst.View(), a, b);
  }

  lemma UnionWithFull(s: seq<Run>)
    requires Canonical(s)
    ensures Denote(s) + Range(0, 0x1_0000) == Range(0, 0x1_0000)
    ensures Denote(s) * Range(0, 0x1_0000) == Denote(s)
  {
  }

  /** `run_container_union` */
  method Union(src1: RunContainer, src2: RunContainer, dst: RunContainer)
    requires src1.Valid() && src2.Valid() && src1.nRuns > 0 && src2.nRuns > 0
    requires dst.nRuns <= dst.runs.Length && Apart(src1, src2, dst) && src1.runs != src2.runs
    modifies dst, dst.runs
    ensures dst.Valid() && Denote(dst.View()) == Denote(src1.View()) + Denote(src2.View())
  {
    ghost var a, b := src1.View(), src2.View();
    UnionWithFull(a);
    UnionWithFull(b);
    var if1 := src1.IsFull();
    var if2 := src2.IsFull();
    if if1 {
      dst.CopyFrom(src1);
    } else if if2 {
      dst.CopyFrom(src2);
    } else {
      UnionInto(src1, src2, dst);
    }
  }

  method UnionInto(src1: RunContainer, src2: RunContainer, dst: RunContainer)
    requires src1.Valid() && src2.Valid() && src1.nRuns > 0 && src2.nRuns > 0
    requires dst.nRuns <= dst.runs.Length && Apart(src1, src2, dst)
    modifies dst, dst.runs
    ensures dst.Valid() && Denote(dst.View()) == Denote(src1.View()) + Denote(src2.View())
  {
    ghost var a, b := src1.View(), src2.View();
    var neededCapacity := src1.nRuns + src2.nRuns;
    if dst.runs.Length < neededCapacity {
      dst.Grow(neededCapacity, false);
    }
    dst.nRuns := 0;
    UnionScan(src1.runs, 0, src1.nRuns, src2, dst, a, b);
  }

  /** `run_container_union_inplace` */
  method UnionInplace(src1: RunContainer, src2: RunContainer)
    requires src1.Valid() && src2.Valid() && src1.nRuns > 0 && src2.nRuns > 0
    requires src1 != src2 && src1.runs != src2.runs
    modifies src1, src1.runs
    ensures src1.Valid() && Denote(src1.View()) == old(Denote(src1.View())) + Denote(src2.View())
    ensures src1.runs == old(src1.runs) || fresh(src1.runs)
  {
    ghost var a, b := src1.View(), src2.View();
    UnionWithFull(a);
    UnionWithFull(b);
    var if1 := src1.IsFull();
    var if2 := src2.IsFull();
    if if1 {
    } else if if2 {
      src1.CopyFrom(src2);
    } else {
      UnionShifted(src1, src2);
    }
  }

  /** The case of two partial containers: the runs of `src1` move to the end of its own buffer first. */
  method UnionShifted(src1: RunContainer, src2: RunContainer)
    requires src1.Valid() && src2.Valid() && src1.nRuns > 0 && src2.nRuns > 0
    requires src1 != src2 && src1.runs != src2.runs
    modifies src1, src1.runs
    ensures src1.Valid() && Denote(src1.View()) == old(Denote(src1.View())) + Denote(src2.View())
    ensures src1.runs == old(src1.runs) || fresh(src1.runs)
  {
    hide Canonical;
    ghost var a, b := src1.View(), src2.View();
    var maxOutput := src1.nRuns + src2.nRuns;
    var neededCapacity := maxOutput + src1.nRuns;
    if src1.runs.Length < neededCapacity {
      src1.Grow(neededCapacity, true);
    }
    assert src1.View() == a;
    Memory.Move(src1.runs, maxOutput, 0, src1.nRuns);
    var input1nRuns := src1.nRuns;
    src1.nRuns := 0;
    UnionScan(src1.runs, maxOutput, input1nRuns, src2, src1, a, b);
  }

  // ---------- intersection ----------

  /** `run_container_intersection` */
  method Intersection(src1: RunContainer, src2: RunContainer, dst: RunContainer)
    requires src1.Valid() && src2.Valid() && src1.nRuns > 0 && src2.nRuns > 0
    requires dst.nRuns <= dst.runs.Length && Apart(src1, src2, dst)
    modifies dst, dst.runs
    ensures dst.Valid() && Denote(dst.View()) == Denote(src1.View()) * Denote(src2.View())
  {
    ghost var a, b := src1.View(), src2.View();
    UnionWithFull(a);
    UnionWithFull(b);
    var if1 := src1.IsFull();
    var if2 := src2.IsFull();
    if if1 {
      dst.CopyFrom(src2);
    } else if if2 {
      dst.CopyFrom(src1);
    } else {
      IntersectInto(src1, src2, dst);
    }
  }

  method IntersectInto(src1: RunContainer, src2: RunContainer, dst: RunContainer)
    requires src1.Valid() && src2.Valid() && src1.nRuns > 0 && src2.nRuns > 0
    requires dst.nRuns <= dst.runs.Length && Apart(src1, src2, dst)
    modifies dst, dst.runs
    ensures dst.Valid() && Denote(dst.View()) == Denote(src1.View()) * Denote(src2.View())
  {
    ghost var a, b := src1.View(), src2.View();
    var neededCapacity := src1.nRuns + src2.nRuns;
    if dst.runs.Length < neededCapacity {
      dst.Grow(neededCapacity, false);
    }
    dst.nRuns := 0;
    IntersectScan(src1, src2, dst, a, b);
  }

  /**
   The scan of `run_container_intersection`: every step skips a run, or outputs an overlap and passes the run that
   ends first.
   */
  method IntersectScan(src1: RunContainer, src2: RunContainer, dst: RunContainer, ghost a: seq<Run>, ghost b: seq<Run>)
    requires Canonical(a) && Canonical(b) && |a| > 0 && |b| > 0
    requires Apart(src1, src2, dst) && Holds(src1, a) && Holds(src2, b)
    requires dst.nRuns == 0 && |a| + |b| <= dst.runs.Length
    modifies dst`nRuns, dst.runs
    ensures dst.Valid() && Denote(dst.View()) == Denote(a) * Denote(b)
  {
    hide Canonical, AndPrefix;
    var rlepos, xrlepos := 0, 0;
    AndPrefixStart(a, b);
    while rlepos < src1.nRuns && xrlepos < src2.nRuns
      invariant rlepos <= |a| && xrlepos <= |b| && Holds(src1, a) && Holds(src2, b)
      invariant dst.nRuns <= dst.runs.Length && AndPrefix(dst.View(), a, rlepos, b, xrlepos)
      decreases |a| - rlepos + |b| - xrlepos
    {
      rlepos, xrlepos := IntersectStep(src1.runs[rlepos], src2.runs[xrlepos], dst, a, rlepos, b, xrlepos);
    }
    AndPrefixDone(dst.View(), a, rlepos, b, xrlepos);
  }

  method IntersectStep(run: Run, xrun: Run, dst: RunContainer,
                       ghost a: seq<Run>, rlepos: nat, ghost b: seq<Run>, xrlepos: nat)
    returns (rlepos': nat, xrlepos': nat)
    requires Canonical(a) && Canonical(b) && rlepos < |a| && xrlepos < |b|
    requires run == a[rlepos] && xrun == b[xrlepos]
    requires dst.nRuns <= dst.runs.Length && AndPrefix(dst.View(), a, rlepos, b, xrlepos)
    requires |a| + |b| <= dst.runs.Length
    modifies dst`nRuns, dst.runs
    ensures rlepos <= rlepos' <= |a| && xrlepos <= xrlepos' <= |b| && rlepos + xrlepos < rlepos' + xrlepos'
    ensures dst.nRuns <= dst.runs.Length && AndPrefix(dst.View(), a, rlepos', b, xrlepos')
  {
    hide Canonical, AndPrefix;
    ghost var acc := dst.View();
    AndPrefixSize(acc, a, rlepos, b, xrlepos);
    var start, end := run.value, run.value + run.length + 1;
    var xstart, xend := xrun.value, xrun.value + xrun.length + 1;
    if end <= xstart {
      AndPrefixSkip(acc, a, rlepos, b, xrlepos);
      return rlepos + 1, xrlepos;
    } else if xend <= start {
      AndPrefixSymmetric(acc, a, rlepos, b, xrlepos);
      AndPrefixSkip(acc, b, xrlepos, a, rlepos);
      AndPrefixSymmetric(acc, b, xrlepos + 1, a, rlepos);
      return rlepos, xrlepos + 1;
    }
    var latestStart := if start > xstart then start else xstart;
    var earliestEnd;
    if end == xend {
      AndPrefixBoth(acc, a, rlepos, b, xrlepos);
      assert latestStart == LatestStart(a[rlepos], b[xrlepos]);
      earliestEnd, rlepos', xrlepos' := end, rlepos + 1, xrlepos + 1;
    } else if end < xend {
      AndPrefixOverlap(acc, a, rlepos, b, xrlepos);
      earliestEnd, rlepos', xrlepos' := end, rlepos + 1, xrlepos;
    } else {
      AndPrefixOverlapOther(acc, a, rlepos, b, xrlepos);
      earliestEnd, rlepos', xrlepos' := xend, rlepos, xrlepos + 1;
    }
    dst.Push(Run(latestStart, earliestEnd - latestStart - 1));
  }

  // ---------- difference ----------

  /** `run_container_andnot` */
  method AndNot(src1: RunContainer, src2: RunContainer, dst: RunContainer)
    requires src1.Valid() && src2.Valid() && src1.nRuns > 0 && src2.nRuns > 0
    requires dst.nRuns <= dst.runs.Length && Apart(src1, src2, dst)
    modifies dst, dst.runs
    ensures dst.Valid() && Denote(dst.View()) == Denote(src1.View()) - Denote(src2.View())
  {
    ghost var a, b := src1.View(), src2.View();
    if dst.runs.Length < src1.nRuns + src2.nRuns {
      dst.Grow(src1.nRuns + src2.nRuns, false);
    }
    dst.nRuns := 0;
    var rlepos1, start := AndNotScan(src1, src2, dst, a, b);
    if rlepos1 < src1.nRuns {
      AndNotFinish(dst.View(), a, rlepos1, start, b);
      CopyRest(src1, rlepos1, start, dst, a);
    }
  }

  /** The scan of `run_container_andnot`, until one operand is used up. */
  method AndNotScan(src1: RunContainer, src2: RunContainer, dst: RunContainer, ghost a: seq<Run>, ghost b: seq<Run>)
    returns (rlepos1: nat, start: int)
    requires Canonical(a) && Canonical(b) && |a| > 0 && |b| > 0
    requires Apart(src1, src2, dst) && Holds(src1, a) && Holds(src2, b)
    requires dst.nRuns == 0 && |a| + |b| <= dst.runs.Length
    modifies dst`nRuns, dst.runs
    ensures rlepos1 <= |a| && dst.nRuns <= dst.runs.Length
    ensures rlepos1 < |a| ==> AndNotPrefix(dst.View(), a, rlepos1, start, b, |b|)
    ensures rlepos1 == |a| ==> AndNotDone(dst.View(), a, b, |a| + |b|)
  {
    hide Canonical, Loose, AndNotPrefix, AndNotDone;
    CanonicalIsLoose(b);
    var rlepos2 := 0;
    rlepos1, start := 0, src1.runs[0].value;
    assert src1.runs[0] == a[0];
    AndNotStart(a, b);
    while rlepos1 < src1.nRuns && rlepos2 < src2.nRuns
      invariant rlepos1 <= |a| && rlepos2 <= |b| && Holds(src1, a) && Holds(src2, b)
      invariant dst.nRuns <= dst.runs.Length
      invariant rlepos1 < |a| ==> AndNotPrefix(dst.View(), a, rlepos1, start, b, rlepos2)
      invariant rlepos1 == |a| ==> AndNotDone(dst.View(), a, b, |a| + |b|)
      decreases |a| - rlepos1 + |b| - rlepos2, if rlepos2 < |b| && b[rlepos2].End() <= start then 0 else 1
    {
      var nextStart := start;
      if rlepos1 + 1 < src1.nRuns {
        nextStart := src1.runs[rlepos1 + 1].value;
      }
      rlepos1, start, rlepos2 :=
        AndNotStep(src1.runs[rlepos1], nextStart, src2.runs[rlepos2], dst, a, rlepos1, start, b, rlepos2);
    }
  }

  /** One step of the scan; `nextStart` is where the run after `run` starts, if there is one. */
  method AndNotStep(run: Run, nextStart: int, run2: Run, dst: RunContainer,
                    ghost a: seq<Run>, rlepos1: nat, start: int, ghost b: seq<Run>, rlepos2: nat)
    returns (rlepos1': nat, start': int, rlepos2': nat)
    requires Canonical(a) && Loose(b) && rlepos1 < |a| && rlepos2 < |b|
    requires run == a[rlepos1] && run2 == b[rlepos2]
    requires rlepos1 + 1 < |a| ==> nextStart == a[rlepos1 + 1].value
    requires dst.nRuns <= dst.runs.Length && AndNotPrefix(dst.View(), a, rlepos1, start, b, rlepos2)
    requires |a| + |b| <= dst.runs.Length
    modifies dst`nRuns, dst.runs
    ensures rlepos1 <= rlepos1' <= |a| && rlepos2 <= rlepos2' <= |b| && dst.nRuns <= dst.runs.Length
    ensures rlepos1' < |a| ==> AndNotPrefix(dst.View(), a, rlepos1', start', b, rlepos2')
    ensures rlepos1' == |a| ==> AndNotDone(dst.View(), a, b, |a| + |b|)
    ensures rlepos1 + rlepos2 < rlepos1' + rlepos2' || start < run2.End() <= start'
  {
    hide Canonical, Loose, AndNotPrefix, AndNotDone;
    ghost var acc := dst.View();
    AndNotFacts(acc, a, rlepos1, start, b, rlepos2);
    var end := run.value + run.length + 1;
    var start2 := run2.value;
    var end2 := start2 + run2.length + 1;
    if end <= start2 {
      AndNotWhole(acc, a, rlepos1, start, b, rlepos2);
      dst.Push(Run(start, end - start - 1));
      return rlepos1 + 1, nextStart, rlepos2;
    } else if end2 <= start {
      AndNotSkip(acc, a, rlepos1, start, b, rlepos2);
      return rlepos1, start, rlepos2 + 1;
    }
    AndNotOverlap(acc, a, rlepos1, start, b, rlepos2);
    if start < start2 {
      dst.Push(Run(start, start2 - start - 1));
    }
    if end2 < end {
      return rlepos1, end2, rlepos2;
    }
    return rlepos1 + 1, nextStart, rlepos2;
  }

  /** The rest of `src1` after the scan: the current run from `start` on, and the runs after it. */
  method CopyRest(src1: RunContainer, rlepos1: nat, start: int, dst: RunContainer, ghost a: seq<Run>)
    requires src1 != dst && src1.runs != dst.runs && Holds(src1, a) && rlepos1 < |a|
    requires a[rlepos1].value <= start < a[rlepos1].End() <= 0x1_0000
    requires dst.nRuns <= dst.runs.Length && dst.nRuns + |a| - rlepos1 <= dst.runs.Length
    modifies dst`nRuns, dst.runs
    ensures dst.nRuns <= dst.runs.Length
    ensures dst.View() == old(dst.View()) + [Interval(start, a[rlepos1].End())] + a[rlepos1 + 1..]
  {
    var end := src1.runs[rlepos1].value + src1.runs[rlepos1].length + 1;
    assert src1.runs[rlepos1] == a[rlepos1];
    dst.Push(Run(start, end - start - 1));
    var next := rlepos1 + 1;
    if next < src1.nRuns {
      Memory.Copy(dst.runs, dst.nRuns, src1.runs, next, src1.nRuns - next);
      dst.nRuns := dst.nRuns + (src1.nRuns - next);
    }
  }
}
