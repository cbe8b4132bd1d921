/** The run container: a growable buffer of runs, its searches, and the appends of a scan. */
module RunContainers {
  import opened IntSets
  import opened Runs
  import opened RunMerges
  import opened RunSplices
  import opened RunXor
  import Memory

  /** The first values are strictly increasing: all that the binary search relies on. */
  ghost predicate StartsSorted(s: seq<Run>) {
    forall i, j :: 0 <= i < j < |s| ==> s[i].value < s[j].value
  }

  /** `r` is the answer of the binary search for `key`: an index, or `-(p + 1)` for insertion point `p`. */
  ghost predicate SearchResult(s: seq<Run>, key: int, r: int) {
    if r >= 0 then r < |s| && s[r].value == key
    else
      && -r - 1 <= |s|
      && (forall i :: 0 <= i < -r - 1 ==> s[i].value < key)
      && (forall i :: -r - 1 <= i < |s| ==> key < s[i].value)
  }

  /** `r` is the run that holds `key`, or `-(p + 1)` for the insertion point `p` of a missing `key`. */
  ghost predicate FoundRun(s: seq<Run>, key: int, r: int) {
    if r >= 0 then r < |s| && s[r].Contains(key)
    else
      && -r - 1 <= |s|
      && (forall i :: 0 <= i < -r - 1 ==> s[i].End() <= key)
      && (forall i :: -r - 1 <= i < |s| ==> key < s[i].value)
  }

  /** The runs `first` and `last`, where found, are the partial runs at the two ends of the met runs `i .. j`. */
  ghost predicate Partial(s: seq<Run>, i: int, j: int, first: int, last: int, min: int, max: int) {
    && i == FirstMet(first) && j == LastMet(last)
    && 0 <= i <= j <= |s| && -|s| - 1 <= first < |s| && -|s| - 1 <= last < |s|
    && (forall k :: 0 <= k < |s| ==> s[k].End() <= 0x1_0000)
    && (first >= 0 ==> s[first].Contains(min)) && (last >= 0 ==> s[last].Contains(max))
    && (first >= 0 && s[first].value < min <==> i < j && s[i].value < min)
    && (last >= 0 && max + 1 < s[last].End() <==> i < j && max + 1 < s[j - 1].End())
  }

  /** The first run that ends after the key `r` was found for, and one past the last that starts before it. */
  ghost function FirstMet(r: int): int { if r >= 0 then r else -r - 1 }

  ghost function LastMet(r: int): int { if r >= 0 then r + 1 else -r - 1 }

  class RunContainer {
    var runs: array<Run>
    var nRuns: nat

    ghost predicate Valid()
      reads this, runs
    {
      nRuns <= runs.Length && Canonical(runs[..nRuns])
    }

    ghost function View(): seq<Run>
      requires nRuns <= runs.Length
      reads this, runs
    {
      runs[..nRuns]
    }

    constructor (capacity: nat)
      ensures Valid() && View() == [] && fresh(runs) && runs.Length == capacity
    {
      runs := new Run[capacity](_ => Run(0, 0));
      nRuns := 0;
    }

    /** `run_container_grow` */
    method Grow(min: nat, copy: bool)
      requires nRuns <= runs.Length
      modifies this
      ensures fresh(runs) && runs.Length >= min && runs.Length >= old(runs.Length)
      ensures nRuns == old(nRuns)
      ensures copy ==> View() == old(View())
    {
      var capacity := runs.Length;
      var newCapacity :=
        if capacity == 0 then 0
        else if capacity < 64 then capacity * 2
        else if capacity < 1024 then capacity * 3 / 2
        else capacity * 5 / 4;
      if newCapacity < min {
        newCapacity := min;
      }
      var grown := new Run[newCapacity](_ => Run(0, 0));
      if copy {
        Memory.Copy(grown, 0, runs, 0, nRuns);
      }
      runs := grown;
    }

    /** `makeRoomAtIndex`: opens a slot of unspecified content at `index`. */
    method MakeRoomAtIndex(index: nat)
      requires nRuns <= runs.Length && index <= nRuns
      modifies this, runs
      ensures nRuns == old(nRuns) + 1 <= runs.Length
      ensures runs == old(runs) || fresh(runs)
      ensures View()[..index] == old(View())[..index]
      ensures View()[index + 1..] == old(View())[index..]
    {
      if nRuns + 1 > runs.Length {
        Grow(nRuns + 1, true);
      }
      assert View() == old(View());
      Memory.Move(runs, index + 1, index, nRuns - index);
      nRuns := nRuns + 1;
    }

    /** `recoverRoomAtIndex`: deletes the run at `index`. */
    method RecoverRoomAtIndex(index: nat)
      requires nRuns <= runs.Length && index < nRuns
      modifies this`nRuns, runs
      ensures nRuns == old(nRuns) - 1
      ensures View() == old(View())[..index] + old(View())[index + 1..]
    {
      Memory.Move(runs, index, index + 1, nRuns - index - 1);
      nRuns := nRuns - 1;
    }

    /** `interleavedBinarySearch` */
    method Search(key: u16) returns (r: int)
      requires nRuns <= runs.Length && StartsSorted(View())
      ensures SearchResult(View(), key, r)
    {
      var low, high := 0, nRuns - 1;
      while low <= high
        invariant 0 <= low <= high + 1 <= nRuns
        invariant forall i :: 0 <= i < low ==> runs[i].value < key
        invariant forall i :: high < i < nRuns ==> key < runs[i].value
      {
        var middleIndex := (low + high) / 2;
        var middleValue := runs[middleIndex].value;
        assert View()[middleIndex] == runs[middleIndex];
        if middleValue < key {
          forall i | 0 <= i < middleIndex ensures runs[i].value < key { assert View()[i] == runs[i]; }
          low := middleIndex + 1;
        } else if middleValue > key {
          forall i | middleIndex < i < nRuns ensures key < runs[i].value { assert View()[i] == runs[i]; }
          high := middleIndex - 1;
        } else {
          return middleIndex;
        }
      }
      return -(low + 1);
    }

    /** `run_container_contains` */
    method Contains(pos: u16) returns (b: bool)
      requires Valid()
      ensures b <==> pos in Denote(View())
    {
      var index := Search(pos);
      DenoteHas(View(), pos);
      if index >= 0 {
        assert View()[index].Contains(pos);
        return true;
      }
      index := -index - 2;
      if index != -1 {
        var offset := pos - runs[index].value;
        var le := runs[index].length;
        if offset <= le {
          assert View()[index].Contains(pos);
          return true;
        }
      }
      return false;
    }

    /** `run_container_smart_append_exclusive`: at most the last slot and the slot after it are written. */
    method SmartAppendExclusive(start: u16, length: u16)
      requires nRuns <= runs.Length && Appendable(View(), Run(start, length))
      requires |AppendExclusive(View(), Run(start, length))| <= runs.Length
      modifies this`nRuns, runs
      ensures nRuns <= runs.Length
      ensures View() == AppendExclusive(old(View()), Run(start, length))
      ensures forall i :: old(nRuns) < i < runs.Length ==> runs[i] == old(runs[i])
    {
      if nRuns == 0 {
        runs[0] := Run(start, length);
        nRuns := 1;
        return;
      }
      var last := runs[nRuns - 1];
      var oldEnd := last.value + last.length + 1;
      ghost var init := View()[..nRuns - 1];
      assert View()[nRuns - 1] == last;
      if start > oldEnd {
        runs[nRuns] := Run(start, length);
        nRuns := nRuns + 1;
        return;
      }
      if oldEnd == start {
        runs[nRuns - 1] := Run(last.value, last.length + (length + 1));
        return;
      }
      var newEnd := start + length + 1;
      if start == last.value {
        if newEnd < oldEnd {
          runs[nRuns - 1] := Run(newEnd, oldEnd - newEnd - 1);
        } else if newEnd > oldEnd {
          runs[nRuns - 1] := Run(oldEnd, newEnd - oldEnd - 1);
        } else {
          nRuns := nRuns - 1;
        }
        return;
      }
      runs[nRuns - 1] := Run(last.value, start - last.value - 1);
      if newEnd < oldEnd {
        runs[nRuns] := Run(newEnd, oldEnd - newEnd - 1);
        nRuns := nRuns + 1;
      } else if newEnd > oldEnd {
        runs[nRuns] := Run(oldEnd, newEnd - oldEnd - 1);
        nRuns := nRuns + 1;
      }
    }

    /** `run_container_append`, and `run_container_append_first` on an empty container. */
    method Append(vl: Run, previous: Run) returns (last: Run)
      requires nRuns < runs.Length && Appendable(View(), vl)
      requires nRuns > 0 ==> previous == runs[nRuns - 1]
      modifies this`nRuns, runs
      ensures 0 < nRuns <= runs.Length
      ensures View() == AppendUnion(old(View()), vl) && last == runs[nRuns - 1]
      ensures forall i :: old(nRuns) < i < runs.Length ==> runs[i] == old(runs[i])
    {
      if nRuns == 0 {
        runs[0] := vl;
        nRuns := 1;
        return vl;
      }
      var previousEnd := previous.value + previous.length;
      last := previous;
      if vl.value > previousEnd + 1 {
        runs[nRuns] := vl;
        nRuns := nRuns + 1;
        last := vl;
      } else {
        var newEnd := vl.value + vl.length + 1;
        if newEnd > previousEnd {
          last := Run(previous.value, newEnd - 1 - previous.value);
          runs[nRuns - 1] := last;
        }
      }
    }

    /** `run_container_append_value`, and `run_container_append_value_first` on an empty container. */
    method AppendValue(val: u16, previous: Run) returns (last: Run)
      requires nRuns < runs.Length && Appendable(View(), Run(val, 0))
      requires nRuns > 0 ==> previous == runs[nRuns - 1]
      modifies this`nRuns, runs
      ensures 0 < nRuns <= runs.Length
      ensures View() == AppendUnion(old(View()), Run(val, 0)) && last == runs[nRuns - 1]
      ensures forall i :: old(nRuns) < i < runs.Length ==> runs[i] == old(runs[i])
    {
      if nRuns == 0 {
        runs[0] := Run(val, 0);
        nRuns := 1;
        return Run(val, 0);
      }
      var previousEnd := previous.value + previous.length;
      last := previous;
      if val > previousEnd + 1 {
        last := Run(val, 0);
        runs[nRuns] := last;
        nRuns := nRuns + 1;
      } else if val == previousEnd + 1 {
        last := Run(previous.value, previous.length + 1);
        runs[nRuns - 1] := last;
      }
    }

    /** A store into the slot of run `index`. */
    method Store(index: nat, r: Run)
      requires nRuns <= runs.Length && index < nRuns
      modifies runs
      ensures View() == old(View())[index := r]
    {
      runs[index] := r;
    }

    /** A store past the last run. */
    method Push(r: Run)
      requires nRuns < runs.Length
      modifies this`nRuns, runs
      ensures nRuns == old(nRuns) + 1 && View() == old(View()) + [r]
    {
      runs[nRuns] := r;
      nRuns := nRuns + 1;
    }

    /** `run_container_is_full` */
    method IsFull() returns (b: bool)
      requires Valid() && nRuns > 0
      ensures b <==> View() == [Run(0, 0xFFFF)]
      ensures b ==> Denote(View()) == Range(0, 0x1_0000)
    {
      var vl := runs[0];
      b := nRuns == 1 && vl.value == 0 && vl.length == 0xFFFF;
      if b {
        assert View() == [Run(0, 0xFFFF)];
        DenoteSingle(Run(0, 0xFFFF));
      }
    }

    /** `run_container_copy` */
    method CopyFrom(src: RunContainer)
      requires src != this && src.runs != runs && nRuns <= runs.Length && src.nRuns <= src.runs.Length
      modifies this, runs
      ensures nRuns <= runs.Length && View() == src.View() && (runs == old(runs) || fresh(runs))
    {
      if src.nRuns > runs.Length {
        Grow(src.nRuns, false);
      }
      nRuns := src.nRuns;
      Memory.Copy(runs, 0, src.runs, 0, src.nRuns);
    }

    /** `run_container_add` */
    method Add(pos: u16) returns (added: bool)
      requires Valid()
      modifies this, runs
      ensures Valid() && (runs == old(runs) || fresh(runs))
      ensures Denote(View()) == Denote(old(View())) + {pos}
      ensures added <==> pos !in Denote(old(View()))
    {
      ghost var s := View();
      var index := Search(pos);
      if index >= 0 {
        DenoteMember(s, index, pos);
        return false;
      }
      ghost var p := -index - 1;
      InsertionPointMember(s, p, pos);
      index := -index - 2;
      if index >= 0 && pos - runs[index].value <= runs[index].length {
        return false;
      }
      WithValueAdds(s, p, pos);
      AddMissing(index, pos);
      return true;
    }

    /** The fuse, extend and insert cases of `run_container_add`; `index` is the preceding run or -1. */
    method AddMissing(index: int, pos: u16)
      requires nRuns <= runs.Length && -1 <= index < nRuns
      requires index >= 0 ==> runs[index].End() <= pos
      requires index + 1 < nRuns ==> pos < runs[index + 1].value && runs[index + 1].End() <= 0x1_0000
      modifies this, runs
      ensures nRuns <= runs.Length && (runs == old(runs) || fresh(runs))
      ensures View() == WithValue(old(View()), index + 1, pos)
    {
      ghost var s := View();
      if index >= 0 {
        var offset := pos - runs[index].value;
        var le := runs[index].length;
        if offset == le + 1 {
          if index + 1 < nRuns && runs[index + 1].value == pos + 1 {
            FuseWithNext(index);
            return;
          }
          UpdateIsSplice(s, index, Interval(s[index].value, pos + 1));
          Store(index, Run(runs[index].value, runs[index].length + 1));
          return;
        }
        if index + 1 < nRuns && runs[index + 1].value == pos + 1 {
          UpdateIsSplice(s, index + 1, Interval(pos, s[index + 1].End()));
          Store(index + 1, Run(pos, runs[index + 1].length + 1));
          return;
        }
      }
      if index == -1 && 0 < nRuns && runs[0].value == pos + 1 {
        UpdateIsSplice(s, 0, Interval(pos, s[0].End()));
        Store(0, Run(runs[0].value - 1, runs[0].length + 1));
        return;
      }
      Insert(index + 1, Run(pos, 0));
    }

    /** One run takes the place of the runs at `index` and `index + 1`, and of the gap between them. */
    method FuseWithNext(index: nat)
      requires nRuns <= runs.Length && index + 1 < nRuns
      requires runs[index].value < runs[index + 1].value && runs[index + 1].End() <= 0x1_0000
      modifies this`nRuns, runs
      ensures nRuns <= runs.Length
      ensures View() == Splice(old(View()), index, index + 2,
                               [Interval(old(runs[index]).value, old(runs[index + 1]).End())])
    {
      ghost var s := View();
      var length := runs[index + 1].value + runs[index + 1].length - runs[index].value;
      Store(index, Run(runs[index].value, length));
      RecoverRoomAtIndex(index + 1);
    }

    /** `makeRoomAtIndex` followed by the store into the new slot. */
    method Insert(index: nat, r: Run)
      requires nRuns <= runs.Length && index <= nRuns
      modifies this, runs
      ensures nRuns <= runs.Length && (runs == old(runs) || fresh(runs))
      ensures View() == Splice(old(View()), index, index, [r])
    {
      ghost var s := View();
      MakeRoomAtIndex(index);
      ghost var t := View();
      runs[index] := r;
      assert View() == t[index := r];
      assert t == t[..index] + [t[index]] + t[index + 1..];
    }

    /** `run_container_remove` */
    method Remove(pos: u16) returns (removed: bool)
      requires Valid()
      modifies this, runs
      ensures Valid() && (runs == old(runs) || fresh(runs))
      ensures Denote(View()) == Denote(old(View())) - {pos}
      ensures removed <==> pos in Denote(old(View()))
    {
      ghost var s := View();
      var index := Search(pos);
      if index < 0 {
        InsertionPointMember(s, -index - 1, pos);
        index := -index - 2;
        if index < 0 || pos - runs[index].value > runs[index].length {
          return false;
        }
      }
      DenoteMember(s, index, pos);
      WithoutRemoves(s, index, pos);
      RemoveFrom(index, pos);
      return true;
    }

    /** The four cases of `run_container_remove` for a value held by the run at `index`. */
    method RemoveFrom(index: nat, pos: u16)
      requires nRuns <= runs.Length && index < nRuns
      requires runs[index].Contains(pos) && runs[index].End() <= 0x1_0000
      modifies this, runs
      ensures nRuns <= runs.Length && (runs == old(runs) || fresh(runs))
      ensures View() == Splice(old(View()), index, index + 1, Without(old(runs[index]), pos, pos))
    {
      ghost var s := View();
      var le := runs[index].length;
      var offset := pos - runs[index].value;
      if offset == 0 {
        if le == 0 {
          RecoverRoomAtIndex(index);
        } else {
          UpdateIsSplice(s, index, Interval(pos + 1, s[index].End()));
          runs[index] := Run(runs[index].value + 1, runs[index].length - 1);
        }
      } else if offset < le {
        Split(index, pos, pos);
      } else {
        UpdateIsSplice(s, index, Interval(s[index].value, pos));
        runs[index] := Run(runs[index].value, runs[index].length - 1);
      }
    }

    /** Breaks the run at `index` in two around the values `lo .. hi` strictly inside it. */
    method Split(index: nat, lo: u16, hi: u16)
      requires nRuns <= runs.Length && index < nRuns && runs[index].End() <= 0x1_0000
      requires runs[index].value < lo <= hi < runs[index].End() - 1
      modifies this, runs
      ensures nRuns <= runs.Length && (runs == old(runs) || fresh(runs))
      ensures View() == Splice(old(View()), index, index + 1, Without(old(runs[index]), lo, hi))
    {
      ghost var s := View();
      var value := runs[index].value;
      var runMax := value + runs[index].length;
      runs[index] := Run(value, lo - 1 - value);
      assert View() == s[index := Run(value, lo - 1 - value)];
      Insert(index + 1, Run(hi + 1, runMax - (hi + 1)));
    }

    /** `rle16_find_run`: the run that holds `ikey`, or `-(p + 1)` for its insertion point `p`. */
    method FindRun(ikey: u16) returns (r: int)
      requires Valid()
      ensures FoundRun(View(), ikey, r)
    {
      ghost var s := View();
      assert forall i :: 0 <= i < nRuns ==> runs[i] == s[i];
      var low, high := 0, nRuns - 1;
      while low <= high
        invariant 0 <= low <= high + 1 <= nRuns
        invariant forall i :: 0 <= i < low ==> s[i].End() <= ikey
        invariant forall i :: high < i < nRuns ==> ikey < s[i].value
      {
        var middleIndex := (low + high) / 2;
        var min := runs[middleIndex].value;
        var max := runs[middleIndex].value + runs[middleIndex].length;
        if ikey > max {
          low := middleIndex + 1;
        } else if ikey < min {
          high := middleIndex - 1;
        } else {
          return middleIndex;
        }
      }
      return -(low + 1);
    }

    /** `rle16_count_less` on the first `len` runs. */
    method CountLess(len: nat, key: u16) returns (r: nat)
      requires Valid() && len <= nRuns
      ensures r <= len && CountsLess(View()[..len], r, key)
    {
      if len == 0 {
        return 0;
      }
      ghost var s := View();
      assert forall i :: 0 <= i < nRuns ==> runs[i] == s[i];
      var low, high := 0, len - 1;
      while low <= high
        invariant 0 <= low <= high + 1 <= len
        invariant forall i :: 0 <= i < low ==> s[i].End() < key
        invariant forall i :: high < i < len ==> key <= s[i].End()
      {
        var middleIndex := (low + high) / 2;
        var minValue := runs[middleIndex].value;
        var maxValue := runs[middleIndex].value + runs[middleIndex].length;
        if maxValue + 1 < key {
          low := middleIndex + 1;
        } else if key < minValue {
          high := middleIndex - 1;
        } else {
          return middleIndex;
        }
      }
      return low;
    }

    /** `rle16_count_greater` */
    method CountGreater(key: u16) returns (r: nat)
      requires Valid()
      ensures r <= nRuns && CountsGreater(View(), r, key)
    {
      if nRuns == 0 {
        return 0;
      }
      ghost var s := View();
      assert forall i :: 0 <= i < nRuns ==> runs[i] == s[i];
      var low, high := 0, nRuns - 1;
      while low <= high
        invariant 0 <= low <= high + 1 <= nRuns
        invariant forall i :: 0 <= i < low ==> s[i].value <= key + 1
        invariant forall i :: high < i < nRuns ==> key + 1 < s[i].value
      {
        var middleIndex := (low + high) / 2;
        var minValue := runs[middleIndex].value;
        var maxValue := runs[middleIndex].value + runs[middleIndex].length;
        if maxValue < key {
          low := middleIndex + 1;
        } else if key + 1 < minValue {
          high := middleIndex - 1;
        } else {
          return nRuns - (middleIndex + 1);
        }
      }
      return nRuns - low;
    }

    /** `run_container_add_range_nruns`: one run takes the place of all the runs that `min .. max` touches. */
    method AddRangeNRuns(min: u16, max: u16, nrunsLess: nat, nrunsGreater: nat)
      requires nRuns <= runs.Length && min <= max && nrunsLess + nrunsGreater <= nRuns
      requires forall k :: 0 <= k < nRuns ==> View()[k].End() <= 0x1_0000
      modifies this, runs
      ensures nRuns <= runs.Length && (runs == old(runs) || fresh(runs))
      ensures View() == Splice(old(View()), nrunsLess, old(nRuns) - nrunsGreater,
                               [Covered(old(View()), nrunsLess, old(nRuns) - nrunsGreater, min, max)])
    {
      ghost var s := View();
      var nrunsCommon := nRuns - nrunsLess - nrunsGreater;
      if nrunsCommon == 0 {
        Insert(nrunsLess, Run(min, max - min));
      } else {
        var commonMin := runs[nrunsLess].value;
        var commonMax := runs[nrunsLess + nrunsCommon - 1].value + runs[nrunsLess + nrunsCommon - 1].length;
        assert s[nrunsLess] == runs[nrunsLess];
        assert s[nRuns - nrunsGreater - 1] == runs[nrunsLess + nrunsCommon - 1];
        var resultMin := if commonMin < min then commonMin else min;
        var resultMax := if commonMax > max then commonMax else max;
        ReplaceBlock(nrunsLess, nrunsGreater, Run(resultMin, resultMax - resultMin));
      }
    }

    /** One run takes the place of all but the first `less` and the last `greater` runs. */
    method ReplaceBlock(less: nat, greater: nat, r: Run)
      requires nRuns <= runs.Length && less + greater < nRuns
      modifies this`nRuns, runs
      ensures nRuns <= runs.Length
      ensures View() == Splice(old(View()), less, old(nRuns) - greater, [r])
    {
      ghost var s := View();
      Store(less, r);
      Memory.Move(runs, less + 1, nRuns - greater, greater);
      nRuns := less + 1 + greater;
    }

    /** `run_container_add_range` */
    method AddRange(min: u16, max: u16)
      requires Valid() && min <= max
      modifies this, runs
      ensures Valid() && (runs == old(runs) || fresh(runs))
      ensures Denote(View()) == Denote(old(View())) + Range(min, max + 1)
    {
      hide Denote, Splice;
      var nrunsGreater := CountGreater(max);
      var nrunsLess := CountLess(nRuns - nrunsGreater, min);
      ghost var s := View();
      ghost var t := Splice(s, nrunsLess, nRuns - nrunsGreater,
                            [Covered(s, nrunsLess, nRuns - nrunsGreater, min, max)]);
      assert Canonical(t) && Denote(t) == Denote(s) + Range(min, max + 1) by {
        CoveredAdds(s, nrunsLess, nrunsGreater, min, max);
      }
      AddRangeNRuns(min, max, nrunsLess, nrunsGreater);
    }

    /** `run_container_shift_tail` to the left: drops the `distance` runs before the last `count`. */
    method ShiftTailLeft(count: nat, distance: nat)
      requires nRuns <= runs.Length && count + distance <= nRuns
      modifies this`nRuns, runs
      ensures nRuns <= runs.Length
      ensures View() == old(View())[..old(nRuns) - count - distance] + old(View())[old(nRuns) - count..]
    {
      var srcpos := nRuns - count;
      var dstpos := srcpos - distance;
      Memory.Move(runs, dstpos, srcpos, count);
      nRuns := nRuns - distance;
    }

    /** `run_container_remove_range` */
    method RemoveRange(min: u16, max: u16)
      requires Valid() && min <= max
      modifies this, runs
      ensures Valid() && (runs == old(runs) || fresh(runs))
      ensures Denote(View()) == Denote(old(View())) - Range(min, max + 1)
    {
      ghost var s := View();
      var first := FindRun(min);
      var last := FindRun(max);
      ghost var i, j := FirstMet(first), LastMet(last);
      assert Meets(s, i, j, min, max) by {
        MeetsFound(s, first, last, min, max);
      }
      ghost var t := Splice(s, i, j, Remainder(s, i, j, min, max));
      assert Canonical(t) && Denote(t) == Denote(s) - Range(min, max + 1) by {
        RemainderRemoves(s, i, j, min, max);
      }
      CutOut(first, last, min, max);
    }

    /** The three steps of `run_container_remove_range` once the two end runs are found. */
    method CutOut(first: int, last: int, min: u16, max: u16)
      requires Valid() && min <= max
      requires FoundRun(View(), min, first) && FoundRun(View(), max, last)
      requires Meets(View(), FirstMet(first), LastMet(last), min, max)
      modifies this, runs
      ensures nRuns <= runs.Length && (runs == old(runs) || fresh(runs))
      ensures var i, j := FirstMet(first), LastMet(last);
        View() == Splice(old(View()), i, j, Remainder(old(View()), i, j, min, max))
    {
      ghost var s := View();
      if first >= 0 && min > runs[first].value && max < runs[first].value + runs[first].length {
        InsideOneRun(s, FirstMet(first), LastMet(last), min, max);
        Split(first, min, max);
        return;
      }
      PartialRuns(s, first, last, min, max);
      TrimAndShift(first, last, min, max, FirstMet(first), LastMet(last));
    }

    /** Trims the two partial runs and closes the gap between them. */
    method TrimAndShift(first: int, last: int, min: u16, max: u16, ghost i: nat, ghost j: nat)
      requires nRuns <= runs.Length && min <= max && Partial(View(), i, j, first, last, min, max)
      requires first >= 0 ==> !(runs[first].value < min && max < runs[first].End() - 1)
      modifies this`nRuns, runs
      ensures nRuns <= runs.Length
      ensures View() == Splice(old(View()), i, j, Remainder(old(View()), i, j, min, max))
    {
      ghost var s := View();
      TrimmedIsSplice(s, i, j, min, max);
      var from, to := TrimBoth(first, last, min, max, i, j);
      DropBlock(from, to);
    }

    /** Trims the two partial runs; `from .. to` are the runs that go. */
    method TrimBoth(first: int, last: int, min: u16, max: u16, ghost i: nat, ghost j: nat)
      returns (from: nat, to: int)
      requires nRuns <= runs.Length && min <= max && Partial(View(), i, j, first, last, min, max)
      requires first >= 0 ==> !(runs[first].value < min && max < runs[first].End() - 1)
      modifies runs
      ensures View() == Trimmed(old(View()), i, j, min, max)
      ensures from == TrimmedFrom(old(View()), i, j, min) && to + 1 == TrimmedTo(old(View()), i, j, max)
    {
      from := TrimLeft(first, min);
      to := TrimRight(last, max);
    }

    /** Cuts the run at `first` down to the values below `min`; returns the first run that goes. */
    method TrimLeft(first: int, min: u16) returns (from: nat)
      requires nRuns <= runs.Length && -(nRuns as int) - 1 <= first < nRuns
      requires first >= 0 ==> runs[first].Contains(min)
      modifies runs
      ensures first >= 0 && old(runs[first]).value < min ==>
        from == first + 1 && View() == old(View())[first := Interval(old(runs[first]).value, min)]
      ensures !(first >= 0 && old(runs[first]).value < min) ==> from == FirstMet(first) && View() == old(View())
    {
      if first >= 0 {
        from := first;
        if min > runs[first].value {
          Store(first, Run(runs[first].value, (min - 1) - runs[first].value));
          from := first + 1;
        }
      } else {
        from := -first - 1;
      }
    }

    /** Cuts the run at `last` down to the values above `max`; returns the last run that goes. */
    method TrimRight(last: int, max: u16) returns (to: int)
      requires nRuns <= runs.Length && -(nRuns as int) - 1 <= last < nRuns
      requires last >= 0 ==> runs[last].End() <= 0x1_0000
      modifies runs
      ensures last >= 0 && max + 1 < old(runs[last]).End() ==>
        to == last - 1 && View() == old(View())[last := Interval(max + 1, old(runs[last]).End())]
      ensures !(last >= 0 && max + 1 < old(runs[last]).End()) ==> to == LastMet(last) - 1 && View() == old(View())
    {
      if last >= 0 {
        to := last;
        var runMax := runs[last].value + runs[last].length;
        if runMax > max {
          Store(last, Run(max + 1, runMax - (max + 1)));
          to := last - 1;
        }
      } else {
        to := (-last - 1) - 1;
      }
    }

    /** Removes the runs `from .. to`, if any. */
    method DropBlock(from: nat, to: int)
      requires nRuns <= runs.Length && -1 <= to < nRuns && from <= to + 1
      modifies this`nRuns, runs
      ensures nRuns <= runs.Length
      ensures View() == old(View())[..from] + old(View())[to + 1..]
    {
      if from <= to {
        ShiftTailLeft(nRuns - (to + 1), to - from + 1);
      }
    }
  }

  /** The run at `first` survives in part exactly when the first met run does, and likewise for `last`. */
  lemma PartialRuns(s: seq<Run>, first: int, last: int, min: u16, max: u16)
    requires Canonical(s) && min <= max
    requires FoundRun(s, min, first) && FoundRun(s, max, last)
    requires Meets(s, FirstMet(first), LastMet(last), min, max)
    ensures Partial(s, FirstMet(first), LastMet(last), first, last, min, max)
  {
  }

  /** The run list after the two partial runs are cut, and the bounds of the block that goes next. */
  function Trimmed(s: seq<Run>, i: nat, j: nat, min: u16, max: u16): (t: seq<Run>)
    requires i <= j <= |s| && (forall k :: 0 <= k < |s| ==> s[k].End() <= 0x1_0000)
    ensures |t| == |s|
  {
    var u := if i < j && s[i].value < min then s[i := Interval(s[i].value, min)] else s;
    if i < j && max + 1 < s[j - 1].End() then u[j - 1 := Interval(max + 1, s[j - 1].End())] else u
  }

  function TrimmedFrom(s: seq<Run>, i: nat, j: nat, min: u16): nat
    requires i <= j <= |s|
  {
    if i < j && s[i].value < min then i + 1 else i
  }

  function TrimmedTo(s: seq<Run>, i: nat, j: nat, max: u16): nat
    requires i <= j <= |s|
  {
    if i < j && max + 1 < s[j - 1].End() then j - 1 else j
  }

  /** Trimming in place and dropping the block leaves the runs of `Remainder`. */
  lemma TrimmedIsSplice(s: seq<Run>, i: nat, j: nat, min: u16, max: u16)
    requires i <= j <= |s| && min <= max && (forall k :: 0 <= k < |s| ==> s[k].End() <= 0x1_0000)
    requires i + 1 == j ==> !(s[i].value < min && max + 1 < s[i].End())
    ensures TrimmedFrom(s, i, j, min) <= TrimmedTo(s, i, j, max)
    ensures Trimmed(s, i, j, min, max)[..TrimmedFrom(s, i, j, min)] +
      Trimmed(s, i, j, min, max)[TrimmedTo(s, i, j, max)..]
         == Splice(s, i, j, Remainder(s, i, j, min, max))
  {
  }

  lemma MeetsFound(s: seq<Run>, first: int, last: int, min: u16, max: u16)
    requires Canonical(s) && min <= max
    requires FoundRun(s, min, first) && FoundRun(s, max, last)
    ensures Meets(s, FirstMet(first), LastMet(last), min, max)
  {
    var i, j := FirstMet(first), LastMet(last);
    assert j < i ==> s[j].End() <= min;
  }

  lemma InsideOneRun(s: seq<Run>, i: nat, j: nat, min: u16, max: u16)
    requires Canonical(s) && min <= max && Meets(s, i, j, min, max)
    requires i < |s| && s[i].value < min && max < s[i].End() - 1
    ensures j == i + 1 && Remainder(s, i, j, min, max) == Without(s[i], min, max)
  {
    assert i + 1 < |s| ==> s[i].End() < s[i + 1].value;
  }
}
