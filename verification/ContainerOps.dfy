/**
 The in-place set operations on two containers, for every pair of representations. The first operand is consumed: its
 buffers are loaded, changed and stored back.
 */
module ContainerOps {
  import opened IntSets
  import opened SortedArrays
  import opened ArrayKernels
  import opened Bitsets
  import opened BitsetKernels
  import opened BitsetLists
  import opened BitsetOps
  import opened Runs
  import opened RunContainers
  import opened ArrayContainers
  import opened Containers
  import ContainerUpdates
  import ContainerQueries
  import MixedArrays
  import MixedBitsets
  import MixedRuns
  import RunAlgebra
  import RunQueries

  /** What the operations demand of their operands. */
  ghost predicate Operand(c: Container) {
    Containers.Valid(c) && Elems(c) != {}
  }

  /** What they promise of the result, which may be empty. */
  ghost predicate Outcome(c: Container, c1: Container, c2: Container, s: set<int>) {
    Containers.Valid(c) && Elems(c) == s && (Dense(c1) && Dense(c2) ==> Dense(c))
  }

  /** An array container with at least `capacity` elements of room. */
  method LoadRoomy(vals: seq<u16>, capacity: nat) returns (a: ArrayContainer)
    requires Sorted(vals)
    ensures fresh(a) && fresh(a.vals) && a.Valid() && a.View() == vals && a.vals.Length >= capacity
  {
    a := LoadArray(vals);
    if a.vals.Length < capacity {
      a.Grow(capacity);
    }
  }

  // ---------- union ----------

  /** `container_ior` */
  method Or(c1: Container, c2: Container) returns (c: Container)
    requires Operand(c1) && Operand(c2)
    ensures Outcome(c, c1, c2, Elems(c1) + Elems(c2))
  {
    hide BitSet, Denote, Canonical, Elements, Sorted;
    match (c1, c2) {
      case (BitsetC(words1, _), BitsetC(words2, _)) =>
        c := BitsetOrBitset(words1, words2);
      case (ArrayC(vals1), ArrayC(vals2)) =>
        var capacity: nat := *;
        c := ArrayOrArray(vals1, capacity, vals2);
      case (RunC(runs1), RunC(runs2)) =>
        c := RunOrRun(runs1, runs2);
      case (BitsetC(words, card), ArrayC(vals)) =>
        c := ArrayOrBitset(vals, words, card);
      case (ArrayC(vals), BitsetC(words, card)) =>
        c := ArrayOrBitset(vals, words, card);
        UnionCommutes(Elements(vals), BitSet(words));
      case (BitsetC(words, card), RunC(runs)) =>
        c := RunOrBitset(runs, words, card);
      case (RunC(runs), BitsetC(words, card)) =>
        c := RunOrBitset(runs, words, card);
        UnionCommutes(Denote(runs), BitSet(words));
      case (ArrayC(vals), RunC(runs)) =>
        c := ArrayOrRun(vals, runs);
        UnionCommutes(Elements(vals), Denote(runs));
      case (RunC(runs), ArrayC(vals)) =>
        c := RunOrArray(runs, vals);
    }
  }

  lemma UnionCommutes(a: set<int>, b: set<int>)
    ensures a + b == b + a && a * b == b * a && Xor(a, b) == Xor(b, a)
  {
  }

  lemma Larger(a: set<int>, b: set<int>)
    ensures |a| <= |a + b|
  {
    SubsetSize(a, a + b);
  }

  /** `bitset_container_or`: two bitsets can lead to a full container, which becomes a run. */
  method BitsetOrBitset(words1: seq<bv64>, words2: seq<bv64>) returns (c: Container)
    requires |words1| == |words2| == BITSET_WORDS
    ensures Containers.Valid(c) && Elems(c) == BitSet(words1) + BitSet(words2)
    ensures |BitSet(words1)| >= 2048 ==> Dense(c)
  {
    hide BitSet;
    var a := LoadWords(words1);
    var b := LoadWords(words2);
    var card := Kernel(OrOp, a, b, a);
    Larger(BitSet(words1), BitSet(words2));
    if card == 0x1_0000 {
      ContainerQueries.FullWords(a[..]);
      ContainerUpdates.FullRunIs();
      return ContainerUpdates.FullRun();
    }
    c := BitsetC(a[..], card);
  }

  /** `array_array_container_inplace_union`; `capacity` is what the buffer of the first operand holds already. */
  method ArrayOrArray(vals1: seq<u16>, capacity: nat, vals2: seq<u16>) returns (c: Container)
    requires Containers.Valid(ArrayC(vals1)) && Containers.Valid(ArrayC(vals2))
    ensures Outcome(c, ArrayC(vals1), ArrayC(vals2), Elements(vals1) + Elements(vals2))
  {
    hide BitSet, Elements, Sorted;
    var a := LoadRoomy(vals1, capacity);
    var b := LoadArray(vals2);
    var totalCardinality := a.cardinality + b.cardinality;
    if totalCardinality <= MAX_ARRAY {
      if a.vals.Length < totalCardinality {
        var d := new ArrayContainer(2 * totalCardinality);
        assert a.vals[0..0 + a.cardinality] == vals1;
        d.cardinality := UnionUint16(a.vals, 0, a.cardinality, b.vals, b.cardinality, d.vals);
        c := StoreArray(d);
      } else {
        a.cardinality := InplaceUnion(a.vals, a.cardinality, b.vals, b.cardinality);
        c := StoreArray(a);
      }
      return;
    }
    var bitset := EmptyBitset();
    var _ := SetListWithcard(bitset, 0, a.vals, a.cardinality);
    SortedSize(vals1);
    var card := SetListWithcard(bitset, a.cardinality, b.vals, b.cardinality);
    EmptyPlus(Elements(vals1), Elements(vals2));
    c := ShrinkBitset(bitset, card);
  }

  lemma EmptyPlus(a: set<int>, b: set<int>)
    ensures {} + a == a && {} + a + b == a + b
  {
  }

  method RunOrRun(runs1: seq<Run>, runs2: seq<Run>) returns (c: Container)
    requires Operand(RunC(runs1)) && Operand(RunC(runs2))
    ensures Outcome(c, RunC(runs1), RunC(runs2), Denote(runs1) + Denote(runs2))
  {
    hide Denote, Canonical;
    ContainerQueries.NonEmptyRuns(runs1);
    ContainerQueries.NonEmptyRuns(runs2);
    var a := LoadRuns(runs1);
    var b := LoadRuns(runs2);
    RunAlgebra.UnionInplace(a, b);
    c := ToEfficient(a);
  }

  /** `array_bitset_container_union` */
  method ArrayOrBitset(vals: seq<u16>, words: seq<bv64>, card: int) returns (c: Container)
    requires Containers.Valid(ArrayC(vals)) && Containers.Valid(BitsetC(words, card))
    ensures Outcome(c, BitsetC(words, card), ArrayC(vals), BitSet(words) + Elements(vals))
  {
    hide BitSet, Elements, Sorted;
    var a := LoadArray(vals);
    var bitmap := LoadWords(words);
    Larger(BitSet(words), Elements(vals));
    var card' := SetListWithcard(bitmap, card, a.vals, a.cardinality);
    c := BitsetC(bitmap[..], card');
  }

  /** `run_bitset_container_union`, unless the run list is full. */
  method RunOrBitset(runs: seq<Run>, words: seq<bv64>, card: int) returns (c: Container)
    requires Operand(RunC(runs)) && Containers.Valid(BitsetC(words, card))
    ensures Outcome(c, BitsetC(words, card), RunC(runs), BitSet(words) + Denote(runs))
  {
    hide BitSet, Denote, Canonical;
    ContainerQueries.NonEmptyRuns(runs);
    var run := LoadRuns(runs);
    MixedBitsets.WordsInside(words);
    var full := run.IsFull();
    if full {
      AllPlus(BitSet(words));
      return RunC(runs);
    }
    var bitmap := LoadWords(words);
    SetRuns(bitmap, run);
    Larger(BitSet(words), Denote(runs));
    var card' := ComputeCardinality(bitmap);
    c := BitsetC(bitmap[..], card');
  }

  lemma AllPlus(s: set<int>)
    requires s <= Range(0, 0x1_0000)
    ensures s + Range(0, 0x1_0000) == Range(0, 0x1_0000) && s * Range(0, 0x1_0000) == s
  {
  }

  /** `array_run_container_union` and the conversion after it. */
  method ArrayOrRun(vals: seq<u16>, runs: seq<Run>) returns (c: Container)
    requires Operand(ArrayC(vals)) && Operand(RunC(runs))
    ensures Outcome(c, ArrayC(vals), RunC(runs), Denote(runs) + Elements(vals))
  {
    hide Denote, Canonical, Elements, Sorted;
    ContainerQueries.NonEmptyRuns(runs);
    ContainerQueries.NonEmptyArray(vals);
    var a := LoadArray(vals);
    var run := LoadRuns(runs);
    var result := new RunContainer(0);
    MixedRuns.ArrayRunUnion(a, run, result);
    c := ToEfficient(result);
  }

  /** `array_run_container_inplace_union` and the conversion after it. */
  method RunOrArray(runs: seq<Run>, vals: seq<u16>) returns (c: Container)
    requires Operand(ArrayC(vals)) && Operand(RunC(runs))
    ensures Outcome(c, RunC(runs), ArrayC(vals), Denote(runs) + Elements(vals))
  {
    hide Denote, Canonical, Elements, Sorted;
    ContainerQueries.NonEmptyRuns(runs);
    ContainerQueries.NonEmptyArray(vals);
    var a := LoadArray(vals);
    var run := LoadRuns(runs);
    MixedRuns.ArrayRunInplaceUnion(a, run);
    c := ToEfficient(run);
  }

  // ---------- intersection ----------

  /**
   The buffer for a run list of at most 4096 values and a bitset has room for the smaller of the two only, although the
   values of the runs are stored before they are tested.
   */
  ghost predicate RoomFor(r: set<int>, b: set<int>) {
    |r| <= MAX_ARRAY ==> MixedArrays.RoomToMeet(r, b)
  }

  /** An intersection of two containers stays within its buffers. */
  ghost predicate Fitting(c1: Container, c2: Container) {
    match (c1, c2)
    case (RunC(runs), BitsetC(words, _)) => RoomFor(Denote(runs), BitSet(words))
    case (BitsetC(words, _), RunC(runs)) => RoomFor(Denote(runs), BitSet(words))
    case _ => true
  }

  /** What that means, in cardinalities and sets alone. */
  lemma FittingMeans(c1: Container, c2: Container)
    ensures !(c1.RunC? && c2.BitsetC?) && !(c1.BitsetC? && c2.RunC?) ==> Fitting(c1, c2)
    ensures c1.RunC? && c2.BitsetC? ==>
      var r, b := Elems(c1), Elems(c2);
      && (|r| > 4096 || |r| <= |b| ==> Fitting(c1, c2))
      && (Fitting(c1, c2) <==> !(|r| <= 4096 && b <= r && exists v :: v in r && forall x :: x in b ==> x < v))
    ensures c1.BitsetC? && c2.RunC? ==>
      var r, b := Elems(c2), Elems(c1);
      && (|r| > 4096 || |r| <= |b| ==> Fitting(c1, c2))
      && (Fitting(c1, c2) <==> !(|r| <= 4096 && b <= r && exists v :: v in r && forall x :: x in b ==> x < v))
  {
    hide BitSet, Denote, MixedArrays.RoomToMeet;
    MixedArrays.RoomMeans(Elems(c1), Elems(c2));
    MixedArrays.RoomMeans(Elems(c2), Elems(c1));
  }

  /**
   `container_iand`: says whether every store stayed within its buffer. Only runs of at most 4096 values and a bitset
   of fewer values can fail.
   */
  method And(c1: Container, c2: Container) returns (room: bool, c: Container)
    requires Operand(c1) && Operand(c2)
    ensures room <==> Fitting(c1, c2)
    ensures !(c1.RunC? && c2.BitsetC?) && !(c1.BitsetC? && c2.RunC?) ==> room
    ensures c1.RunC? && c2.BitsetC? && (|Elems(c1)| > 4096 || |Elems(c1)| <= |Elems(c2)|) ==> room
    ensures c1.BitsetC? && c2.RunC? && (|Elems(c2)| > 4096 || |Elems(c2)| <= |Elems(c1)|) ==> room
    ensures room ==> Outcome(c, c1, c2, Elems(c1) * Elems(c2))
    ensures room ==> Elems(c) == Elems(c1) * Elems(c2)
  {
    hide BitSet, Denote, Canonical, Elements, Sorted, RoomFor;
    FittingMeans(c1, c2);
    room := true;
    match (c1, c2) {
      case (BitsetC(words1, _), BitsetC(words2, _)) =>
        c := BitsetAndBitset(words1, words2);
      case (ArrayC(vals1), ArrayC(vals2)) =>
        c := ArrayAndArray(vals1, vals2);
      case (RunC(runs1), RunC(runs2)) =>
        c := RunAndRun(runs1, runs2);
      case (BitsetC(words, _), ArrayC(vals)) =>
        c := ArrayAndBitset(vals, words);
        UnionCommutes(Elements(vals), BitSet(words));
      case (ArrayC(vals), BitsetC(words, _)) =>
        c := ArrayAndBitset(vals, words);
      case (BitsetC(words, card), RunC(runs)) =>
        room, c := RunAndBitset(runs, words, card);
        UnionCommutes(Denote(runs), BitSet(words));
      case (RunC(runs), BitsetC(words, card)) =>
        room, c := RunAndBitset(runs, words, card);
      case (ArrayC(vals), RunC(runs)) =>
        c := ArrayAndRun(vals, runs);
      case (RunC(runs), ArrayC(vals)) =>
        c := ArrayAndRun(vals, runs);
        UnionCommutes(Elements(vals), Denote(runs));
    }
  }

  /** `bitset_bitset_container_intersection_inplace`: the size is known before anything is written. */
  method BitsetAndBitset(words1: seq<bv64>, words2: seq<bv64>) returns (c: Container)
    requires |words1| == |words2| == BITSET_WORDS
    ensures Containers.Valid(c) && Dense(c) && Elems(c) == BitSet(words1) * BitSet(words2)
  {
    hide BitSet, Elements, Sorted;
    var a := LoadWords(words1);
    var b := LoadWords(words2);
    var newCardinality := KernelJustcard(AndOp, a, b);
    if newCardinality > MAX_ARRAY {
      KernelNocard(AndOp, a, b, a);
      c := BitsetC(a[..], newCardinality);
      return;
    }
    var d := new ArrayContainer(newCardinality);
    d.cardinality := ExtractIntersection(a, b, d.vals);
    c := StoreArray(d);
  }

  /** The intersection of two arrays is no longer than the first. */
  method ArrayAndArray(vals1: seq<u16>, vals2: seq<u16>) returns (c: Container)
    requires Containers.Valid(ArrayC(vals1)) && Containers.Valid(ArrayC(vals2))
    ensures Containers.Valid(c) && Dense(c) && Elems(c) == Elements(vals1) * Elements(vals2)
  {
    hide Elements, Sorted;
    var a := LoadArray(vals1);
    var b := LoadArray(vals2);
    a.cardinality := IntersectInplace(a.vals, a.cardinality, b.vals, b.cardinality);
    c := StoreArray(a);
    SortedSize(vals1);
    SortedSize(c.vals);
    SubsetSize(Elements(c.vals), Elements(vals1));
  }

  method RunAndRun(runs1: seq<Run>, runs2: seq<Run>) returns (c: Container)
    requires Operand(RunC(runs1)) && Operand(RunC(runs2))
    ensures Containers.Valid(c) && Dense(c) && Elems(c) == Denote(runs1) * Denote(runs2)
  {
    hide Denote, Canonical;
    ContainerQueries.NonEmptyRuns(runs1);
    ContainerQueries.NonEmptyRuns(runs2);
    var a := LoadRuns(runs1);
    var b := LoadRuns(runs2);
    var result := new RunContainer(0);
    RunAlgebra.Intersection(a, b, result);
    c := ToEfficient(result);
  }

  /** `array_bitset_container_intersection` */
  method ArrayAndBitset(vals: seq<u16>, words: seq<bv64>) returns (c: Container)
    requires Containers.Valid(ArrayC(vals)) && |words| == BITSET_WORDS
    ensures Containers.Valid(c) && Dense(c) && Elems(c) == Elements(vals) * BitSet(words)
  {
    hide BitSet, Elements, Sorted;
    var a := LoadArray(vals);
    var bitmap := LoadWords(words);
    a.cardinality := MixedArrays.FilterByBitset(a.vals, a.cardinality, bitmap, a.vals, true);
    c := StoreArray(a);
  }

  /** `run_bitset_container_intersection` */
  method RunAndBitset(runs: seq<Run>, words: seq<bv64>, card: int) returns (room: bool, c: Container)
    requires Operand(RunC(runs)) && Containers.Valid(BitsetC(words, card))
    ensures room <==> RoomFor(Denote(runs), BitSet(words))
    ensures room ==> Outcome(c, BitsetC(words, card), RunC(runs), Denote(runs) * BitSet(words))
  {
    hide BitSet, Denote, Canonical, Elements, Sorted;
    ContainerQueries.NonEmptyRuns(runs);
    var run := LoadRuns(runs);
    MixedBitsets.WordsInside(words);
    RangeSize(0, 0x1_0000);
    var full := run.IsFull();
    if full {
      AllPlus(BitSet(words));
      UnionCommutes(Denote(runs), BitSet(words));
      return true, BitsetC(words, card);
    }
    var bitmap := LoadWords(words);
    var runCard := RunQueries.Cardinality(run);
    if runCard <= MAX_ARRAY {
      var a;
      room, a := MixedArrays.MeetRuns(run, runCard, bitmap, card);
      c := StoreArray(a);
      return;
    }
    MixedBitsets.KeepRuns(bitmap, run, true);
    var card' := ComputeCardinality(bitmap);
    c := ShrinkBitset(bitmap, card');
    room := true;
  }

  /** `array_run_container_intersection` */
  method ArrayAndRun(vals: seq<u16>, runs: seq<Run>) returns (c: Container)
    requires Containers.Valid(ArrayC(vals)) && Operand(RunC(runs))
    ensures Containers.Valid(c) && Dense(c) && Elems(c) == Elements(vals) * Denote(runs)
  {
    hide Denote, Canonical, Elements, Sorted;
    ContainerQueries.NonEmptyRuns(runs);
    var a := LoadArray(vals);
    var run := LoadRuns(runs);
    var full := run.IsFull();
    if full {
      MixedRuns.FullAbsorbs(vals);
      return ArrayC(vals);
    }
    var d := new ArrayContainer(a.cardinality);
    d.cardinality := MixedArrays.ArrayRunIntersection(a.vals, a.cardinality, run, d.vals);
    c := StoreArray(d);
  }

  // ---------- symmetric difference ----------

  /** `container_ixor` */
  method ExclusiveOr(c1: Container, c2: Container) returns (c: Container)
    requires Operand(c1) && Operand(c2)
    ensures Outcome(c, c1, c2, Xor(Elems(c1), Elems(c2)))
  {
    hide BitSet, Denote, Canonical, Elements, Sorted, Xor;
    match (c1, c2) {
      case (BitsetC(words1, _), BitsetC(words2, _)) =>
        c := BitsetXorBitset(words1, words2);
      case (ArrayC(vals1), ArrayC(vals2)) =>
        c := ArrayXorArray(vals1, vals2);
      case (RunC(runs1), RunC(runs2)) =>
        c := RunXorRun(runs1, runs2);
      case (BitsetC(words, card), ArrayC(vals)) =>
        c := BitsetXorArray(words, card, vals);
      case (ArrayC(vals), BitsetC(words, card)) =>
        c := BitsetXorArray(words, card, vals);
        UnionCommutes(Elements(vals), BitSet(words));
      case (BitsetC(words, _), RunC(runs)) =>
        c := RunXorBitset(runs, words);
      case (RunC(runs), BitsetC(words, _)) =>
        c := RunXorBitset(runs, words);
        UnionCommutes(Denote(runs), BitSet(words));
      case (ArrayC(vals), RunC(runs)) =>
        c := ArrayXorRun(vals, runs);
        UnionCommutes(Elements(vals), Denote(runs));
      case (RunC(runs), ArrayC(vals)) =>
        c := ArrayXorRun(vals, runs);
    }
  }

  method BitsetXorBitset(words1: seq<bv64>, words2: seq<bv64>) returns (c: Container)
    requires |words1| == |words2| == BITSET_WORDS
    ensures Containers.Valid(c) && Dense(c) && Elems(c) == Xor(BitSet(words1), BitSet(words2))
  {
    hide BitSet, Xor;
    var a := LoadWords(words1);
    var b := LoadWords(words2);
    var out := EmptyBitset();
    var card := Kernel(XorOp, a, b, out);
    c := ShrinkBitset(out, card);
  }

  /** `array_array_container_xor` */
  method ArrayXorArray(vals1: seq<u16>, vals2: seq<u16>) returns (c: Container)
    requires Containers.Valid(ArrayC(vals1)) && Sorted(vals2)
    ensures Containers.Valid(c) && Dense(c) && Elems(c) == Xor(Elements(vals1), Elements(vals2))
  {
    hide BitSet, Elements, Sorted, Xor;
    var a := LoadArray(vals1);
    var b := LoadArray(vals2);
    var totalCardinality := a.cardinality + b.cardinality;
    if totalCardinality <= MAX_ARRAY {
      var d := new ArrayContainer(totalCardinality);
      d.cardinality := MixedArrays.XorUint16(a.vals, a.cardinality, b.vals, b.cardinality, d.vals);
      c := StoreArray(d);
      return;
    }
    var bitset, _ := BitsetFromArray(a);
    SortedSize(vals1);
    var card := FlipListWithcard(bitset, a.cardinality, b.vals, b.cardinality);
    c := ShrinkBitset(bitset, card);
  }

  method RunXorRun(runs1: seq<Run>, runs2: seq<Run>) returns (c: Container)
    requires Containers.Valid(RunC(runs1)) && Containers.Valid(RunC(runs2))
    ensures Containers.Valid(c) && Dense(c) && Elems(c) == Xor(Denote(runs1), Denote(runs2))
  {
    hide Denote, Canonical, Xor;
    var a := LoadRuns(runs1);
    var b := LoadRuns(runs2);
    var result := new RunContainer(0);
    RunAlgebra.ContainerXor(a, b, result);
    c := ToEfficient(result);
  }

  /** `bitset_array_container_ixor`, and `array_bitset_container_xor` on a copy of the bitset. */
  method BitsetXorArray(words: seq<bv64>, card: int, vals: seq<u16>) returns (c: Container)
    requires Containers.Valid(BitsetC(words, card)) && Sorted(vals)
    ensures Containers.Valid(c) && Dense(c) && Elems(c) == Xor(BitSet(words), Elements(vals))
  {
    hide BitSet, Elements, Sorted, Xor;
    var bitmap := LoadWords(words);
    var a := LoadArray(vals);
    var card' := FlipListWithcard(bitmap, card, a.vals, a.cardinality);
    c := ShrinkBitset(bitmap, card');
  }

  /** `run_bitset_container_xor` */
  method RunXorBitset(runs: seq<Run>, words: seq<bv64>) returns (c: Container)
    requires Containers.Valid(RunC(runs)) && |words| == BITSET_WORDS
    ensures Containers.Valid(c) && Dense(c) && Elems(c) == Xor(BitSet(words), Denote(runs))
  {
    hide BitSet, Denote, Canonical, Xor;
    var run := LoadRuns(runs);
    var bitmap := LoadWords(words);
    MixedBitsets.FlipRuns(bitmap, run);
    var card := ComputeCardinality(bitmap);
    c := ShrinkBitset(bitmap, card);
  }

  /** `array_run_container_xor` */
  method ArrayXorRun(vals: seq<u16>, runs: seq<Run>) returns (c: Container)
    requires Containers.Valid(ArrayC(vals)) && Containers.Valid(RunC(runs))
    ensures Containers.Valid(c) && Dense(c) && Elems(c) == Xor(Denote(runs), Elements(vals))
  {
    hide BitSet, Denote, Canonical, Elements, Sorted, Xor;
    var arbitraryThreshold := 32;
    var a := LoadArray(vals);
    var run := LoadRuns(runs);
    if a.cardinality < arbitraryThreshold {
      var ans := new RunContainer(0);
      MixedRuns.ArrayRunLazyXor(a, run, ans);
      c := ToEfficient(ans);
      return;
    }
    var card := RunQueries.Cardinality(run);
    if card <= MAX_ARRAY {
      var temp := ArrayFromRun(run, card);
      c := ArrayXorArray(temp.vals[..temp.cardinality], vals);
    } else {
      var result, card' := BitsetFromRun(run);
      c := BitsetXorArray(result[..], card', vals);
    }
  }

  // ---------- difference ----------

  /** `container_iandnot` */
  method AndNot(c1: Container, c2: Container) returns (c: Container)
    requires Operand(c1) && Operand(c2)
    ensures Outcome(c, c1, c2, Elems(c1) - Elems(c2))
  {
    hide BitSet, Denote, Canonical, Elements, Sorted;
    match (c1, c2) {
      case (BitsetC(words1, _), BitsetC(words2, _)) =>
        c := BitsetAndNotBitset(words1, words2);
      case (ArrayC(vals1), ArrayC(vals2)) =>
        c := ArrayAndNotArray(vals1, vals2);
      case (RunC(runs1), RunC(runs2)) =>
        c := RunAndNotRun(runs1, runs2);
      case (BitsetC(words, card), ArrayC(vals)) =>
        c := BitsetAndNotArray(words, card, vals);
      case (ArrayC(vals), BitsetC(words, _)) =>
        c := ArrayAndNotBitset(vals, words);
      case (BitsetC(words, _), RunC(runs)) =>
        c := BitsetAndNotRun(words, runs);
      case (RunC(runs), BitsetC(words, _)) =>
        c := RunAndNotBitset(runs, words);
      case (ArrayC(vals), RunC(runs)) =>
        c := ArrayAndNotRun(vals, runs);
      case (RunC(runs), ArrayC(vals)) =>
        c := RunAndNotArray(runs, vals);
    }
  }

  method BitsetAndNotBitset(words1: seq<bv64>, words2: seq<bv64>) returns (c: Container)
    requires |words1| == |words2| == BITSET_WORDS
    ensures Containers.Valid(c) && Dense(c) && Elems(c) == BitSet(words1) - BitSet(words2)
  {
    hide BitSet;
    var a := LoadWords(words1);
    var b := LoadWords(words2);
    var card := Kernel(AndNotOp, a, b, a);
    c := ShrinkBitset(a, card);
  }

  method ArrayAndNotArray(vals1: seq<u16>, vals2: seq<u16>) returns (c: Container)
    requires Containers.Valid(ArrayC(vals1)) && Containers.Valid(ArrayC(vals2))
    ensures Containers.Valid(c) && Dense(c) && Elems(c) == Elements(vals1) - Elements(vals2)
  {
    hide Elements, Sorted;
    var a := LoadArray(vals1);
    var b := LoadArray(vals2);
    a.cardinality := DifferenceUint16(a.vals, a.cardinality, b.vals, b.cardinality, a.vals);
    c := StoreArray(a);
  }

  method RunAndNotRun(runs1: seq<Run>, runs2: seq<Run>) returns (c: Container)
    requires Operand(RunC(runs1)) && Operand(RunC(runs2))
    ensures Containers.Valid(c) && Dense(c) && Elems(c) == Denote(runs1) - Denote(runs2)
  {
    hide Denote, Canonical;
    ContainerQueries.NonEmptyRuns(runs1);
    ContainerQueries.NonEmptyRuns(runs2);
    var a := LoadRuns(runs1);
    var b := LoadRuns(runs2);
    var result := new RunContainer(0);
    RunAlgebra.AndNot(a, b, result);
    c := ToEfficient(result);
  }

  /** `bitset_array_container_iandnot` */
  method BitsetAndNotArray(words: seq<bv64>, card: int, vals: seq<u16>) returns (c: Container)
    requires Containers.Valid(BitsetC(words, card)) && Sorted(vals)
    ensures Containers.Valid(c) && Dense(c) && Elems(c) == BitSet(words) - Elements(vals)
  {
    hide BitSet, Elements, Sorted;
    var bitmap := LoadWords(words);
    var a := LoadArray(vals);
    var card' := ClearList(bitmap, card, a.vals, a.cardinality);
    c := ShrinkBitset(bitmap, card');
  }

  /** `array_bitset_container_iandnot` */
  method ArrayAndNotBitset(vals: seq<u16>, words: seq<bv64>) returns (c: Container)
    requires Containers.Valid(ArrayC(vals)) && |words| == BITSET_WORDS
    ensures Containers.Valid(c) && Dense(c) && Elems(c) == Elements(vals) - BitSet(words)
  {
    hide BitSet, Elements, Sorted;
    var a := LoadArray(vals);
    var bitmap := LoadWords(words);
    a.cardinality := MixedArrays.FilterByBitset(a.vals, a.cardinality, bitmap, a.vals, false);
    c := StoreArray(a);
  }

  /** `bitset_run_container_iandnot` */
  method BitsetAndNotRun(words: seq<bv64>, runs: seq<Run>) returns (c: Container)
    requires |words| == BITSET_WORDS && Containers.Valid(RunC(runs))
    ensures Containers.Valid(c) && Dense(c) && Elems(c) == BitSet(words) - Denote(runs)
  {
    hide BitSet, Denote, Canonical;
    var run := LoadRuns(runs);
    var bitmap := LoadWords(words);
    MixedBitsets.ResetRuns(bitmap, run);
    var card := ComputeCardinality(bitmap);
    c := ShrinkBitset(bitmap, card);
  }

  /** `run_bitset_container_andnot` */
  method RunAndNotBitset(runs: seq<Run>, words: seq<bv64>) returns (c: Container)
    requires Containers.Valid(RunC(runs)) && |words| == BITSET_WORDS
    ensures Containers.Valid(c) && Dense(c) && Elems(c) == Denote(runs) - BitSet(words)
  {
    hide BitSet, Denote, Canonical, Elements, Sorted;
    var run := LoadRuns(runs);
    var bitmap := LoadWords(words);
    var card := RunQueries.Cardinality(run);
    if card <= MAX_ARRAY {
      var a := MixedArrays.ListRuns(run, card, bitmap);
      c := StoreArray(a);
      return;
    }
    MixedBitsets.KeepRuns(bitmap, run, false);
    var card' := ComputeCardinality(bitmap);
    c := ShrinkBitset(bitmap, card');
  }

  /** `array_run_container_iandnot` */
  method ArrayAndNotRun(vals: seq<u16>, runs: seq<Run>) returns (c: Container)
    requires Containers.Valid(ArrayC(vals)) && Operand(RunC(runs))
    ensures Containers.Valid(c) && Dense(c) && Elems(c) == Elements(vals) - Denote(runs)
  {
    hide Denote, Canonical, Elements, Sorted;
    ContainerQueries.NonEmptyRuns(runs);
    var a := LoadArray(vals);
    var run := LoadRuns(runs);
    a.cardinality := MixedArrays.ArrayRunAndNot(a.vals, a.cardinality, run, a.vals);
    c := StoreArray(a);
  }

  /** `run_array_container_andnot` */
  method RunAndNotArray(runs: seq<Run>, vals: seq<u16>) returns (c: Container)
    requires Operand(RunC(runs)) && Operand(ArrayC(vals))
    ensures Containers.Valid(c) && Dense(c) && Elems(c) == Denote(runs) - Elements(vals)
  {
    hide BitSet, Denote, Canonical, Elements, Sorted;
    ContainerQueries.NonEmptyRuns(runs);
    ContainerQueries.NonEmptyArray(vals);
    var a := LoadArray(vals);
    var run := LoadRuns(runs);
    var card := RunQueries.Cardinality(run);
    var arbitraryThreshold := 32;
    if card <= arbitraryThreshold {
      RunsFit(runs);
      var answer := new RunContainer(card + a.cardinality);
      MixedRuns.RunArrayScan(run, a, answer);
      c := ToEfficient(answer);
    } else if card <= MAX_ARRAY {
      var out := MixedArrays.RunArrayArraySubtract(run, card, a);
      c := StoreArray(out);
    } else {
      var ans, card' := BitsetFromRun(run);
      c := BitsetAndNotArray(ans[..], card', vals);
    }
  }

  lemma RunsFit(runs: seq<Run>)
    requires Canonical(runs)
    ensures |runs| <= |Denote(runs)|
  {
    ContainerUpdates.ValuesPerRun(runs);
  }
}
