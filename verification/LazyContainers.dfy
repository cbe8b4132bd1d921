/** The lazy unions of two containers: the cardinality of a bitset may be left unknown until a repair. */
module LazyContainers {
  import opened IntSets
  import opened SortedArrays
  import opened ArrayKernels
  import opened Bitsets
  import opened BitsetLists
  import opened BitsetOps
  import opened Runs
  import opened RunContainers
  import opened ArrayContainers
  import opened Containers
  import opened ContainerUpdates
  import ContainerOps
  import ContainerQueries
  import MixedBitsets
  import MixedRuns
  import RunAlgebra

  /** `ARRAY_LAZY_LOWERBOUND` */
  const ARRAY_LAZY_LOWERBOUND: nat := 1024

  /** What the containers of a bitmap under lazy operations satisfy. */
  ghost predicate LazyGood(c: Container) {
    LazyValid(c) && Elems(c) != {}
  }

  /** What a lazy union promises. */
  ghost predicate LazyUnion(c: Container, c1: Container, c2: Container) {
    LazyGood(c) && Elems(c) == Elems(c1) + Elems(c2)
  }

  lemma LazyUnionIs(c: Container, c1: Container, c2: Container)
    requires LazyValid(c) && Elems(c) == Elems(c1) + Elems(c2) && Elems(c1) != {}
    ensures LazyUnion(c, c1, c2)
  {
  }

  /** `container_is_full` on a container that may be lazy: an unknown cardinality never passes for 65536. */
  method IsFull(c: Container) returns (b: bool)
    requires LazyGood(c)
    ensures b ==> Elems(c) == Range(0, 0x1_0000)
    ensures !(c.BitsetC? && c.cardinality == UNKNOWN) ==> (b <==> Elems(c) == Range(0, 0x1_0000))
  {
    hide BitSet, Denote, Canonical, Elements, Sorted;
    match c {
      case BitsetC(words, cardinality) =>
        b := cardinality == 0x1_0000;
        RangeSize(0, 0x1_0000);
        if b { ContainerQueries.FullWords(words); }
      case ArrayC(_) =>
        b := ContainerQueries.IsFull(c);
      case RunC(_) =>
        b := ContainerQueries.IsFull(c);
    }
  }

  /** `container_lazy_or` */
  method LazyOr(c1: Container, c2: Container) returns (c: Container)
    requires LazyGood(c1) && LazyGood(c2)
    ensures LazyUnion(c, c1, c2)
  {
    hide BitSet, Denote, Canonical, Elements, Sorted, LazyUnion;
    match (c1, c2) {
      case (BitsetC(words1, _), BitsetC(words2, _)) =>
        c := BitsetOrBitset(words1, words2);
      case (ArrayC(vals1), ArrayC(vals2)) =>
        c := ArrayOrArray(vals1, vals2);
      case (RunC(runs1), RunC(runs2)) =>
        c := RunOrRun(runs1, runs2);
      case (ArrayC(vals), RunC(runs)) =>
        c := ArrayOrRun(vals, runs);
      case (RunC(runs), ArrayC(vals)) =>
        c := ArrayOrRun(vals, runs);
        ContainerOps.UnionCommutes(Elements(vals), Denote(runs));
      case (_, _) =>
        c := OneBitset(c1, c2);
    }
    LazyUnionIs(c, c1, c2);
  }

  /** `container_lazy_ior` */
  method LazyIor(c1: Container, c2: Container) returns (c: Container)
    requires LazyGood(c1) && LazyGood(c2)
    ensures LazyUnion(c, c1, c2)
  {
    hide BitSet, Denote, Canonical, Elements, Sorted, LazyUnion;
    match (c1, c2) {
      case (BitsetC(words1, _), BitsetC(words2, _)) =>
        c := ContainerOps.BitsetOrBitset(words1, words2);
      case (ArrayC(vals1), ArrayC(vals2)) =>
        var capacity: nat := *;
        c := ArrayInplaceOrArray(vals1, capacity, vals2);
      case (RunC(runs1), RunC(runs2)) =>
        c := ContainerOps.RunOrRun(runs1, runs2);
      case (ArrayC(vals), RunC(runs)) =>
        c := ArrayOrRun(vals, runs);
      case (RunC(runs), ArrayC(vals)) =>
        c := RunInplaceOrArray(runs, vals);
      case (_, _) =>
        c := OneBitset(c1, c2);
    }
    LazyUnionIs(c, c1, c2);
  }

  /** `bitset_container_or_nocard` into a new container. */
  method BitsetOrBitset(words1: seq<bv64>, words2: seq<bv64>) returns (c: Container)
    requires |words1| == |words2| == BITSET_WORDS
    ensures LazyValid(c) && Elems(c) == BitSet(words1) + BitSet(words2)
  {
    hide BitSet;
    var a := LoadWords(words1);
    var b := LoadWords(words2);
    var out := EmptyBitset();
    KernelNocard(OrOp, a, b, out);
    c := BitsetC(out[..], UNKNOWN);
  }

  /** The second halves of the lazy array unions: more than 1024 values may come together. */
  method ArraysToBitset(a: ArrayContainer, b: ArrayContainer) returns (c: Container)
    requires a.Valid() && b.Valid()
    ensures LazyValid(c) && Elems(c) == Elements(a.View()) + Elements(b.View())
  {
    hide BitSet, Elements, Sorted;
    var bitset := EmptyBitset();
    var _ := SetListWithcard(bitset, 0, a.vals, a.cardinality);
    var _ := SetListWithcard(bitset, 0, b.vals, b.cardinality);
    ContainerOps.EmptyPlus(Elements(a.View()), Elements(b.View()));
    c := BitsetC(bitset[..], UNKNOWN);
  }

  /** `array_array_container_lazy_union` */
  method ArrayOrArray(vals1: seq<u16>, vals2: seq<u16>) returns (c: Container)
    requires Containers.Valid(ArrayC(vals1)) && Containers.Valid(ArrayC(vals2))
    ensures LazyValid(c) && Elems(c) == Elements(vals1) + Elements(vals2)
  {
    hide Elements, Sorted;
    var a := LoadArray(vals1);
    var b := LoadArray(vals2);
    var totalCardinality := a.cardinality + b.cardinality;
    if totalCardinality <= ARRAY_LAZY_LOWERBOUND {
      var d := new ArrayContainer(totalCardinality);
      assert a.vals[0..0 + a.cardinality] == vals1;
      d.cardinality := UnionUint16(a.vals, 0, a.cardinality, b.vals, b.cardinality, d.vals);
      c := StoreArray(d);
      return;
    }
    c := ArraysToBitset(a, b);
  }

  /** `array_array_container_lazy_inplace_union`; `capacity` is what the buffer of the first operand holds already. */
  method ArrayInplaceOrArray(vals1: seq<u16>, capacity: nat, vals2: seq<u16>) returns (c: Container)
    requires Containers.Valid(ArrayC(vals1)) && Containers.Valid(ArrayC(vals2))
    ensures LazyValid(c) && Elems(c) == Elements(vals1) + Elements(vals2)
  {
    hide Elements, Sorted;
    var a := ContainerOps.LoadRoomy(vals1, capacity);
    var b := LoadArray(vals2);
    var totalCardinality := a.cardinality + b.cardinality;
    if totalCardinality <= ARRAY_LAZY_LOWERBOUND {
      if a.vals.Length < totalCardinality {
        var d := new ArrayContainer(2 * totalCardinality);
        assert a.vals[0..0 + a.cardinality] == vals1;
        d.cardinality := UnionUint16(a.vals, 0, a.cardinality, b.vals, b.cardinality, d.vals);
        c := StoreArray(d);
      } else {
        a.cardinality := InplaceUnion(a.vals, a.cardinality, b.vals, b.cardinality);
        c := StoreArray(a);
      }
      return;
    }
    c := ArraysToBitset(a, b);
  }

  /** Two run lists, into a new container. */
  method RunOrRun(runs1: seq<Run>, runs2: seq<Run>) returns (c: Container)
    requires ContainerOps.Operand(RunC(runs1)) && ContainerOps.Operand(RunC(runs2))
    ensures Containers.Valid(c) && Elems(c) == Denote(runs1) + Denote(runs2)
  {
    hide Denote, Canonical;
    ContainerQueries.NonEmptyRuns(runs1);
    ContainerQueries.NonEmptyRuns(runs2);
    var a := LoadRuns(runs1);
    var b := LoadRuns(runs2);
    var result := new RunContainer(0);
    RunAlgebra.Union(a, b, result);
    c := ToEfficient(result);
  }

  /** `array_run_container_union`: the result stays a run list for now. */
  method ArrayOrRun(vals: seq<u16>, runs: seq<Run>) returns (c: Container)
    requires ContainerOps.Operand(ArrayC(vals)) && ContainerOps.Operand(RunC(runs))
    ensures LazyValid(c) && Elems(c) == Elements(vals) + Denote(runs)
  {
    hide Denote, Canonical, Elements, Sorted;
    ContainerQueries.NonEmptyRuns(runs);
    ContainerQueries.NonEmptyArray(vals);
    var a := LoadArray(vals);
    var run := LoadRuns(runs);
    var result := new RunContainer(0);
    MixedRuns.ArrayRunUnion(a, run, result);
    ContainerOps.UnionCommutes(Elements(vals), Denote(runs));
    c := StoreRuns(result);
  }

  /** `array_run_container_inplace_union` */
  method RunInplaceOrArray(runs: seq<Run>, vals: seq<u16>) returns (c: Container)
    requires ContainerOps.Operand(ArrayC(vals)) && ContainerOps.Operand(RunC(runs))
    ensures LazyValid(c) && Elems(c) == Denote(runs) + Elements(vals)
  {
    hide Denote, Canonical, Elements, Sorted;
    ContainerQueries.NonEmptyRuns(runs);
    ContainerQueries.NonEmptyArray(vals);
    var a := LoadArray(vals);
    var run := LoadRuns(runs);
    MixedRuns.ArrayRunInplaceUnion(a, run);
    c := StoreRuns(run);
  }

  /** The four cases with one bitset. */
  method OneBitset(c1: Container, c2: Container) returns (c: Container)
    requires LazyGood(c1) && LazyGood(c2) && (c1.BitsetC? != c2.BitsetC?)
    ensures LazyValid(c) && Elems(c) == Elems(c1) + Elems(c2)
  {
    hide BitSet, Denote, Canonical, Elements, Sorted;
    match (c1, c2) {
      case (BitsetC(words, _), ArrayC(vals)) =>
        c := ArrayOrBitset(vals, words);
      case (ArrayC(vals), BitsetC(words, _)) =>
        c := ArrayOrBitset(vals, words);
        ContainerOps.UnionCommutes(Elements(vals), BitSet(words));
      case (BitsetC(words, _), RunC(runs)) =>
        c := RunOrBitset(runs, words);
      case (RunC(runs), BitsetC(words, _)) =>
        c := RunOrBitset(runs, words);
        ContainerOps.UnionCommutes(Denote(runs), BitSet(words));
    }
  }

  /** `array_bitset_container_lazy_union` */
  method ArrayOrBitset(vals: seq<u16>, words: seq<bv64>) returns (c: Container)
    requires Sorted(vals) && |words| == BITSET_WORDS
    ensures LazyValid(c) && Elems(c) == BitSet(words) + Elements(vals)
  {
    hide BitSet, Elements, Sorted;
    var a := LoadArray(vals);
    var bitmap := LoadWords(words);
    var _ := SetListWithcard(bitmap, 0, a.vals, a.cardinality);
    c := BitsetC(bitmap[..], UNKNOWN);
  }

  /** `run_bitset_container_lazy_union`, unless the run list is full. */
  method RunOrBitset(runs: seq<Run>, words: seq<bv64>) returns (c: Container)
    requires ContainerOps.Operand(RunC(runs)) && |words| == BITSET_WORDS
    ensures LazyValid(c) && Elems(c) == BitSet(words) + Denote(runs)
  {
    hide BitSet, Denote, Canonical;
    ContainerQueries.NonEmptyRuns(runs);
    var run := LoadRuns(runs);
    MixedBitsets.WordsInside(words);
    var full := run.IsFull();
    if full {
      ContainerOps.AllPlus(BitSet(words));
      return RunC(runs);
    }
    var bitmap := LoadWords(words);
    SetRuns(bitmap, run);
    c := BitsetC(bitmap[..], UNKNOWN);
  }
}
